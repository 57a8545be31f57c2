/** The channel areas synth_ctx_create sets up over the one sample buffer
    (src/core.c:297-306): interleaved frames, channel by channel. */
module Layout {
  import opened Packing

  /** The area of channel `chn` among `channels`: its first sample `chn`
      containers into the buffer, successive samples one frame of
      `channels` containers apart (both in bits). */
  function AreaOf(chn: nat, channels: nat, f: Format): (a: ChannelArea) {
    ChannelArea(chn * f.physWidth, channels * f.physWidth)
  }

  /** Size in bytes of the sample buffer: one period of interleaved frames. */
  function BufferBytes(periodSize: nat, channels: nat, f: Format): (n: nat) {
    (periodSize * channels * f.physWidth) / 8
  }

  /** `areas` is the layout synth_ctx_create builds for `channels` channels. */
  predicate IsLayout(areas: seq<ChannelArea>, channels: nat, f: Format) {
    |areas| == channels && forall c :: 0 <= c < channels ==> areas[c] == AreaOf(c, channels, f)
  }

  lemma Mul8Div(x: nat)
    ensures (x * 8) / 8 == x && (x * 8) % 8 == 0
  {
  }

  /** The container of frame `offset + j` of channel `chn` is container
      number (offset + j) * channels + chn of the buffer. */
  lemma LayoutSlot(chn: nat, channels: nat, f: Format, offset: nat, j: nat)
    requires ValidFormat(f)
    ensures Slot(AreaOf(chn, channels, f), offset, j) == ((offset + j) * channels + chn) * PhysBytes(f)
  {
    var pb := PhysBytes(f);
    assert f.physWidth == pb * 8;
    assert chn * f.physWidth == (chn * pb) * 8;
    Mul8Div(chn * pb);
    assert channels * f.physWidth == (channels * pb) * 8;
    Mul8Div(channels * pb);
    assert (offset + j) * (channels * pb) + chn * pb == ((offset + j) * channels + chn) * pb;
  }

  /** The buffer holds periodSize * channels containers. */
  lemma BufferContainers(periodSize: nat, channels: nat, f: Format)
    requires ValidFormat(f)
    ensures BufferBytes(periodSize, channels, f) == periodSize * channels * PhysBytes(f)
  {
    var pb := PhysBytes(f);
    assert f.physWidth == pb * 8;
    assert periodSize * channels * f.physWidth == (periodSize * channels * pb) * 8;
    Mul8Div(periodSize * channels * pb);
  }

  /** The packer accepts the layout exactly when a frame is a whole number
      of 16-bit units: `first` is always a multiple of 8, and `step` a
      multiple of 16 only then (so a mono 8-bit layout is refused). */
  lemma LayoutAccepted(areas: seq<ChannelArea>, channels: nat, f: Format)
    requires ValidFormat(f) && IsLayout(areas, channels, f)
    ensures AreasAccepted(areas) <==> channels == 0 || (channels * PhysBytes(f)) % 2 == 0
  {
    var pb := PhysBytes(f);
    assert f.physWidth == pb * 8;
    forall c | 0 <= c < channels ensures areas[c].first % 8 == 0 {
      assert areas[c].first == (c * pb) * 8;
      Mul8Div(c * pb);
    }
    assert channels * f.physWidth == (channels * pb) * 16 / 2;
    Step16(channels * pb);
    if channels > 0 {
      assert areas[0].step == channels * f.physWidth;
    }
  }

  /** With the program's own format, S16 (two-byte containers), the packer
      accepts the layout for every channel count, mono included. */
  lemma S16LayoutAccepted(areas: seq<ChannelArea>, channels: nat)
    requires IsLayout(areas, channels, S16_LE)
    ensures AreasAccepted(areas)
  {
    LayoutAccepted(areas, channels, S16_LE);
  }

  lemma Step16(x: nat)
    ensures (x * 8) % 16 == 0 <==> x % 2 == 0
  {
  }

  lemma MulMono(a: nat, b: nat, k: nat)
    requires a <= b
    ensures a * k <= b * k
  {
  }

  /** Every container of the first periodSize frames of every channel lies
      inside the sample buffer. */
  lemma LayoutFits(areas: seq<ChannelArea>, channels: nat, periodSize: nat, f: Format)
    requires ValidFormat(f) && IsLayout(areas, channels, f)
    ensures SlotsFit(areas, f, 0, periodSize, BufferBytes(periodSize, channels, f))
  {
    var pb := PhysBytes(f);
    BufferContainers(periodSize, channels, f);
    forall c, j | 0 <= c < |areas| && 0 <= j < periodSize
      ensures Fits(areas[c], f, 0, j, BufferBytes(periodSize, channels, f))
    {
      LayoutSlot(c, channels, f, 0, j);
      assert j * channels + c + 1 <= (j + 1) * channels;
      MulMono(j + 1, periodSize, channels);
      MulMono(j * channels + c + 1, periodSize * channels, pb);
      assert (j * channels + c) * pb + pb == (j * channels + c + 1) * pb;
    }
  }

  /** Container numbers tell frames and channels apart. */
  lemma IndexUnique(j1: nat, c1: nat, j2: nat, c2: nat, channels: nat)
    requires c1 < channels && c2 < channels && j1 * channels + c1 == j2 * channels + c2
    ensures j1 == j2 && c1 == c2
  {
    if j1 < j2 {
      MulMono(j1 + 1, j2, channels);
    } else if j2 < j1 {
      MulMono(j2 + 1, j1, channels);
    }
  }

  /** No two containers of the layout overlap, over any run of frames. */
  lemma LayoutDisjoint(areas: seq<ChannelArea>, channels: nat, f: Format, offset: nat, n: nat)
    requires ValidFormat(f) && IsLayout(areas, channels, f)
    ensures Disjoint(areas, f, offset, n)
  {
    forall c1, j1, c2, j2 | 0 <= c1 < |areas| && 0 <= j1 < n && 0 <= c2 < |areas| && 0 <= j2 < n && (c1 != c2 || j1 != j2)
      ensures Apart(areas[c1], j1, areas[c2], j2, f, offset)
    {
      LayoutApart(c1, j1, c2, j2, channels, f, offset);
    }
  }

  /** Two different (channel, frame) containers of the layout do not overlap. */
  lemma LayoutApart(c1: nat, j1: nat, c2: nat, j2: nat, channels: nat, f: Format, offset: nat)
    requires ValidFormat(f) && c1 < channels && c2 < channels && (c1 != c2 || j1 != j2)
    ensures Apart(AreaOf(c1, channels, f), j1, AreaOf(c2, channels, f), j2, f, offset)
  {
    LayoutSlot(c1, channels, f, offset, j1);
    LayoutSlot(c2, channels, f, offset, j2);
    IndexDistinct(offset + j1, c1, offset + j2, c2, channels);
    ContainersApart((offset + j1) * channels + c1, (offset + j2) * channels + c2, PhysBytes(f));
  }

  lemma IndexDistinct(j1: nat, c1: nat, j2: nat, c2: nat, channels: nat)
    requires c1 < channels && c2 < channels && (c1 != c2 || j1 != j2)
    ensures j1 * channels + c1 != j2 * channels + c2
  {
    if j1 * channels + c1 == j2 * channels + c2 {
      IndexUnique(j1, c1, j2, c2, channels);
    }
  }

  /** Containers number k1 != k2 of `size` bytes each do not overlap. */
  lemma ContainersApart(k1: nat, k2: nat, size: nat)
    requires k1 != k2
    ensures k1 * size + size <= k2 * size || k2 * size + size <= k1 * size
  {
    if k1 < k2 {
      MulMono(k1 + 1, k2, size);
    } else {
      MulMono(k2 + 1, k1, size);
    }
  }
}
