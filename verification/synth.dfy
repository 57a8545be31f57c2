/** The synthesizer context (synth_ctx_t) with the parts of src/core.c that
    act on it: the channel areas and sample buffer synth_ctx_create sets up
    (src/core.c:297-306), and one period of write_loop: pack the period
    into the buffer (generate_sine) and hand it to the device. */
module Synth {
  import opened Device
  import opened Packing
  import opened Layout
  import opened Transfer

  /** What one period of write_loop comes to: the packer refused the areas
      (it prints a message and exits), or the period was packed and its
      transfer ended with `outcome`, cursor `ptr` and `cptr` frames unsent. */
  datatype PeriodRun = Aborted | Ran(outcome: Outcome, ptr: int, cptr: int)

  class SynthCtx {
    const channels: nat
    /** Negotiated with the device; given here. */
    const periodSize: nat
    const bufferSize: nat
    const format: Format
    const pcm: Pcm
    /** One area per channel, all over `samples`. */
    const areas: array<ChannelArea>
    /** The interleaved sample buffer of one period. */
    const samples: array<bv8>

    ghost predicate Valid()
      reads this, areas
    {
      ValidFormat(format) && areas as object != samples &&
      IsLayout(areas[..], channels, format) &&
      samples.Length == BufferBytes(periodSize, channels, format) &&
      SlotsFit(areas[..], format, 0, periodSize, samples.Length) &&
      Disjoint(areas[..], format, 0, periodSize)
    }

    /** synth_ctx_create from the allocation of the areas on: one area per
        channel, channel chn starting chn containers in and stepping one
        frame of `channels` containers. */
    constructor(pcm: Pcm, channels: nat, periodSize: nat, bufferSize: nat, f: Format)
      requires ValidFormat(f)
      ensures Valid()
      ensures this.pcm == pcm && this.channels == channels && this.periodSize == periodSize &&
              this.bufferSize == bufferSize && format == f
      ensures fresh(areas) && fresh(samples)
    {
      this.pcm := pcm;
      this.channels := channels;
      this.periodSize := periodSize;
      this.bufferSize := bufferSize;
      format := f;
      var a := new ChannelArea[channels](_ => ChannelArea(0, 0));
      areas := a;
      samples := new bv8[(periodSize * channels * f.physWidth) / 8];
      new;
      var chn := 0;
      while chn < channels
        invariant chn <= channels
        invariant forall c :: 0 <= c < chn ==> a[c] == AreaOf(c, channels, f)
      {
        a[chn] := ChannelArea(chn * f.physWidth, channels * f.physWidth);
        chn := chn + 1;
      }
      assert IsLayout(areas[..], channels, f);
      LayoutFits(areas[..], channels, periodSize, f);
      LayoutDisjoint(areas[..], channels, f, 0, periodSize);
    }

    /** generate_sine(areas, 0, period_size, ...) with frame j's sample
        `frames[j]`: packs the period when the areas pass the packer's check,
        which the layout does exactly when a frame is a whole number of
        16-bit units. */
    method GeneratePeriod(frames: seq<bv32>) returns (ok: bool)
      requires Valid() && periodSize <= |frames|
      modifies samples
      ensures unchanged(areas)
      ensures ok <==> channels == 0 || (channels * PhysBytes(format)) % 2 == 0
      ensures !ok ==> samples[..] == old(samples[..])
      ensures ok ==> samples[..] == Fill(old(samples[..]), areas[..], 0, periodSize, frames, format)
    {
      LayoutAccepted(areas[..], channels, format);
      var cursors;
      ok, cursors := PackPeriod(samples, areas[..], 0, periodSize, frames, format);
    }

    /** One pass of write_loop's `while (1)`: pack the period, then transfer
        it, starting at the start of the buffer. */
    method RunPeriod(frames: seq<bv32>) returns (run: PeriodRun)
      requires Valid() && periodSize <= |frames|
      modifies samples, pcm
      ensures run.Ran? <==> channels == 0 || (channels * PhysBytes(format)) % 2 == 0
      ensures var ok := channels == 0 || (channels * PhysBytes(format)) % 2 == 0;
        (!ok ==> run == Aborted && samples[..] == old(samples[..]) && pcm.log == old(pcm.log) && pcm.replies == old(pcm.replies)) &&
        (ok ==> samples[..] == Fill(old(samples[..]), areas[..], 0, periodSize, frames, format))
      ensures run.Ran? ==>
        var P := TransferPeriodSpec(periodSize, channels, old(pcm.replies));
        run == Ran(P.outcome, P.ptr, P.cptr) && pcm.log == old(pcm.log) + P.calls && pcm.replies == P.rest
    {
      var ok := GeneratePeriod(frames);
      if !ok {
        return Aborted;
      }
      var outcome, ptr, cptr := TransferPeriod(pcm, periodSize, channels);
      run := Ran(outcome, ptr, cptr);
    }
  }

  /** After the period is packed into the layout, every channel's container
      of every frame reads back as that frame's sample modulo 2^(8 * bps),
      for signed formats and for unsigned formats of whole-byte width. */
  lemma PackedLayoutReadsBack(s: seq<bv8>, areas: seq<ChannelArea>, channels: nat, periodSize: nat, frames: seq<bv32>, f: Format, c: nat, j: nat)
    requires ValidFormat(f) && (f.width % 8 == 0 || !f.unsigned) && periodSize <= |frames| && |s| == BufferBytes(periodSize, channels, f)
    requires IsLayout(areas, channels, f) && c < channels && j < periodSize
    ensures SlotsFit(areas, f, 0, periodSize, |s|) && Bytes(f) <= 4
    ensures Slot(areas[c], 0, j) == (j * channels + c) * PhysBytes(f) && Slot(areas[c], 0, j) + PhysBytes(f) <= |s|
    ensures ReadsBackAs(Fill(s, areas, 0, periodSize, frames, f), Slot(areas[c], 0, j), f, frames[j])
  {
    LayoutFits(areas, channels, periodSize, f);
    LayoutDisjoint(areas, channels, f, 0, periodSize);
    LayoutSlot(c, channels, f, 0, j);
    PackedSampleReadsBack(s, areas, 0, periodSize, frames, f, c, j);
  }

  /** write_loop moves its cursor in 16-bit units (a `signed short *`), while
      the frame after m accepted frames starts m * channels containers into
      the buffer: the two agree exactly when a container is two bytes, as
      for the S16 format the program uses. */
  lemma CursorMatchesFrame(m: nat, channels: nat, f: Format)
    requires ValidFormat(f) && m > 0 && channels > 0
    ensures 2 * (m * channels) == Slot(AreaOf(0, channels, f), 0, m) <==> PhysBytes(f) == 2
  {
    LayoutSlot(0, channels, f, 0, m);
    assert Slot(AreaOf(0, channels, f), 0, m) == (m * channels) * PhysBytes(f);
    var x := m * channels;
    assert x > 0;
    if PhysBytes(f) < 2 {
      assert x * PhysBytes(f) < 2 * x;
    } else if PhysBytes(f) > 2 {
      assert x * PhysBytes(f) > 2 * x;
    }
  }
}
