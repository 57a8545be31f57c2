/** Byte-exact packing of one period of samples into the channel areas of the
    sample buffer (generate_sine in src/core.c, with the sine left out: the
    integer sample of each frame is an input). */
module Packing {

  /** The sample format as the packer sees it: significant bits
      (snd_pcm_format_width), container bits (snd_pcm_format_physical_width),
      byte order and signedness. */
  datatype Format = Format(width: nat, physWidth: nat, bigEndian: bool, unsigned: bool)

  /** The format the program is built with: SND_PCM_FORMAT_S16 on a little-endian host. */
  const S16_LE := Format(16, 16, false, false)

  /** Formats whose samples fit the 32-bit `int res` of the packer. */
  predicate ValidFormat(f: Format) {
    1 <= f.width <= 32 && f.width <= f.physWidth && f.physWidth % 8 == 0
  }

  /** bps: bytes written per sample (the width divided by 8, rounded down). */
  function Bytes(f: Format): (n: nat) { f.width / 8 }

  /** phys_bps: bytes in one sample container. */
  function PhysBytes(f: Format): (n: nat) { f.physWidth / 8 }

  lemma BytesFitContainer(f: Format)
    requires ValidFormat(f)
    ensures Bytes(f) <= PhysBytes(f) && Bytes(f) <= 4
  {
    assert f.physWidth == 8 * PhysBytes(f);
  }

  /** One channel area: bit offset of the channel's first sample and bit
      distance between its successive samples, both from the start of the
      shared sample buffer. */
  datatype ChannelArea = ChannelArea(first: nat, step: nat)

  /** The check the packer makes on each area before it writes anything. */
  predicate AreaAccepted(a: ChannelArea) {
    a.first % 8 == 0 && a.step % 16 == 0
  }

  predicate AreasAccepted(areas: seq<ChannelArea>) {
    forall c :: 0 <= c < |areas| ==> AreaAccepted(areas[c])
  }

  /** Byte position of the container of frame `offset + j` of an area. */
  function Slot(a: ChannelArea, offset: nat, j: nat): (pos: nat) {
    a.first / 8 + (offset + j) * (a.step / 8)
  }

  /** The container of frame `offset + j` of area `a` lies in a buffer of `len` bytes. */
  predicate Fits(a: ChannelArea, f: Format, offset: nat, j: nat, len: nat) {
    Slot(a, offset, j) + PhysBytes(f) <= len
  }

  /** The containers of frames offset .. offset + n - 1 of every area lie in a buffer of `len` bytes. */
  predicate SlotsFit(areas: seq<ChannelArea>, f: Format, offset: nat, n: nat, len: nat) {
    forall c, j :: 0 <= c < |areas| && 0 <= j < n ==> Fits(areas[c], f, offset, j, len)
  }

  /** The container of frame `offset + j1` of `a1` and that of frame `offset + j2` of `a2` do not overlap. */
  predicate Apart(a1: ChannelArea, j1: nat, a2: ChannelArea, j2: nat, f: Format, offset: nat) {
    Slot(a1, offset, j1) + PhysBytes(f) <= Slot(a2, offset, j2) ||
    Slot(a2, offset, j2) + PhysBytes(f) <= Slot(a1, offset, j1)
  }

  /** No two (channel, frame) containers of the period overlap. */
  predicate Disjoint(areas: seq<ChannelArea>, f: Format, offset: nat, n: nat) {
    forall c1, j1, c2, j2 ::
      0 <= c1 < |areas| && 0 <= j1 < n && 0 <= c2 < |areas| && 0 <= j2 < n && (c1 != c2 || j1 != j2) ==>
        Apart(areas[c1], j1, areas[c2], j2, f, offset)
  }

  /** Bit `b` of a 32-bit word. */
  predicate Bit(x: bv32, b: bv32)
    requires b < 32
  {
    (x >> b) & 1 == 1
  }

  /** format_bits - 1, the position of the sign bit, counted up as a bit-vector. */
  function SignPos(width: nat): (p: bv32)
    requires 1 <= width <= 32
  {
    if width == 1 then 0 else SignPos(width - 1) + 1
  }

  /** 1U << (format_bits - 1), built by doubling. */
  function SignBit(width: nat): (b: bv32)
    requires 1 <= width <= 32
  {
    if width == 1 then 1 else SignBit(width - 1) << 1
  }

  lemma IncValue(a: bv32)
    requires a as int < 31
    ensures (a + 1) as int == a as int + 1
  {
  }

  /** SignPos(width) is the number width - 1. */
  lemma {:induction false} SignPosValue(width: nat)
    requires 1 <= width <= 32
    ensures SignPos(width) as int == width - 1
  {
    if width > 1 {
      SignPosValue(width - 1);
      IncValue(SignPos(width - 1));
    }
  }

  lemma ShiftStep(a: bv32)
    requires a < 31
    ensures ((1 as bv32) << a) << 1 == (1 as bv32) << (a + 1)
  {
  }

  /** SignBit(width) is the single bit at SignPos(width). */
  lemma {:induction false} SignBitAt(width: nat)
    requires 1 <= width <= 32
    ensures SignPos(width) < 32 && SignBit(width) == 1 << SignPos(width)
  {
    SignPosValue(width);
    if width > 1 {
      SignBitAt(width - 1);
      SignPosValue(width - 1);
      ShiftStep(SignPos(width - 1));
    }
  }

  /** The sample as it is stored: for an unsigned format the top bit of the
      format's width is flipped (two's complement to offset binary). */
  function ToDevice(res: bv32, f: Format): (v: bv32)
    requires ValidFormat(f)
  {
    if f.unsigned then res ^ SignBit(f.width) else res
  }

  /** Bit b of the stored sample differs from bit b of the computed sample
      exactly when the format is unsigned and b is bit format_bits - 1. */
  lemma ToDeviceFlipsOnlySignBit(res: bv32, f: Format, b: bv32)
    requires ValidFormat(f) && b < 32
    ensures Bit(ToDevice(res, f), b) != Bit(res, b) <==> f.unsigned && b == SignPos(f.width)
  {
    if f.unsigned {
      UnsignedFlipsSignBit(res, f, b);
    } else {
      SignedKeepsBits(res, f, b);
    }
  }

  lemma SignedKeepsBits(res: bv32, f: Format, b: bv32)
    requires ValidFormat(f) && !f.unsigned && b < 32
    ensures Bit(ToDevice(res, f), b) == Bit(res, b)
  {
  }

  lemma UnsignedFlipsSignBit(res: bv32, f: Format, b: bv32)
    requires ValidFormat(f) && f.unsigned && b < 32
    ensures Bit(ToDevice(res, f), b) != Bit(res, b) <==> b == SignPos(f.width)
  {
    var p := SignPos(f.width);
    SignBitAt(f.width);
    assert ToDevice(res, f) == res ^ (1 << p);
    FlipOnlyBit(res, p, b);
  }

  /** Flipping bit p changes bit p and no other. */
  lemma FlipOnlyBit(res: bv32, p: bv32, b: bv32)
    requires p < 32 && b < 32
    ensures Bit(res ^ (1 << p), b) != Bit(res, b) <==> b == p
  {
  }

  /** Applying the conversion twice gives the sample back. */
  lemma ToDeviceInvolution(res: bv32, f: Format)
    requires ValidFormat(f)
    ensures ToDevice(ToDevice(res, f), f) == res
  {
  }

  /** The shift i * 8 that selects byte i of a 32-bit sample. */
  function ByteShift(i: nat): (sh: bv5)
    requires i < 4
  {
    if i == 0 then 0 else if i == 1 then 8 else if i == 2 then 16 else 24
  }

  /** Byte `i` of a sample, least significant first: (res >> i * 8) & 0xff. */
  function ByteOf(v: bv32, i: nat): (b: bv8)
    requires i < 4
  {
    ((v >> ByteShift(i)) & 0xff) as bv8
  }

  /** Where byte `i` of a sample whose container starts at `pos` goes. */
  function Dest(pos: int, i: nat, f: Format): (d: int) {
    if f.bigEndian then pos + PhysBytes(f) - 1 - i else pos + i
  }

  /** Position k is one of those written when the first `n` bytes of a
      sample go to the container at `pos`: the n lowest positions of the
      container for little-endian, the n highest for big-endian. */
  predicate Writes(pos: int, f: Format, n: nat, k: int) {
    if f.bigEndian then pos + PhysBytes(f) - n <= k < pos + PhysBytes(f) else pos <= k < pos + n
  }

  /** The buffer after the first `n` bytes of `v` are stored in the container at `pos`. */
  function WriteBytes(s: seq<bv8>, pos: nat, v: bv32, f: Format, n: nat): (r: seq<bv8>)
    requires ValidFormat(f) && n <= Bytes(f) && pos + PhysBytes(f) <= |s|
    ensures |r| == |s|
    decreases n
  {
    BytesFitContainer(f);
    if n == 0 then s
    else WriteBytes(s, pos, v, f, n - 1)[Dest(pos, n - 1, f) := ByteOf(v, n - 1)]
  }

  /** The buffer after frame `offset + j`, holding `v`, is stored in channels 0 .. c - 1, in that order. */
  function WriteFrame(s: seq<bv8>, areas: seq<ChannelArea>, offset: nat, j: nat, v: bv32, f: Format, c: nat): (r: seq<bv8>)
    requires ValidFormat(f) && c <= |areas| && SlotsFit(areas, f, offset, j + 1, |s|)
    ensures |r| == |s|
    decreases c
  {
    if c == 0 then s
    else
      var s' := WriteFrame(s, areas, offset, j, v, f, c - 1);
      assert Fits(areas[c - 1], f, offset, j, |s|);
      WriteBytes(s', Slot(areas[c - 1], offset, j), v, f, Bytes(f))
  }

  /** The buffer after the first `n` frames of the period are stored, frame `j` holding `frames[j]`. */
  function Fill(s: seq<bv8>, areas: seq<ChannelArea>, offset: nat, n: nat, frames: seq<bv32>, f: Format): (r: seq<bv8>)
    requires ValidFormat(f) && n <= |frames| && SlotsFit(areas, f, offset, n, |s|)
    ensures |r| == |s|
    decreases n
  {
    if n == 0 then s
    else
      var s' := Fill(s, areas, offset, n - 1, frames, f);
      WriteFrame(s', areas, offset, n - 1, ToDevice(frames[n - 1], f), f, |areas|)
  }

  /** Which byte of the sample position k of the container at `pos` holds (the inverse of Dest). */
  function ByteIndex(pos: int, f: Format, k: int): (idx: int) {
    if f.bigEndian then pos + PhysBytes(f) - 1 - k else k - pos
  }

  /** Byte `i` of a sample lands inside its container, at a position that is
      written and whose byte index is i. */
  lemma DestInContainer(pos: int, i: nat, f: Format)
    requires ValidFormat(f) && i < Bytes(f)
    ensures pos <= Dest(pos, i, f) < pos + PhysBytes(f)
    ensures Writes(pos, f, Bytes(f), Dest(pos, i, f)) && ByteIndex(pos, f, Dest(pos, i, f)) == i
  {
    BytesFitContainer(f);
  }

  /** Every written position lies inside the container. */
  lemma WritesInContainer(pos: int, f: Format, k: int)
    requires ValidFormat(f) && Writes(pos, f, Bytes(f), k)
    ensures pos <= k < pos + PhysBytes(f)
  {
    BytesFitContainer(f);
  }

  /** After the first `n` bytes of `v` are stored at `pos`, a written
      position holds the byte of `v` that Dest sends there and every other
      position is as it was. */
  lemma {:induction false} WriteBytesAt(s: seq<bv8>, pos: nat, v: bv32, f: Format, n: nat, k: int)
    requires ValidFormat(f) && n <= Bytes(f) && pos + PhysBytes(f) <= |s| && 0 <= k < |s|
    ensures Writes(pos, f, n, k) ==> 0 <= ByteIndex(pos, f, k) < n
    ensures WriteBytes(s, pos, v, f, n)[k] ==
              if Writes(pos, f, n, k) then ByteOf(v, ByteIndex(pos, f, k)) else s[k]
  {
    BytesFitContainer(f);
    if n > 0 {
      WriteBytesAt(s, pos, v, f, n - 1, k);
      var d := Dest(pos, n - 1, f);
      if k == d {
        DestInContainer(pos, n - 1, f);
        assert Writes(pos, f, n, k) && ByteIndex(pos, f, k) == n - 1;
        assert WriteBytes(s, pos, v, f, n)[k] == ByteOf(v, n - 1);
      } else {
        assert Writes(pos, f, n, k) == Writes(pos, f, n - 1, k);
        assert WriteBytes(s, pos, v, f, n)[k] == WriteBytes(s, pos, v, f, n - 1)[k];
      }
    }
  }

  /** A byte of container (c, j) is never written by another container of the period. */
  lemma OthersDoNotWrite(areas: seq<ChannelArea>, f: Format, offset: nat, n: nat, c: nat, j: nat, i: nat, c2: nat, j2: nat)
    requires ValidFormat(f) && Disjoint(areas, f, offset, n)
    requires c < |areas| && j < n && c2 < |areas| && j2 < n && (c != c2 || j != j2) && i < Bytes(f)
    ensures !Writes(Slot(areas[c2], offset, j2), f, Bytes(f), Dest(Slot(areas[c], offset, j), i, f))
  {
    var k := Dest(Slot(areas[c], offset, j), i, f);
    DestInContainer(Slot(areas[c], offset, j), i, f);
    assert Apart(areas[c], j, areas[c2], j2, f, offset);
    if Writes(Slot(areas[c2], offset, j2), f, Bytes(f), k) {
      WritesInContainer(Slot(areas[c2], offset, j2), f, k);
      assert false;
    }
  }

  /** Channels 0 .. k - 1 of one frame change nothing outside their written bytes. */
  lemma {:induction false} FrameOutside(s: seq<bv8>, areas: seq<ChannelArea>, offset: nat, j: nat, v: bv32, f: Format, k: nat, idx: int)
    requires ValidFormat(f) && k <= |areas| && SlotsFit(areas, f, offset, j + 1, |s|) && 0 <= idx < |s|
    requires forall c :: 0 <= c < k ==> !Writes(Slot(areas[c], offset, j), f, Bytes(f), idx)
    ensures WriteFrame(s, areas, offset, j, v, f, k)[idx] == s[idx]
  {
    if k > 0 {
      FrameOutside(s, areas, offset, j, v, f, k - 1, idx);
      var s' := WriteFrame(s, areas, offset, j, v, f, k - 1);
      assert Fits(areas[k - 1], f, offset, j, |s|);
      WriteBytesAt(s', Slot(areas[k - 1], offset, j), v, f, Bytes(f), idx);
    }
  }

  lemma DisjointPrefix(areas: seq<ChannelArea>, f: Format, offset: nat, n: nat, m: nat)
    requires Disjoint(areas, f, offset, n) && m <= n
    ensures Disjoint(areas, f, offset, m)
  {
  }

  lemma SlotsFitPrefix(areas: seq<ChannelArea>, f: Format, offset: nat, n: nat, m: nat, len: nat)
    requires SlotsFit(areas, f, offset, n, len) && m <= n
    ensures SlotsFit(areas, f, offset, m, len)
  {
  }

  /** Within one frame, channel c < k ends up holding byte i of `v` at Dest(slot, i). */
  lemma {:induction false} FrameAt(s: seq<bv8>, areas: seq<ChannelArea>, offset: nat, n: nat, j: nat, v: bv32, f: Format, k: nat, c: nat, i: nat)
    requires ValidFormat(f) && k <= |areas| && j < n && SlotsFit(areas, f, offset, n, |s|)
    requires Disjoint(areas, f, offset, n) && c < k && i < Bytes(f)
    ensures SlotsFit(areas, f, offset, j + 1, |s|) && 0 <= Dest(Slot(areas[c], offset, j), i, f) < |s|
    ensures WriteFrame(s, areas, offset, j, v, f, k)[Dest(Slot(areas[c], offset, j), i, f)] == ByteOf(v, i)
  {
    SlotsFitPrefix(areas, f, offset, n, j + 1, |s|);
    var s' := WriteFrame(s, areas, offset, j, v, f, k - 1);
    var idx := Dest(Slot(areas[c], offset, j), i, f);
    assert Fits(areas[c], f, offset, j, |s|);
    assert Fits(areas[k - 1], f, offset, j, |s|);
    DestInContainer(Slot(areas[c], offset, j), i, f);
    WriteBytesAt(s', Slot(areas[k - 1], offset, j), v, f, Bytes(f), idx);
    if c < k - 1 {
      FrameAt(s, areas, offset, n, j, v, f, k - 1, c, i);
      OthersDoNotWrite(areas, f, offset, n, c, j, i, k - 1, j);
    }
  }

  /** Packing n frames changes no byte that no (channel, frame) sample writes. */
  lemma {:induction false} FillOutside(s: seq<bv8>, areas: seq<ChannelArea>, offset: nat, n: nat, frames: seq<bv32>, f: Format, idx: int)
    requires ValidFormat(f) && n <= |frames| && SlotsFit(areas, f, offset, n, |s|) && 0 <= idx < |s|
    requires forall c, j :: 0 <= c < |areas| && 0 <= j < n ==> !Writes(Slot(areas[c], offset, j), f, Bytes(f), idx)
    ensures Fill(s, areas, offset, n, frames, f)[idx] == s[idx]
  {
    if n > 0 {
      SlotsFitPrefix(areas, f, offset, n, n - 1, |s|);
      FillOutside(s, areas, offset, n - 1, frames, f, idx);
      var s' := Fill(s, areas, offset, n - 1, frames, f);
      FrameOutside(s', areas, offset, n - 1, ToDevice(frames[n - 1], f), f, |areas|, idx);
    }
  }

  /** Storing the last of n frames leaves the bytes of earlier frames alone. */
  lemma LastFrameKeeps(s: seq<bv8>, areas: seq<ChannelArea>, offset: nat, n: nat, frames: seq<bv32>, f: Format, c: nat, j: nat, i: nat)
    requires ValidFormat(f) && n <= |frames| && SlotsFit(areas, f, offset, n, |s|) && Disjoint(areas, f, offset, n)
    requires c < |areas| && j < n - 1 && i < Bytes(f)
    ensures SlotsFit(areas, f, offset, n - 1, |s|) && 0 <= Dest(Slot(areas[c], offset, j), i, f) < |s|
    ensures Fill(s, areas, offset, n, frames, f)[Dest(Slot(areas[c], offset, j), i, f)]
         == Fill(s, areas, offset, n - 1, frames, f)[Dest(Slot(areas[c], offset, j), i, f)]
  {
    SlotsFitPrefix(areas, f, offset, n, n - 1, |s|);
    var s' := Fill(s, areas, offset, n - 1, frames, f);
    var k := Dest(Slot(areas[c], offset, j), i, f);
    assert Fits(areas[c], f, offset, j, |s|);
    DestInContainer(Slot(areas[c], offset, j), i, f);
    forall c2 | 0 <= c2 < |areas|
      ensures !Writes(Slot(areas[c2], offset, n - 1), f, Bytes(f), k)
    {
      OthersDoNotWrite(areas, f, offset, n, c, j, i, c2, n - 1);
    }
    FrameOutside(s', areas, offset, n - 1, ToDevice(frames[n - 1], f), f, |areas|, k);
  }

  /** When no two containers overlap, after packing n frames byte i of
      every channel's container of frame j holds byte i of that frame's
      stored sample: the same bytes in every channel. */
  lemma {:induction false} FillAt(s: seq<bv8>, areas: seq<ChannelArea>, offset: nat, n: nat, frames: seq<bv32>, f: Format, c: nat, j: nat, i: nat)
    requires ValidFormat(f) && n <= |frames| && SlotsFit(areas, f, offset, n, |s|) && Disjoint(areas, f, offset, n)
    requires c < |areas| && j < n && i < Bytes(f)
    ensures 0 <= Dest(Slot(areas[c], offset, j), i, f) < |s|
    ensures Fill(s, areas, offset, n, frames, f)[Dest(Slot(areas[c], offset, j), i, f)] == ByteOf(ToDevice(frames[j], f), i)
  {
    SlotsFitPrefix(areas, f, offset, n, n - 1, |s|);
    assert Fits(areas[c], f, offset, j, |s|);
    DestInContainer(Slot(areas[c], offset, j), i, f);
    var s' := Fill(s, areas, offset, n - 1, frames, f);
    if j == n - 1 {
      FrameAt(s', areas, offset, n, j, ToDevice(frames[j], f), f, |areas|, c, i);
    } else {
      LastFrameKeeps(s, areas, offset, n, frames, f, c, j, i);
      DisjointPrefix(areas, f, offset, n, n - 1);
      FillAt(s, areas, offset, n - 1, frames, f, c, j, i);
    }
  }

  /** The low n bytes of a 32-bit word: reduction modulo 2^(8 * n). */
  function Mask(n: nat): (m: bv32)
    requires n <= 4
  {
    if n == 0 then 0 else if n == 1 then 0xff else if n == 2 then 0xffff else if n == 3 then 0xff_ffff else 0xffff_ffff
  }

  /** A byte moved back to position i of a 32-bit word. */
  function Place(b: bv8, i: nat): (w: bv32)
    requires i < 4
  {
    (b as bv32) << ByteShift(i)
  }

  /** Reassembles bytes given least significant first into a word. */
  function Assemble(b: seq<bv8>): (w: bv32)
    requires |b| <= 4
  {
    if b == [] then 0 else Assemble(b[..|b| - 1]) | Place(b[|b| - 1], |b| - 1)
  }

  /** Adding byte n - 1 of v to the low n - 1 bytes of v gives its low n bytes. */
  predicate AddsNextByte(v: bv32, n: nat)
    requires 1 <= n <= 4
  {
    (v & Mask(n - 1)) | Place(ByteOf(v, n - 1), n - 1) == v & Mask(n)
  }

  // One lemma per byte count, each pinning `n` to a constant, so that the
  // bit-vector reasoning for each count is done on its own.
  lemma AddsByte0(v: bv32, n: nat) requires n == 1 ensures AddsNextByte(v, n) {}
  lemma AddsByte1(v: bv32, n: nat) requires n == 2 ensures AddsNextByte(v, n) {}
  lemma AddsByte2(v: bv32, n: nat) requires n == 3 ensures AddsNextByte(v, n) {}
  lemma AddsByte3(v: bv32, n: nat) requires n == 4 ensures AddsNextByte(v, n) {}

  lemma MaskStep(v: bv32, n: nat)
    requires 1 <= n <= 4
    ensures AddsNextByte(v, n)
  {
    if n == 1 { AddsByte0(v, n); }
    else if n == 2 { AddsByte1(v, n); }
    else if n == 3 { AddsByte2(v, n); }
    else { AddsByte3(v, n); }
  }

  /** Reassembling bytes 0 .. n - 1 of v, taken least significant first,
      gives v modulo 2^(8 * n). */
  lemma {:induction false} AssembleLowBytes(b: seq<bv8>, v: bv32)
    requires |b| <= 4 && forall i :: 0 <= i < |b| ==> b[i] == ByteOf(v, i)
    ensures Assemble(b) == v & Mask(|b|)
  {
    if b != [] {
      AssembleLowBytes(b[..|b| - 1], v);
      MaskStep(v, |b|);
    }
  }

  /** The first n bytes of the sample in the container at `pos`, read back
      in significance order (through Dest, so in the format's byte order). */
  function Gather(s: seq<bv8>, pos: nat, f: Format, n: nat): (r: seq<bv8>)
    requires ValidFormat(f) && n <= Bytes(f) && pos + PhysBytes(f) <= |s|
    ensures |r| == n
    ensures forall i :: 0 <= i < n ==> 0 <= Dest(pos, i, f) < |s| && r[i] == s[Dest(pos, i, f)]
  {
    BytesFitContainer(f);
    if n == 0 then [] else Gather(s, pos, f, n - 1) + [s[Dest(pos, n - 1, f)]]
  }

  /** What a reader of the buffer gets back from the container at `pos`:
      the sample's bytes in the format's order, reassembled, with the
      unsigned flip undone. */
  function Unpack(s: seq<bv8>, pos: nat, f: Format): (x: bv32)
    requires ValidFormat(f) && pos + PhysBytes(f) <= |s|
  {
    BytesFitContainer(f);
    ToDevice(Assemble(Gather(s, pos, f, Bytes(f))), f)
  }

  // The sign bit of each whole-byte width as a literal, one lemma per
  // width, each pinning `w` to a constant, so that the bit-vector reasoning
  // for each width is done on its own.
  lemma SignBit8(w: nat)
    requires w == 8
    ensures SignBit(w) == 0x80
  {
    SignBitAt(w);
    SignPosValue(w);
  }

  lemma SignBit16(w: nat)
    requires w == 16
    ensures SignBit(w) == 0x8000
  {
    SignBitAt(w);
    SignPosValue(w);
  }

  lemma SignBit24(w: nat)
    requires w == 24
    ensures SignBit(w) == 0x80_0000
  {
    SignBitAt(w);
    SignPosValue(w);
  }

  lemma SignBit32(w: nat)
    requires w == 32
    ensures SignBit(w) == 0x8000_0000
  {
    SignBitAt(w);
    SignPosValue(w);
  }

  /** Signed formats store the sample unchanged. For unsigned formats whose
      width is a whole number of bytes the flipped bit is among the stored
      bytes, so undoing the flip on the stored bytes recovers them. */
  lemma UnflipStored(x: bv32, f: Format)
    requires ValidFormat(f) && (f.width % 8 == 0 || !f.unsigned)
    ensures Bytes(f) <= 4 && ToDevice(ToDevice(x, f) & Mask(Bytes(f)), f) == x & Mask(Bytes(f))
  {
    BytesFitContainer(f);
    if f.unsigned {
      UnflipUnsigned(x, f);
    } else {
      UnflipSigned(x, f);
    }
  }

  lemma UnflipSigned(x: bv32, f: Format)
    requires ValidFormat(f) && !f.unsigned && Bytes(f) <= 4
    ensures ToDevice(ToDevice(x, f) & Mask(Bytes(f)), f) == x & Mask(Bytes(f))
  {
  }

  lemma UnflipUnsigned(x: bv32, f: Format)
    requires ValidFormat(f) && f.unsigned && f.width % 8 == 0 && Bytes(f) <= 4
    ensures ToDevice(ToDevice(x, f) & Mask(Bytes(f)), f) == x & Mask(Bytes(f))
  {
    if f.width == 8 {
      SignBit8(f.width);
      UnflipWith(x, f, 0x80, 0xff);
    } else if f.width == 16 {
      SignBit16(f.width);
      UnflipWith(x, f, 0x8000, 0xffff);
    } else if f.width == 24 {
      SignBit24(f.width);
      UnflipWith(x, f, 0x80_0000, 0xff_ffff);
    } else {
      assert f.width == 32;
      SignBit32(f.width);
      UnflipWith(x, f, 0x8000_0000, 0xffff_ffff);
    }
  }

  /** Flipping bit(s) `s`, keeping the bits of `m` and flipping again gives
      the bits of `m`, when `s` lies inside `m`. */
  lemma UnflipBits(x: bv32, s: bv32, m: bv32)
    requires s & m == s
    ensures ((x ^ s) & m) ^ s == x & m
  {
  }

  /** The flip undone on the stored bytes, for a sign bit `s` that lies
      inside the mask `m` of the stored bytes. */
  lemma UnflipWith(x: bv32, f: Format, s: bv32, m: bv32)
    requires ValidFormat(f) && f.unsigned && Bytes(f) <= 4
    requires s == SignBit(f.width) && m == Mask(Bytes(f)) && s & m == s
    ensures ToDevice(ToDevice(x, f) & Mask(Bytes(f)), f) == x & Mask(Bytes(f))
  {
    UnflipBits(x, s, m);
  }

  /** The bytes read back from container (c, j) after packing reassemble
      into the stored sample modulo 2^(8 * bps). */
  lemma GatherAfterFill(s: seq<bv8>, areas: seq<ChannelArea>, offset: nat, n: nat, frames: seq<bv32>, f: Format, c: nat, j: nat)
    requires ValidFormat(f) && n <= |frames|
    requires SlotsFit(areas, f, offset, n, |s|) && Disjoint(areas, f, offset, n) && c < |areas| && j < n
    ensures Slot(areas[c], offset, j) + PhysBytes(f) <= |s| && Bytes(f) <= 4
    ensures Assemble(Gather(Fill(s, areas, offset, n, frames, f), Slot(areas[c], offset, j), f, Bytes(f)))
         == ToDevice(frames[j], f) & Mask(Bytes(f))
  {
    BytesFitContainer(f);
    assert Fits(areas[c], f, offset, j, |s|);
    var r := Fill(s, areas, offset, n, frames, f);
    var g := Gather(r, Slot(areas[c], offset, j), f, Bytes(f));
    var v := ToDevice(frames[j], f);
    forall i | 0 <= i < Bytes(f)
      ensures g[i] == ByteOf(v, i)
    {
      FillAt(s, areas, offset, n, frames, f, c, j, i);
    }
    AssembleLowBytes(g, v);
  }

  /** The container at `pos` reads back as x modulo 2^(8 * bps). */
  predicate ReadsBackAs(s: seq<bv8>, pos: nat, f: Format, x: bv32)
    requires ValidFormat(f) && pos + PhysBytes(f) <= |s| && Bytes(f) <= 4
  {
    Unpack(s, pos, f) == x & Mask(Bytes(f))
  }

  /** A container whose bytes reassemble into the stored form of x reads back as x. */
  lemma ReadBack(s: seq<bv8>, pos: nat, f: Format, x: bv32)
    requires ValidFormat(f) && (f.width % 8 == 0 || !f.unsigned) && pos + PhysBytes(f) <= |s| && Bytes(f) <= 4
    requires Assemble(Gather(s, pos, f, Bytes(f))) == ToDevice(x, f) & Mask(Bytes(f))
    ensures ReadsBackAs(s, pos, f, x)
  {
    UnflipStored(x, f);
  }

  /** Round trip: reading back any channel's container of frame j after the
      period is packed gives frames[j] modulo 2^(8 * bps), for either byte
      order and signedness. For an unsigned format the width must be a whole
      number of bytes: otherwise the flipped bit lies above the bps stored
      bytes, and the reader's flip lands on a bit that was never stored. */
  lemma PackedSampleReadsBack(s: seq<bv8>, areas: seq<ChannelArea>, offset: nat, n: nat, frames: seq<bv32>, f: Format, c: nat, j: nat)
    requires ValidFormat(f) && (f.width % 8 == 0 || !f.unsigned) && n <= |frames|
    requires SlotsFit(areas, f, offset, n, |s|) && Disjoint(areas, f, offset, n) && c < |areas| && j < n
    ensures Slot(areas[c], offset, j) + PhysBytes(f) <= |s| && Bytes(f) <= 4
    ensures ReadsBackAs(Fill(s, areas, offset, n, frames, f), Slot(areas[c], offset, j), f, frames[j])
  {
    GatherAfterFill(s, areas, offset, n, frames, f, c, j);
    ReadBack(Fill(s, areas, offset, n, frames, f), Slot(areas[c], offset, j), f, frames[j]);
  }

  /** Two formats with the same container size have the same containers. */
  lemma SameContainers(areas: seq<ChannelArea>, f: Format, g: Format, offset: nat, n: nat, len: nat)
    requires PhysBytes(f) == PhysBytes(g)
    ensures SlotsFit(areas, f, offset, n, len) ==> SlotsFit(areas, g, offset, n, len)
    ensures Disjoint(areas, f, offset, n) ==> Disjoint(areas, g, offset, n)
  {
    if SlotsFit(areas, f, offset, n, len) {
      forall c, j | 0 <= c < |areas| && 0 <= j < n
        ensures Fits(areas[c], g, offset, j, len)
      {
        assert Fits(areas[c], f, offset, j, len);
      }
    }
    if Disjoint(areas, f, offset, n) {
      forall c1, j1, c2, j2 | 0 <= c1 < |areas| && 0 <= j1 < n && 0 <= c2 < |areas| && 0 <= j2 < n && (c1 != c2 || j1 != j2)
        ensures Apart(areas[c1], j1, areas[c2], j2, g, offset)
      {
        assert Apart(areas[c1], j1, areas[c2], j2, f, offset);
      }
    }
  }

  /** The stored sample does not depend on the byte order. */
  lemma SameSample(x: bv32, f: Format, g: Format)
    requires ValidFormat(f) && ValidFormat(g) && f.width == g.width && f.unsigned == g.unsigned
    ensures ToDevice(x, f) == ToDevice(x, g)
  {
  }

  /** FillAt for big-endian formats: byte i sits at container offset phys_bps - 1 - i. */
  lemma FillAtBigEndian(s: seq<bv8>, areas: seq<ChannelArea>, offset: nat, n: nat, frames: seq<bv32>, f: Format, c: nat, j: nat, i: nat)
    requires ValidFormat(f) && f.bigEndian && n <= |frames|
    requires SlotsFit(areas, f, offset, n, |s|) && Disjoint(areas, f, offset, n) && c < |areas| && j < n && i < Bytes(f)
    ensures Slot(areas[c], offset, j) + PhysBytes(f) <= |s| && i < PhysBytes(f)
    ensures Fill(s, areas, offset, n, frames, f)[Slot(areas[c], offset, j) + PhysBytes(f) - 1 - i] == ByteOf(ToDevice(frames[j], f), i)
  {
    BytesFitContainer(f);
    assert Fits(areas[c], f, offset, j, |s|);
    DestBigEndian(Slot(areas[c], offset, j), i, f);
    FillAt(s, areas, offset, n, frames, f, c, j, i);
  }

  lemma DestBigEndian(pos: int, i: nat, f: Format)
    requires f.bigEndian
    ensures Dest(pos, i, f) == pos + PhysBytes(f) - 1 - i
  {
  }

  /** FillAt for the little-endian twin of f: byte i sits at container offset i. */
  lemma FillAtLittleEndian(s: seq<bv8>, areas: seq<ChannelArea>, offset: nat, n: nat, frames: seq<bv32>, f: Format, c: nat, j: nat, i: nat)
    requires ValidFormat(f) && n <= |frames|
    requires SlotsFit(areas, f, offset, n, |s|) && Disjoint(areas, f, offset, n) && c < |areas| && j < n && i < Bytes(f)
    ensures SlotsFit(areas, f.(bigEndian := false), offset, n, |s|)
    ensures Slot(areas[c], offset, j) + PhysBytes(f) <= |s| && i < PhysBytes(f)
    ensures Fill(s, areas, offset, n, frames, f.(bigEndian := false))[Slot(areas[c], offset, j) + i] == ByteOf(ToDevice(frames[j], f), i)
  {
    BytesFitContainer(f);
    assert Fits(areas[c], f, offset, j, |s|);
    var g := f.(bigEndian := false);
    SameContainers(areas, f, g, offset, n, |s|);
    FillAt(s, areas, offset, n, frames, g, c, j, i);
    SameSample(frames[j], f, g);
  }

  /** Big-endian packing mirrors little-endian packing inside each
      container: byte i of the sample sits at container offset
      phys_bps - 1 - i instead of i. */
  lemma BigEndianMirrorsLittleEndian(s: seq<bv8>, areas: seq<ChannelArea>, offset: nat, n: nat, frames: seq<bv32>, f: Format, c: nat, j: nat, i: nat)
    requires ValidFormat(f) && f.bigEndian && n <= |frames|
    requires SlotsFit(areas, f, offset, n, |s|) && Disjoint(areas, f, offset, n) && c < |areas| && j < n && i < Bytes(f)
    ensures SlotsFit(areas, f.(bigEndian := false), offset, n, |s|)
    ensures Slot(areas[c], offset, j) + PhysBytes(f) <= |s| && i < PhysBytes(f)
    ensures Fill(s, areas, offset, n, frames, f)[Slot(areas[c], offset, j) + PhysBytes(f) - 1 - i]
         == Fill(s, areas, offset, n, frames, f.(bigEndian := false))[Slot(areas[c], offset, j) + i]
  {
    FillAtBigEndian(s, areas, offset, n, frames, f, c, j, i);
    FillAtLittleEndian(s, areas, offset, n, frames, f, c, j, i);
  }

  /** Frames written for a `count` argument: none when it is zero or negative. */
  function Frames(count: int): (n: nat) {
    if count > 0 then count else 0
  }

  /** Moving a channel pointer on by its step reaches the next frame's container. */
  lemma SlotNext(a: ChannelArea, offset: nat, j: nat)
    ensures Slot(a, offset, j + 1) == Slot(a, offset, j) + a.step / 8
  {
    assert (offset + j + 1) * (a.step / 8) == (offset + j) * (a.step / 8) + a.step / 8;
  }

  /** The inner loop of generate_sine for one channel: stores the low bps
      bytes of `v` in the container at `at`, least significant byte first
      for little-endian, mirrored into the container for big-endian. */
  method StoreSample(buf: array<bv8>, at: nat, v: bv32, f: Format)
    requires ValidFormat(f) && at + PhysBytes(f) <= buf.Length
    modifies buf
    ensures buf[..] == WriteBytes(old(buf[..]), at, v, f, Bytes(f))
  {
    if f.bigEndian {
      StoreBigEndian(buf, at, v, f);
    } else {
      StoreLittleEndian(buf, at, v, f);
    }
  }

  /** Big-endian branch: byte i goes to at + phys_bps - 1 - i. */
  method StoreBigEndian(buf: array<bv8>, at: nat, v: bv32, f: Format)
    requires ValidFormat(f) && f.bigEndian && at + PhysBytes(f) <= buf.Length
    modifies buf
    ensures buf[..] == WriteBytes(old(buf[..]), at, v, f, Bytes(f))
  {
    BytesFitContainer(f);
    var bps := Bytes(f);
    var physBps := PhysBytes(f);
    var i := 0;
    while i < bps
      invariant i <= bps && buf[..] == WriteBytes(old(buf[..]), at, v, f, i)
    {
      buf[at + physBps - 1 - i] := ByteOf(v, i);
      i := i + 1;
    }
  }

  /** Little-endian branch: byte i goes to at + i. */
  method StoreLittleEndian(buf: array<bv8>, at: nat, v: bv32, f: Format)
    requires ValidFormat(f) && !f.bigEndian && at + PhysBytes(f) <= buf.Length
    modifies buf
    ensures buf[..] == WriteBytes(old(buf[..]), at, v, f, Bytes(f))
  {
    BytesFitContainer(f);
    var bps := Bytes(f);
    var i := 0;
    while i < bps
      invariant i <= bps && buf[..] == WriteBytes(old(buf[..]), at, v, f, i)
    {
      buf[at + i] := ByteOf(v, i);
      i := i + 1;
    }
  }

  /** generate_sine from the area check on: validates every area, then stores
      `count` frames starting at frame `offset`, frame j holding `frames[j]`
      (after the unsigned flip), in every channel. `ok` is false where
      generate_sine prints a message and exits. `cursors` are the final byte
      positions of the per-channel pointers. */
  method PackPeriod(buf: array<bv8>, areas: seq<ChannelArea>, offset: nat, count: int, frames: seq<bv32>, f: Format)
    returns (ok: bool, cursors: seq<nat>)
    requires ValidFormat(f) && count <= |frames|
    requires AreasAccepted(areas) ==> SlotsFit(areas, f, offset, Frames(count), buf.Length)
    modifies buf
    ensures ok == AreasAccepted(areas)
    ensures !ok ==> buf[..] == old(buf[..]) && cursors == []
    ensures ok ==> buf[..] == Fill(old(buf[..]), areas, offset, Frames(count), frames, f)
    ensures ok ==> |cursors| == |areas| &&
                   forall c :: 0 <= c < |areas| ==> cursors[c] == Slot(areas[c], offset, Frames(count))
  {
    // verify and prepare the areas
    var samples: seq<nat> := [];
    var steps: seq<nat> := [];
    var chn := 0;
    while chn < |areas|
      invariant chn <= |areas| && |samples| == chn && |steps| == chn
      invariant forall c :: 0 <= c < chn ==>
        AreaAccepted(areas[c]) && steps[c] == areas[c].step / 8 && samples[c] == Slot(areas[c], offset, 0)
    {
      if areas[chn].first % 8 != 0 {
        return false, [];
      }
      var p := areas[chn].first / 8;
      if areas[chn].step % 16 != 0 {
        return false, [];
      }
      var st := areas[chn].step / 8;
      p := p + offset * st;
      samples := samples + [p];
      steps := steps + [st];
      chn := chn + 1;
    }
    ok := true;
    assert AreasAccepted(areas);
    // fill the channel areas
    ghost var s0 := buf[..];
    var left := count;
    var j: nat := 0;
    while left > 0
      invariant j == Frames(count) - Frames(left) && |samples| == |areas|
      invariant forall c :: 0 <= c < |areas| ==> steps[c] == areas[c].step / 8 && samples[c] == Slot(areas[c], offset, j)
      invariant buf[..] == Fill(s0, areas, offset, j, frames, f)
    {
      left := left - 1;
      var res := ToDevice(frames[j], f);
      ghost var s1 := buf[..];
      chn := 0;
      while chn < |areas|
        invariant chn <= |areas| && |samples| == |areas|
        invariant forall c :: 0 <= c < chn ==> samples[c] == Slot(areas[c], offset, j + 1)
        invariant forall c :: chn <= c < |areas| ==> samples[c] == Slot(areas[c], offset, j)
        invariant buf[..] == WriteFrame(s1, areas, offset, j, res, f, chn)
      {
        var at := samples[chn];
        assert Fits(areas[chn], f, offset, j, buf.Length);
        StoreSample(buf, at, res, f);
        SlotNext(areas[chn], offset, j);
        samples := samples[chn := at + steps[chn]];
        chn := chn + 1;
      }
      j := j + 1;
    }
    cursors := samples;
  }
}
