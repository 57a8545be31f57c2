# synth core in Dafny

A model of the integer and byte-level core of the ALSA sine synthesizer in
`src/core.c`. The model covers four parts:

- **Channel layout.** `synth_ctx_create` lays one period of interleaved
  frames over a single sample buffer and gives every channel an area: its
  first sample `chn * phys_width` bits in, and a step of one frame,
  `channels * phys_width` bits.
- **Period packer.** `generate_sine` checks every area (`first % 8`,
  `step % 16`). It turns the bit offsets into byte cursors. It then stores
  each frame's integer sample into every channel's container, in the
  format's byte order, with the sign bit flipped for unsigned formats.
- **Period transfer.** The inner loop of `write_loop` hands the packed
  period to `snd_pcm_writei`. It moves a cursor `ptr` and a remaining-frame
  count `cptr` on every accepted write, retries on `-EAGAIN`, and otherwise
  goes to recovery.
- **Recovery and start threshold.** `xrun_recovery` prepares after an
  under-run (`-EPIPE`), resumes after a suspend (`-ESTRPIPE`) and hands
  back any other error. `set_swparams` sets the start threshold and
  `avail_min`.

Modules, one per part of the program:

- `Packing` (packing.dfy)
  - Formats, channel areas and the sample conversion (`ToDevice`).
  - Specification functions for a store:
    - `WriteBytes`: one container.
    - `WriteFrame`: one frame across channels.
    - `Fill`: a whole period.
  - The imperative packer `PackPeriod` over an `array<bv8>`, proved equal
    to `Fill`.
  - Lemmas on what a packed buffer holds and how it reads back.
- `Layout` (layout.dfy): the areas `synth_ctx_create` builds, and the facts
  the packer needs about them.
- `Device` (device.dfy): the PCM handle.
  - ALSA is foreign code, so the handle is a class holding a script of the
    answers the device will give and a log of the calls made on it.
  - Once the script is used up, a call never returns.
- `Recovery` (recovery.dfy): `xrun_recovery` as a specification function
  over the script (`Recover`), and as a method on the handle proved equal
  to it.
- `Transfer` (transfer.dfy): one period's transfer as a specification
  function (`TransferFrom`), and as a method with the loop of `write_loop`
  proved equal to it.
- `SwParams` (swparams.dfy): the start threshold and `avail_min`.
- `Synth` (synth.dfy): the context class.
  - Its constructor fills the areas in a loop.
  - `GeneratePeriod` packs a period into its buffer.
  - `RunPeriod` is one pass of `write_loop`'s `while (1)`: pack, then
    transfer.

The program is built for `SND_PCM_FORMAT_S16`. The packer is modelled for
any format whose samples fit its 32-bit `int res`:

- width 1..32 bits;
- container a whole number of bytes, at least the width;
- either byte order;
- signed or unsigned.

## Model

| member | source | states |
|---|---|---|
| Packing.ToDeviceFlipsOnlySignBit | src/core.c:205 | bit b of the stored sample differs from bit b of `res` exactly when the format is unsigned and b is bit `format_bits - 1` |
| Packing.ToDeviceInvolution | src/core.c:205 | applying the unsigned conversion twice gives the sample back |
| Packing.StoreSample | src/core.c:206-213 | one channel's inner loop leaves the buffer equal to `WriteBytes` of the old buffer: the low bps bytes of the sample stored in the container |
| Packing.StoreBigEndian | src/core.c:208-210 | the big-endian loop stores byte i at `at + phys_bps - 1 - i`, as `WriteBytes` says |
| Packing.StoreLittleEndian | src/core.c:211-212 | the little-endian loop stores byte i at `at + i`, as `WriteBytes` says |
| Packing.WriteBytesAt | src/core.c:209-212 | after bytes 0..n-1 of a sample are stored, each written position holds the byte `(res >> 8*i) & 0xff` for its index i, and every other position is unchanged |
| Packing.SlotNext | src/core.c:214 | advancing a channel cursor by `step / 8` moves it from the container of frame `offset + j` to that of frame `offset + j + 1` |
| Packing.PackPeriod | src/core.c:178-218 | the area check fails (`generate_sine` exits) exactly when some `first % 8 != 0` or `step % 16 != 0`, and then no byte is written; otherwise the buffer becomes `Fill` of the old buffer, and each channel's final cursor is `first / 8 + (offset + count) * (step / 8)` |
| Packing.FillAt | src/core.c:194-215 | with non-overlapping containers, after a period is packed, byte i of every channel's container of frame j holds byte i of that frame's stored sample, the same bytes in every channel |
| Packing.FillOutside | src/core.c:206-215 | packing changes no byte outside the written part of the containers |
| Packing.GatherAfterFill | src/core.c:209-212 | for every format, the bytes read back from any channel's container of frame j, in the format's byte order, reassemble into the stored sample (after the unsigned flip) modulo 2^(8*bps) |
| Packing.PackedSampleReadsBack | src/core.c:205-215 | for signed formats of any width and unsigned formats of whole-byte width, reading any channel's container of frame j back (bytes in the format's order, flip undone) gives `frames[j]` modulo 2^(8*bps), for either byte order and signedness |
| Packing.BigEndianMirrorsLittleEndian | src/core.c:208-213 | big-endian packing puts at container offset `phys_bps - 1 - i` the byte little-endian packing of the same period puts at offset i |
| Packing.FillAtBigEndian | src/core.c:209-210 | after a big-endian period is packed, container offset `phys_bps - 1 - i` holds byte i of the stored sample |
| Packing.FillAtLittleEndian | src/core.c:211-212 | after the little-endian twin of the format is packed, container offset i holds byte i of the stored sample |
| Layout.LayoutSlot | src/core.c:301-306 | with the layout's areas, the container of frame `offset + j` of channel chn is container number `(offset + j) * channels + chn` of the buffer |
| Layout.BufferContainers | src/core.c:298-300 | the buffer of `period_size * channels * phys_width / 8` bytes holds `period_size * channels` containers |
| Layout.LayoutAccepted | src/core.c:179-192 | the packer accepts the layout exactly when there are no channels or `channels * phys_bps` is even (a mono 8-bit layout is refused) |
| Layout.S16LayoutAccepted | src/core.c:179-192 | with the program's own S16 format, the packer accepts the layout for every channel count, mono included, which is what `src/main.c` asks for |
| Layout.LayoutFits | src/core.c:297-306 | every container of the first period_size frames of every channel lies inside the buffer |
| Layout.LayoutDisjoint | src/core.c:301-306 | no two (channel, frame) containers of the layout overlap |
| Layout.LayoutApart | src/core.c:303-305 | two different (channel, frame) containers of the layout are at least one container apart |
| Recovery.ResumeWait | src/core.c:231-232 | the resume loop makes one call per `-EAGAIN` answer plus one; the answer it stops on is the first one that is not `-EAGAIN`, and it stops only there |
| Recovery.WaitResume | src/core.c:231-232 | the resume loop on the handle returns the answer, makes the calls and consumes the answers that `ResumeWait` gives |
| Recovery.RecoverReturns | src/core.c:224-241 | `xrun_recovery` returns 0 for `-EPIPE` and `-ESTRPIPE`, even when prepare or resume fail; any other code is returned unchanged, with no call on the device |
| Recovery.RecoverFailsOnlyOnOtherErrors | src/core.c:224-241 | recovery returns a negative value exactly for a negative code that is neither `-EPIPE` nor `-ESTRPIPE` |
| Recovery.RecoverPrepares | src/core.c:224-238 | prepare is called exactly for an under-run, or for a suspend whose final resume failed; in a suspend, the calls before it are all resumes |
| Recovery.RecoverConsumes | src/core.c:222-242 | recovery uses the device's answers in order, one per call that is answered |
| Recovery.XrunRecovery | src/core.c:222-242 | the method on the handle returns, logs and consumes exactly what `Recover` says |
| Transfer.TransferFrom | src/core.c:257-269 | with frames left, the first call is `writei(ptr, cptr)`; with none, no call is made |
| Transfer.TransferKeepsCursor | src/core.c:255-268 | the cursor stays at `(period_size - cptr) * channels`, at the end and at every `writei` call, and every `writei` asks for more than zero frames |
| Transfer.TransferOutcome | src/core.c:257-268 | a period completes exactly when no frame is left; it is skipped only after `-EPIPE` or `-ESTRPIPE`; the process exits only after another error other than `-EAGAIN`; it blocks only when the device stops answering |
| Transfer.AgainRetriesSameWrite | src/core.c:258-259 | after `-EAGAIN`, the next call is the same `writei(ptr, cptr)` again |
| Transfer.FailedWriteEndsPeriod | src/core.c:260-265 | a write that fails with an error other than `-EAGAIN` ends the period with `ptr` and `cptr` where they stood, after that write and recovery's calls; any error recovery does not handle makes the process exit with that error; `-EPIPE` or `-ESTRPIPE` skips the rest of the period, unless the device stops answering; an answered `-EPIPE` always skips |
| Transfer.AcceptedWriteAdvances | src/core.c:258-268 | after a write accepts err frames, the next write is from `ptr + err * channels` for `cptr - err` frames |
| Transfer.TransferPeriod | src/core.c:255-269 | the loop on the handle ends with the outcome, cursor and remaining count that `TransferFrom` gives from `ptr = 0` and `cptr = period_size`, and makes and consumes the same calls and answers |
| SwParams.StartThresholdBounds | src/core.c:127-128 | the start threshold is a multiple of period_size, between 0 and buffer_size, and more than `buffer_size - period_size` |
| SwParams.StartThresholdLargest | src/core.c:127-128 | every multiple of period_size that fits in the buffer is at most the start threshold |
| SwParams.AvailMinIsPeriod | src/core.c:137-138 | with period events off, as in the program, avail_min is period_size and at most the start threshold |
| Synth.SynthCtx.constructor | src/core.c:297-306 | after construction, area chn is `(chn * phys_width, channels * phys_width)` over the buffer, the buffer holds `period_size * channels * phys_width / 8` bytes, and the containers fit and do not overlap |
| Synth.SynthCtx.GeneratePeriod | src/core.c:179-218 | packing the context's period succeeds exactly when `channels * phys_bps` is even or there are no channels, and then leaves the buffer equal to `Fill`; otherwise nothing is written |
| Synth.SynthCtx.RunPeriod | src/core.c:253-269 | one pass of the outer loop aborts exactly when the packer refuses the areas, and then touches neither the buffer nor the device; otherwise it packs the period and always goes on to transfer it as `TransferFrom` says |
| Synth.PackedLayoutReadsBack | src/core.c:205-215 | in the layout, after packing, the container number `j * channels + c` reads back as `frames[j]` modulo 2^(8*bps), for signed formats and for unsigned formats of whole-byte width |
| Synth.CursorMatchesFrame | src/core.c:267 | the 16-bit cursor after m frames, `m * channels` shorts, points at the start of frame m exactly when a container is 2 bytes, as for S16 |

## Left out

- Sample generation is not modelled: `sin(phase) * maxval`, `maxval`, the float type-pun and the `double` phase accumulation and wrap (src/core.c:163-170, 195-204, 216-219). Each frame's integer sample `res` is an input, as `bv32`.
- The ALSA calls are not modelled: hardware and software parameter negotiation, `snd_pcm_open`, `snd_pcm_close`, `snd_strerror` and every `printf`. The device's answers to `writei`, `prepare` and `resume` come from a script. Period and buffer sizes are parameters of the context.
- The `sleep(1)` in the resume loop is not modelled, and neither is the infinite outer `while (1)` of `write_loop`. One pass of it is `RunPeriod`.
- Synth.SynthCtx.RunPeriod, Recovery.WaitResume: an endless run of `-EAGAIN` answers is not modelled, neither from `snd_pcm_writei` nor from the resume loop of `xrun_recovery` (src/core.c:231). The script is finite, so a device that stops answering ends the period as `Blocked`, or the recovery with no result.
- `exit(EXIT_FAILURE)` is modelled as a result: `ok == false` from the packer, `Exit` from the transfer. The process end itself is not modelled.
- `synth_ctx_destroy`, `synth_loop_start` and the `addr` field of the areas are not modelled. Every area points at the one sample buffer, which is the array the packer writes.
- The initial contents of the `malloc`ed buffer are arbitrary in the model, as they are in C. The proved properties hold for any initial contents.
- C integer widths are not modelled. `ptr`, `cptr`, `err` and the sizes are unbounded integers, and overflow of `err * channels` or of the buffer size computation is not modelled.
- Packing.PackedSampleReadsBack, Synth.PackedLayoutReadsBack: the read-back is not claimed for unsigned formats whose width is not a whole number of bytes. There bps = `format_bits / 8` rounds down, so the sign bit that `generate_sine` flips lies above the stored bytes, and a reader that undoes the flip sets a bit that was never stored.
- `src/main.c` is not part of this model, and neither are the oscillator functions, volume or the frequency setter declared in `src/core.h`, which have no definitions in `src/core.c`.
