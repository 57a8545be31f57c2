/** The PCM device as the transfer code sees it: a handle whose calls
    (snd_pcm_writei, snd_pcm_prepare, snd_pcm_resume) answer with an
    integer, negative for an error. The device itself is foreign code, so
    its answers are a script given up front, and the handle keeps a log of
    the calls made on it. */
module Device {

  datatype Option<T> = None | Some(value: T)

  /** Linux error numbers the transfer code compares against (returned negated). */
  const EAGAIN: int := 11
  const EPIPE: int := 32
  const ESTRPIPE: int := 86

  /** A call on the handle: writei of `frames` frames from the interleaved
      buffer at `ptr` (counted in 16-bit units, as the `signed short *`
      cursor of write_loop is), prepare, or resume. */
  datatype Call = Writei(ptr: int, frames: int) | Prepare | Resume

  /** All but the first answer of a script (nothing left when it is empty). */
  function Drop1(replies: seq<int>): (r: seq<int>)
    ensures replies == [] ==> r == []
    ensures replies != [] ==> replies == [replies[0]] + r
  {
    if replies == [] then [] else replies[1..]
  }

  class Pcm {
    /** The answers the device will give, in order. */
    var replies: seq<int>
    /** The calls made so far, in order. */
    var log: seq<Call>

    constructor(script: seq<int>)
      ensures replies == script && log == []
    {
      replies := script;
      log := [];
    }

    /** Makes call `c`: it is logged, and answered with the next scripted
        reply; once the script is used up the call never returns (None). */
    method Request(c: Call) returns (r: Option<int>)
      modifies this
      ensures log == old(log) + [c]
      ensures old(replies) == [] ==> r == None && replies == []
      ensures old(replies) != [] ==> r == Some(old(replies)[0]) && replies == old(replies)[1..]
    {
      log := log + [c];
      if replies == [] {
        r := None;
      } else {
        r := Some(replies[0]);
        replies := replies[1..];
      }
    }
  }
}
