/** xrun_recovery (src/core.c:222-242): what the program does after a
    failed write, as a function of the error code and of the device's
    answers to the calls it makes. */
module Recovery {
  import opened Device

  /** Outcome of the resume loop: the first answer that is not -EAGAIN (None
      when the device stops answering), how many resume calls were made and
      the answers left over. */
  datatype Waited = Waited(reply: Option<int>, resumes: nat, rest: seq<int>)

  /** `while ((err = snd_pcm_resume(handle)) == -EAGAIN) sleep(1);`
      over a script of answers: every answer before the one that ends the
      loop is -EAGAIN, the one that ends it is not, and each costs one
      resume call. */
  function ResumeWait(replies: seq<int>): (w: Waited)
    ensures 1 <= w.resumes
    ensures forall k :: 0 <= k < w.resumes - 1 ==> k < |replies| && replies[k] == -EAGAIN
    ensures w.reply.Some? ==>
      w.resumes <= |replies| && w.reply.value == replies[w.resumes - 1] && w.reply.value != -EAGAIN &&
      w.rest == replies[w.resumes..]
    ensures w.reply.None? ==> w.resumes == |replies| + 1 && w.rest == []
    decreases |replies|
  {
    if replies == [] then Waited(None, 1, [])
    else if replies[0] == -EAGAIN then
      var w := ResumeWait(replies[1..]);
      Waited(w.reply, w.resumes + 1, w.rest)
    else Waited(Some(replies[0]), 1, replies[1..])
  }

  /** n resume calls. */
  function Resumes(n: nat): (r: seq<Call>)
    ensures |r| == n && forall k :: 0 <= k < n ==> r[k] == Resume
  {
    seq(n, _ => Resume)
  }

  lemma ResumesStep(n: nat)
    ensures Resumes(n) + [Resume] == Resumes(n + 1)
  {
    assert forall k :: 0 <= k <= n ==> (Resumes(n) + [Resume])[k] == Resume;
  }

  /** What xrun_recovery does: the value it returns (None when a call it
      makes never returns), the calls it makes, and the answers left. */
  datatype Recovered = Recovered(ret: Option<int>, calls: seq<Call>, rest: seq<int>)

  /** xrun_recovery(handle, err) over a script of device answers. */
  function Recover(err: int, replies: seq<int>): (r: Recovered) {
    if err == -EPIPE then
      // under-run: prepare, whatever it answers
      Recovered(if replies == [] then None else Some(0), [Prepare], Drop1(replies))
    else if err == -ESTRPIPE then
      // suspended: resume until not -EAGAIN, prepare if resume failed
      var w := ResumeWait(replies);
      if w.reply.None? then Recovered(None, Resumes(w.resumes), [])
      else if w.reply.value < 0 then
        Recovered(if w.rest == [] then None else Some(0), Resumes(w.resumes) + [Prepare], Drop1(w.rest))
      else Recovered(Some(0), Resumes(w.resumes), w.rest)
    else
      Recovered(Some(err), [], replies)
  }

  /** When it returns, xrun_recovery returns 0 for -EPIPE and -ESTRPIPE,
      even if prepare or resume failed, and any other code unchanged. */
  lemma RecoverReturns(err: int, replies: seq<int>)
    ensures Recover(err, replies).ret.Some? ==>
      Recover(err, replies).ret.value == (if err == -EPIPE || err == -ESTRPIPE then 0 else err)
    ensures err != -EPIPE && err != -ESTRPIPE ==> Recover(err, replies) == Recovered(Some(err), [], replies)
  {
  }

  /** A negative return, the one case where the write loop gives up, comes
      only from an error code that is neither -EPIPE nor -ESTRPIPE. */
  lemma RecoverFailsOnlyOnOtherErrors(err: int, replies: seq<int>)
    ensures (Recover(err, replies).ret.Some? && Recover(err, replies).ret.value < 0) <==>
      (err < 0 && err != -EPIPE && err != -ESTRPIPE)
  {
  }

  /** Prepare is called for an under-run, and for a suspend exactly when
      the resume that ended the wait failed; the calls before it are
      resumes, one per -EAGAIN answer plus the one that ended the wait. */
  lemma RecoverPrepares(err: int, replies: seq<int>)
    ensures var r := Recover(err, replies);
      (Prepare in r.calls) <==>
        (err == -EPIPE ||
         (err == -ESTRPIPE && ResumeWait(replies).reply.Some? && ResumeWait(replies).reply.value < 0))
    ensures err == -ESTRPIPE ==>
      Recover(err, replies).calls[..ResumeWait(replies).resumes] == Resumes(ResumeWait(replies).resumes)
  {
    var r := Recover(err, replies);
    if err == -ESTRPIPE {
      var w := ResumeWait(replies);
      if !(w.reply.Some? && w.reply.value < 0) {
        assert r.calls == Resumes(w.resumes);
        assert Prepare !in r.calls by {
          forall k | 0 <= k < |r.calls| ensures r.calls[k] != Prepare {
          }
        }
      } else {
        assert r.calls[|r.calls| - 1] == Prepare;
      }
    }
  }

  /** Recovery uses the device's answers in order: what is left is a suffix
      of the script, one answer shorter per answered call. */
  lemma RecoverConsumes(err: int, replies: seq<int>)
    ensures var r := Recover(err, replies);
      r.ret.Some? ==> |r.calls| <= |replies| && r.rest == replies[|r.calls|..]
    ensures Recover(err, replies).ret.None? ==> Recover(err, replies).rest == [] && |Recover(err, replies).calls| == |replies| + 1
  {
  }

  /** Skipping answers already known to be -EAGAIN: the wait goes on as if
      it had started there. */
  lemma {:induction false} ResumeWaitSkip(replies: seq<int>, k: nat)
    requires k <= |replies| && forall i :: 0 <= i < k ==> replies[i] == -EAGAIN
    ensures ResumeWait(replies) == Waited(ResumeWait(replies[k..]).reply, ResumeWait(replies[k..]).resumes + k, ResumeWait(replies[k..]).rest)
    decreases k
  {
    if k > 0 {
      assert replies[1..][k - 1..] == replies[k..];
      ResumeWaitSkip(replies[1..], k - 1);
    }
  }

  /** xrun_recovery of src/core.c on the handle `pcm`. */
  method XrunRecovery(pcm: Pcm, err: int) returns (r: Option<int>)
    modifies pcm
    ensures var R := Recover(err, old(pcm.replies));
      r == R.ret && pcm.log == old(pcm.log) + R.calls && pcm.replies == R.rest
  {
    if err == -EPIPE {
      var p := pcm.Request(Prepare);
      if p.None? {
        return None;
      }
      return Some(0);
    } else if err == -ESTRPIPE {
      var e := WaitResume(pcm);
      if e.None? {
        return None;
      }
      if e.value < 0 {
        var p := pcm.Request(Prepare);
        if p.None? {
          return None;
        }
      }
      return Some(0);
    }
    return Some(err);
  }

  /** The resume loop of xrun_recovery (the one-second sleeps left out). */
  method WaitResume(pcm: Pcm) returns (e: Option<int>)
    modifies pcm
    ensures var w := ResumeWait(old(pcm.replies));
      e == w.reply && pcm.log == old(pcm.log) + Resumes(w.resumes) && pcm.replies == w.rest
  {
    ghost var script := pcm.replies;
    e := pcm.Request(Resume);
    ghost var k: nat := 1;
    while e == Some(-EAGAIN)
      invariant 1 <= k <= |script| + 1
      invariant forall i :: 0 <= i < k - 1 ==> script[i] == -EAGAIN
      invariant pcm.log == old(pcm.log) + Resumes(k)
      invariant e.None? ==> k == |script| + 1 && pcm.replies == []
      invariant e.Some? ==> k <= |script| && e.value == script[k - 1] && pcm.replies == script[k..]
      decreases |script| + 1 - k
    {
      e := pcm.Request(Resume);
      ResumesStep(k);
      k := k + 1;
    }
    ResumeWaitSkip(script, k - 1);
    if e.Some? {
      assert script[k - 1..][0] == e.value;
      assert script[k - 1..][1..] == script[k..];
    }
  }
}
