/** One period's transfer in write_loop (src/core.c:255-269): the packed
    period is handed to snd_pcm_writei until every frame is accepted,
    retrying on -EAGAIN and recovering from other errors. */
module Transfer {
  import opened Device
  import opened Recovery

  /** How the transfer of a period ends: all frames accepted; the rest of
      the period skipped after a recovered error; the process exits because
      recovery failed; or a call on the device never returns. */
  datatype Outcome = Completed | Skipped(err: int) | Exit(err: int) | Blocked

  /** The end state of a period's transfer: outcome, final cursor `ptr` (in
      16-bit units), frames still to write `cptr`, the calls made and the
      device answers left over. */
  datatype Period = Period(outcome: Outcome, ptr: int, cptr: int, calls: seq<Call>, rest: seq<int>)

  /** The loop `while (cptr > 0) { ... }` of write_loop, from cursor `ptr`
      with `cptr` frames left, over a script of device answers. */
  function TransferFrom(ptr: int, cptr: int, channels: int, replies: seq<int>): (p: Period)
    ensures cptr <= 0 <==> p.calls == []
    ensures cptr > 0 ==> p.calls[0] == Writei(ptr, cptr)
    decreases |replies|
  {
    if cptr <= 0 then Period(Completed, ptr, cptr, [], replies)
    else if replies == [] then Period(Blocked, ptr, cptr, [Writei(ptr, cptr)], [])
    else
      var err := replies[0];
      if err == -EAGAIN then
        var p := TransferFrom(ptr, cptr, channels, replies[1..]);
        p.(calls := [Writei(ptr, cptr)] + p.calls)
      else if err < 0 then
        var r := Recover(err, replies[1..]);
        var outcome := if r.ret.None? then Blocked else if r.ret.value < 0 then Exit(err) else Skipped(err);
        Period(outcome, ptr, cptr, [Writei(ptr, cptr)] + r.calls, r.rest)
      else
        var p := TransferFrom(ptr + err * channels, cptr - err, channels, replies[1..]);
        p.(calls := [Writei(ptr, cptr)] + p.calls)
  }

  /** The transfer of a whole period of `periodSize` frames: it starts at the
      start of the buffer with every frame still to write. */
  function TransferPeriodSpec(periodSize: int, channels: int, replies: seq<int>): (p: Period) {
    TransferFrom(0, periodSize, channels, replies)
  }

  /** Call `c`, if it is a writei, asks for the frames still to write, more
      than zero, from the cursor that stands `channels` units per frame
      already accepted from the start of the buffer. */
  predicate AtCursor(periodSize: int, channels: int, c: Call) {
    c.Writei? ==> c.ptr == (periodSize - c.frames) * channels && c.frames > 0
  }

  /** The cursor invariant of write_loop: the cursor always stands
      `channels` units per accepted frame from the start of the buffer, at
      the end and at every writei call, and every writei asks for the
      frames still to write, more than zero. */
  lemma {:induction false} TransferKeepsCursor(periodSize: int, ptr: int, cptr: int, channels: int, replies: seq<int>)
    requires ptr == (periodSize - cptr) * channels
    ensures var p := TransferFrom(ptr, cptr, channels, replies);
      p.ptr == (periodSize - p.cptr) * channels &&
      forall k :: 0 <= k < |p.calls| ==> AtCursor(periodSize, channels, p.calls[k])
    decreases |replies|
  {
    if cptr > 0 && replies != [] {
      var err := replies[0];
      if err == -EAGAIN {
        TransferKeepsCursor(periodSize, ptr, cptr, channels, replies[1..]);
        CallsAfterFirst(ptr, cptr, channels, replies);
      } else if err < 0 {
        RecoverKeepsCursor(periodSize, ptr, cptr, channels, replies);
      } else {
        Advance(periodSize, ptr, cptr, channels, err);
        TransferKeepsCursor(periodSize, ptr + err * channels, cptr - err, channels, replies[1..]);
        CallsAfterFirst(ptr, cptr, channels, replies);
      }
    }
  }

  /** A failed write followed by recovery ends the period where it stands. */
  lemma RecoverKeepsCursor(periodSize: int, ptr: int, cptr: int, channels: int, replies: seq<int>)
    requires ptr == (periodSize - cptr) * channels
    requires cptr > 0 && replies != [] && replies[0] < 0 && replies[0] != -EAGAIN
    ensures var p := TransferFrom(ptr, cptr, channels, replies);
      p.ptr == (periodSize - p.cptr) * channels &&
      forall k :: 0 <= k < |p.calls| ==> AtCursor(periodSize, channels, p.calls[k])
  {
    var r := Recover(replies[0], replies[1..]);
    RecoverWritesNothing(replies[0], replies[1..]);
    assert TransferFrom(ptr, cptr, channels, replies).calls == [Writei(ptr, cptr)] + r.calls;
  }

  lemma Advance(periodSize: int, ptr: int, cptr: int, channels: int, err: int)
    requires ptr == (periodSize - cptr) * channels
    ensures ptr + err * channels == (periodSize - (cptr - err)) * channels
  {
  }

  /** After a write that is retried or accepted, the calls are that write
      followed by those of the rest of the loop. */
  lemma CallsAfterFirst(ptr: int, cptr: int, channels: int, replies: seq<int>)
    requires cptr > 0 && replies != [] && (replies[0] == -EAGAIN || replies[0] >= 0)
    ensures var q := if replies[0] == -EAGAIN then TransferFrom(ptr, cptr, channels, replies[1..])
                     else TransferFrom(ptr + replies[0] * channels, cptr - replies[0], channels, replies[1..]);
      TransferFrom(ptr, cptr, channels, replies).calls == [Writei(ptr, cptr)] + q.calls
  {
  }

  /** Recovery makes no writei call. */
  lemma RecoverWritesNothing(err: int, replies: seq<int>)
    ensures forall k :: 0 <= k < |Recover(err, replies).calls| ==> !Recover(err, replies).calls[k].Writei?
  {
  }

  /** How a period ends: completed exactly when no frame is left; skipped
      only after -EPIPE or -ESTRPIPE; exit only after any other error
      except -EAGAIN; blocked only when the device's answers ran out. */
  lemma {:induction false} TransferOutcome(ptr: int, cptr: int, channels: int, replies: seq<int>)
    ensures var p := TransferFrom(ptr, cptr, channels, replies);
      (p.outcome == Completed <==> p.cptr <= 0) &&
      (p.outcome.Skipped? ==> p.outcome.err == -EPIPE || p.outcome.err == -ESTRPIPE) &&
      (p.outcome.Exit? ==> p.outcome.err < 0 && p.outcome.err != -EAGAIN && p.outcome.err != -EPIPE && p.outcome.err != -ESTRPIPE) &&
      (p.outcome == Blocked ==> p.rest == [])
    decreases |replies|
  {
    if cptr > 0 && replies != [] {
      var err := replies[0];
      if err == -EAGAIN {
        TransferOutcome(ptr, cptr, channels, replies[1..]);
      } else if err < 0 {
        RecoverFailsOnlyOnOtherErrors(err, replies[1..]);
        RecoverReturns(err, replies[1..]);
        RecoverConsumes(err, replies[1..]);
      } else {
        TransferOutcome(ptr + err * channels, cptr - err, channels, replies[1..]);
      }
    }
  }

  /** -EAGAIN moves nothing: the next call is the same write again. */
  lemma AgainRetriesSameWrite(ptr: int, cptr: int, channels: int, replies: seq<int>)
    requires cptr > 0 && |replies| >= 1 && replies[0] == -EAGAIN
    ensures var p := TransferFrom(ptr, cptr, channels, replies);
      |p.calls| >= 2 && p.calls[0] == p.calls[1] == Writei(ptr, cptr)
  {
    var q := TransferFrom(ptr, cptr, channels, replies[1..]);
    assert q.calls[0] == Writei(ptr, cptr);
  }

  /** A write that accepts `err` frames moves the cursor on by err * channels
      units and takes err off the frames left. */
  lemma AcceptedWriteAdvances(ptr: int, cptr: int, channels: int, replies: seq<int>)
    requires cptr > 0 && |replies| >= 1 && replies[0] >= 0
    ensures var p := TransferFrom(ptr, cptr, channels, replies);
      p.calls[0] == Writei(ptr, cptr) &&
      (cptr - replies[0] > 0 && |replies| >= 2 ==> p.calls[1] == Writei(ptr + replies[0] * channels, cptr - replies[0]))
  {
    var q := TransferFrom(ptr + replies[0] * channels, cptr - replies[0], channels, replies[1..]);
    if cptr - replies[0] > 0 && |replies| >= 2 {
      assert q.calls[0] == Writei(ptr + replies[0] * channels, cptr - replies[0]);
    }
  }

  /** A write that fails with an error other than -EAGAIN ends the period
      where it stands: an error recovery does not handle makes the process
      exit with that error; -EPIPE and -ESTRPIPE skip the rest of the period
      (or block, if the device stops answering), and an answered -EPIPE
      always skips. */
  lemma FailedWriteEndsPeriod(ptr: int, cptr: int, channels: int, replies: seq<int>)
    requires cptr > 0 && replies != [] && replies[0] < 0 && replies[0] != -EAGAIN
    ensures var p := TransferFrom(ptr, cptr, channels, replies);
      var e := replies[0];
      p.ptr == ptr && p.cptr == cptr &&
      p.calls == [Writei(ptr, cptr)] + Recover(e, replies[1..]).calls &&
      (e != -EPIPE && e != -ESTRPIPE ==> p.outcome == Exit(e)) &&
      (e == -EPIPE || e == -ESTRPIPE ==> p.outcome == Skipped(e) || p.outcome == Blocked) &&
      (e == -EPIPE && |replies| >= 2 ==> p.outcome == Skipped(e))
  {
    RecoverReturns(replies[0], replies[1..]);
  }

  /** The loop's state is on course for the period `goal` begun with log
      `log0`: continuing from cursor `ptr`, with `cptr` frames left and the
      answers `replies` still to come, ends where `goal` ends, and the calls
      made so far followed by those still to come are the calls of `goal`. */
  ghost predicate OnCourse(goal: Period, log0: seq<Call>, ptr: int, cptr: int, channels: int, replies: seq<int>, log: seq<Call>) {
    var p := TransferFrom(ptr, cptr, channels, replies);
    p.outcome == goal.outcome && p.ptr == goal.ptr && p.cptr == goal.cptr && p.rest == goal.rest &&
    log0 + goal.calls == log + p.calls
  }

  lemma OnCourseAgain(goal: Period, log0: seq<Call>, ptr: int, cptr: int, channels: int, rest: seq<int>, log: seq<Call>)
    requires cptr > 0 && OnCourse(goal, log0, ptr, cptr, channels, [-EAGAIN] + rest, log)
    ensures OnCourse(goal, log0, ptr, cptr, channels, rest, log + [Writei(ptr, cptr)])
  {
    assert ([-EAGAIN] + rest)[1..] == rest;
  }

  lemma OnCourseAccept(goal: Period, log0: seq<Call>, ptr: int, cptr: int, channels: int, err: int, rest: seq<int>, log: seq<Call>)
    requires cptr > 0 && err >= 0 && OnCourse(goal, log0, ptr, cptr, channels, [err] + rest, log)
    ensures OnCourse(goal, log0, ptr + err * channels, cptr - err, channels, rest, log + [Writei(ptr, cptr)])
  {
    assert ([err] + rest)[1..] == rest;
  }

  lemma OnCourseRecover(goal: Period, log0: seq<Call>, ptr: int, cptr: int, channels: int, err: int, rest: seq<int>, log: seq<Call>)
    requires cptr > 0 && err < 0 && err != -EAGAIN && OnCourse(goal, log0, ptr, cptr, channels, [err] + rest, log)
    ensures var r := Recover(err, rest);
      goal.outcome == (if r.ret.None? then Blocked else if r.ret.value < 0 then Exit(err) else Skipped(err)) &&
      goal.ptr == ptr && goal.cptr == cptr && goal.rest == r.rest &&
      log0 + goal.calls == log + [Writei(ptr, cptr)] + r.calls
  {
    assert ([err] + rest)[1..] == rest;
  }

  lemma OnCourseBlocked(goal: Period, log0: seq<Call>, ptr: int, cptr: int, channels: int, log: seq<Call>)
    requires cptr > 0 && OnCourse(goal, log0, ptr, cptr, channels, [], log)
    ensures goal.outcome == Blocked && goal.ptr == ptr && goal.cptr == cptr && goal.rest == [] &&
      log0 + goal.calls == log + [Writei(ptr, cptr)]
  {
  }

  /** The inner loop of write_loop for one period on the handle `pcm`. */
  method TransferPeriod(pcm: Pcm, periodSize: int, channels: int) returns (outcome: Outcome, ptr: int, cptr: int)
    modifies pcm
    ensures var P := TransferPeriodSpec(periodSize, channels, old(pcm.replies));
      outcome == P.outcome && ptr == P.ptr && cptr == P.cptr &&
      pcm.log == old(pcm.log) + P.calls && pcm.replies == P.rest
  {
    ghost var goal := TransferPeriodSpec(periodSize, channels, pcm.replies);
    ghost var log0 := pcm.log;
    ptr := 0;
    cptr := periodSize;
    assert pcm.log + [] == log0;
    while cptr > 0
      invariant OnCourse(goal, log0, ptr, cptr, channels, pcm.replies, pcm.log)
      decreases |pcm.replies|
    {
      ghost var before := pcm.log;
      ghost var script := pcm.replies;
      var r := pcm.Request(Writei(ptr, cptr));
      if r.None? {
        OnCourseBlocked(goal, log0, ptr, cptr, channels, before);
        return Blocked, ptr, cptr;
      }
      var err := r.value;
      assert script == [err] + pcm.replies;
      if err == -EAGAIN {
        OnCourseAgain(goal, log0, ptr, cptr, channels, pcm.replies, before);
        continue;
      }
      if err < 0 {
        OnCourseRecover(goal, log0, ptr, cptr, channels, err, pcm.replies, before);
        var rec := XrunRecovery(pcm, err);
        if rec.None? {
          return Blocked, ptr, cptr;
        }
        if rec.value < 0 {
          // write_loop prints the write error and exits the process here
          return Exit(err), ptr, cptr;
        }
        // skip one period
        return Skipped(err), ptr, cptr;
      }
      OnCourseAccept(goal, log0, ptr, cptr, channels, err, pcm.replies, before);
      ptr := ptr + err * channels;
      cptr := cptr - err;
    }
    outcome := Completed;
  }
}
