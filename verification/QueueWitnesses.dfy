/** Runs that show the queue's bounds are attained and its side conditions are
    needed. */
module QueueWitnesses {
  import opened Text
  import opened Backoff
  import opened Classify
  import opened QueueTypes
  import opened RateLimit
  import opened QueueMachine
  import opened QueueSafety
  import opened QueueRetries

  lemma {:induction false} ExtendClock(run: seq<Action>, clock: int, end: int, a: Action)
    requires Clocked(run, clock) && EndOf(run, clock) == end && end <= Tick(a, end)
    ensures Clocked(run + [a], clock) && EndOf(run + [a], clock) == Tick(a, end)
    decreases |run|
  {
    if run == [] {
      assert [a][1..] == [];
      assert run + [a] == [a];
    } else {
      ExtendClock(run[1..], Tick(run[0], clock), end, a);
      assert (run + [a])[1..] == run[1..] + [a];
    }
  }

  ghost function EndOf(run: seq<Action>, clock: int): int {
    if run == [] then clock else EndOf(run[1..], Tick(run[0], clock))
  }

  // ------------------------------------------------------------------
  // 23 deferrals do happen
  // ------------------------------------------------------------------

  const GREYLISTED := Transient(Report(Some(450), None, "try again later"))

  /** One message with one recipient, deferred n times as early as possible. */
  ghost predicate DeferredTimes(s: Sys, n: nat) {
    && |s.outbound| == 1 && s.outbound[0].createdAt == 0 && s.outbound[0].expiresAt == MAX_LIFETIME_SECS
    && |s.rcpts| == 1 && s.rcpts[0].outboundId == 0 && s.rcpts[0].attempts == n
    && (if n == 0 then s.rcpts[0].state.Ready? else s.rcpts[0].state.Deferred?)
    && s.rcpts[0].nextAttemptAt == ShortestWait(n)
    && s.batch == [] && s.doomed.None?
  }

  lemma {:induction false} ShortestDelayDrawn(n: int)
    ensures NextDelaySecs(n, -0.15) == ShortestDelay(n)
  {
    assert BaseSecs(n) * 85 % 100 == 0;
    assert BaseSecs(n) as real * 0.85 == (BaseSecs(n) * 85 / 100) as real;
  }

  lemma {:induction false} OneMoreDeferral(s: Sys, n: nat)
    requires Inv(s) && DeferredTimes(s, n) && n < MAX_DEFERRALS
    ensures var t := ShortestWait(n);
            var claim := Claim(t, [0]);
            var defer := Finalize(Snapshot(0, s.rcpts[0]), GREYLISTED, t, -0.15, false);
            && Enabled(s, claim)
            && Enabled(Apply(s, claim), defer)
            && DeferredTimes(Apply(Apply(s, claim), defer), n + 1)
  {
    var t := ShortestWait(n);
    OnlyTwentyTwoRetriesFit(n);
    ShortestDelayDrawn(n + 1);
    var s1 := Apply(s, Claim(t, [0]));
    var c := Snapshot(0, s.rcpts[0]);
    assert s1.batch == [c];
    assert s1.rcpts[0] == s.rcpts[0].(state := Claimed, claimedAt := t);
    var s2 := Apply(s1, Finalize(c, GREYLISTED, t, -0.15, false));
    assert Without([c], 0) == Without([c][1..], 0);
    assert s2.rcpts[0] == FinalizedRow(s1.rcpts[0], c, s.outbound[0], GREYLISTED, t, -0.15);
  }

  /** The queue after the first recipient of one message was inserted at time 0. */
  function JustInserted(sp: Spooled): Sys
    requires |sp.msg.recipients| >= 1
  {
    Sys([NewRow(sp, 0)], [NewRcpt(0, sp.msg.recipients[0], 0)], {sp.hash}, [], multiset{},
        if |sp.msg.recipients| == 1 then None else Some(Insert(sp, 0, 0, 1)), [], None)
  }

  function FirstRun(sp: Spooled): seq<Action> { [Spool(sp), Open(sp, 0), Add] }

  lemma {:induction false} EnqueueFirst(sp: Spooled)
    requires ValidEnvelope(sp.msg)
    ensures Legal(EMPTY, FirstRun(sp)) && After(EMPTY, FirstRun(sp)) == JustInserted(sp)
  {
    var s1 := Apply(EMPTY, Spool(sp));
    assert sp in s1.spooled && s1.spooled - multiset{sp} == multiset{};
    assert WithinLimits([], [], sp.msg, 0);
    var s2 := Apply(s1, Open(sp, 0));
    TwoSteps(EMPTY, Spool(sp), Open(sp, 0));
    assert s2.outbound == [NewRow(sp, 0)] && s2.blobs == {sp.hash} && s2.insert == Some(Insert(sp, 0, 0, 0));
    var s3 := Apply(s2, Add);
    assert s3.rcpts == [NewRcpt(0, sp.msg.recipients[0], 0)];
    Extend(EMPTY, [Spool(sp), Open(sp, 0)], Add);
    assert [Spool(sp), Open(sp, 0)] + [Add] == FirstRun(sp);
  }

  lemma {:induction false} FirstRunClocked(sp: Spooled)
    ensures Clocked(FirstRun(sp), 0) && EndOf(FirstRun(sp), 0) == 0
  {
    var run := FirstRun(sp);
    assert run[1..] == [Open(sp, 0), Add] && run[1..][1..] == [Add] && run[1..][1..][1..] == [];
    assert Clocked([Add], 0) && EndOf([Add], 0) == 0;
    assert Clocked(run[1..], 0) && EndOf(run[1..], 0) == 0;
  }

  /** For every valid single-recipient message some run on a forward clock
      defers its recipient 23 times: the bound is exact. */
  lemma {:induction false} BoundIsAttained(sp: Spooled, n: nat) returns (run: seq<Action>)
    requires ValidEnvelope(sp.msg) && |sp.msg.recipients| == 1 && n <= MAX_DEFERRALS
    ensures Legal(EMPTY, run) && Clocked(run, 0) && DeferredTimes(After(EMPTY, run), n)
    ensures EndOf(run, 0) <= ShortestWait(n)
  {
    if n == 0 {
      run := FirstRun(sp);
      EnqueueFirst(sp);
      FirstRunClocked(sp);
    } else {
      run := BoundIsAttained(sp, n - 1);
      run := DeferAgain(run, n - 1);
    }
  }

  lemma {:induction false} DeferAgain(run: seq<Action>, n: nat) returns (run': seq<Action>)
    requires Legal(EMPTY, run) && Clocked(run, 0) && DeferredTimes(After(EMPTY, run), n)
    requires EndOf(run, 0) <= ShortestWait(n) && n < MAX_DEFERRALS
    ensures Legal(EMPTY, run') && Clocked(run', 0) && DeferredTimes(After(EMPTY, run'), n + 1)
    ensures EndOf(run', 0) <= ShortestWait(n + 1)
  {
    var s, t := After(EMPTY, run), ShortestWait(n);
    RunKeepsInv(EMPTY, run);
    OneMoreDeferral(s, n);
    var claim, defer := Claim(t, [0]), Finalize(Snapshot(0, s.rcpts[0]), GREYLISTED, t, -0.15, false);
    Extend(EMPTY, run, claim);
    ExtendClock(run, 0, EndOf(run, 0), claim);
    Extend(EMPTY, run + [claim], defer);
    ExtendClock(run + [claim], 0, t, defer);
    run' := run + [claim] + [defer];
  }

  // ------------------------------------------------------------------
  // The overlaps that lose a blob are reachable
  // ------------------------------------------------------------------

  /** The first recipient of the only message is waiting. */
  ghost predicate OneWaiting(s: Sys, sp: Spooled) {
    && Inv(s) && s.outbound == [NewRow(sp, 0)] && s.batch == [] && s.doomed.None?
    && |sp.msg.recipients| >= 1 && s.rcpts == [NewRcpt(0, sp.msg.recipients[0], 0)]
  }

  function DeliverRun(sp: Spooled): seq<Action>
    requires |sp.msg.recipients| >= 1
  {
    [Claim(0, [0]), Finalize(Snapshot(0, NewRcpt(0, sp.msg.recipients[0], 0)), Outcome.Delivered, 0, 0.0, true), Query(0)]
  }

  /** It is delivered, and the cleanup's query finds nothing unfinished. */
  ghost predicate OneDelivered(s: Sys, s': Sys, sp: Spooled) {
    && s'.outbound == s.outbound && |s'.rcpts| == 1 && s'.rcpts[0].outboundId == 0 && s'.rcpts[0].state.Delivered?
    && s'.blobs == s.blobs && s'.spooled == s.spooled && s'.insert == s.insert
    && s'.doomed == Some(Doomed(sp.hash, 1))
  }

  lemma {:induction false} DeliverFirst(s: Sys, sp: Spooled)
    requires OneWaiting(s, sp)
    ensures Legal(s, DeliverRun(sp)) && OneDelivered(s, After(s, DeliverRun(sp)), sp)
  {
    var claim, c := Claim(0, [0]), Snapshot(0, s.rcpts[0]);
    var s1 := Apply(s, claim);
    assert s1.batch == [c] && c in s1.batch && s1.rcpts[0].outboundId == 0;
    var send := Finalize(c, Outcome.Delivered, 0, 0.0, true);
    var s2 := Apply(s1, send);
    assert s2.rcpts[0].state.Delivered?;
    TwoSteps(s, claim, send);
    Extend(s, [claim, send], Query(0));
    assert [claim, send] + [Query(0)] == DeliverRun(sp);
  }

  /** The removal, and what follows from the overlap. */
  lemma {:induction false} LoseBlob(run: seq<Action>) returns (run': seq<Action>)
    requires Legal(EMPTY, run) && Races(After(EMPTY, run), Remove(true))
    requires var s := After(EMPTY, run);
      && (forall q :: q in s.spooled ==> s.insert.Some? || WithinLimits(s.outbound, s.rcpts, q.msg, 0))
      && (s.insert.Some? ==> s.insert.value.sp.hash == s.doomed.value.hash || InsertedSince(s, s.doomed.value))
    ensures Legal(EMPTY, run') && !BlobSafe(After(EMPTY, run'))
  {
    var s := After(EMPTY, run);
    RunKeepsInv(EMPTY, run);
    var rest := RaceLosesBlob(s, Remove(true), 0);
    Extend(EMPTY, run, Remove(true));
    Concat(EMPTY, run + [Remove(true)], rest);
    run' := run + [Remove(true)] + rest;
  }

  lemma {:induction false} SecondFits(s: Sys, sp: Spooled)
    requires |s.outbound| == 1 && |s.rcpts| == 1 && ValidEnvelope(sp.msg)
    ensures WithinLimits(s.outbound, s.rcpts, sp.msg, 0)
  {
    var account, since := sp.msg.accountId, -RATE_LIMIT_WINDOW_SECS;
    assert s.outbound[..0] == [] && s.rcpts[..0] == [];
    assert MessagesSince([], account, since) == 0 && MessagesSince(s.outbound, account, since) <= 1;
    assert RecipientsSince(s.outbound, [], account, since) == 0;
    assert RecipientsSince(s.outbound, s.rcpts, account, since) <= 1;
  }

  /** Sending the same content twice: the first copy's blob is removed after the second
      copy wrote it and before that one inserted its rows. */
  lemma {:induction false} RemovedBeforeRows(sp: Spooled) returns (run: seq<Action>)
    requires ValidEnvelope(sp.msg) && |sp.msg.recipients| == 1
    ensures Legal(EMPTY, run) && !BlobSafe(After(EMPTY, run))
  {
    EnqueueFirst(sp);
    run := FirstRun(sp) + [Spool(sp)];
    Extend(EMPTY, FirstRun(sp), Spool(sp));
    var s0 := After(EMPTY, run);
    RunKeepsInv(EMPTY, run);
    assert s0.spooled == multiset{sp} && OneWaiting(s0, sp);
    DeliverFirst(s0, sp);
    Concat(EMPTY, run, DeliverRun(sp));
    run := run + DeliverRun(sp);
    var s := After(EMPTY, run);
    assert sp in s.spooled && InFlight(s, sp.hash);
    SecondFits(s, sp);
    run := LoseBlob(run);
  }

  /** The same, with the whole second enqueue between the query and the removal. */
  lemma {:induction false} RemovedAfterRows(sp: Spooled) returns (run: seq<Action>)
    requires ValidEnvelope(sp.msg) && |sp.msg.recipients| == 1
    ensures Legal(EMPTY, run) && !BlobSafe(After(EMPTY, run))
  {
    EnqueueFirst(sp);
    RunKeepsInv(EMPTY, FirstRun(sp));
    DeliverFirst(JustInserted(sp), sp);
    Concat(EMPTY, FirstRun(sp), DeliverRun(sp));
    run := FirstRun(sp) + DeliverRun(sp);
    var s := After(EMPTY, run);
    RunKeepsInv(EMPTY, run);
    SecondFits(s, sp);
    EnqueueAgain(s, sp);
    Concat(EMPTY, run, FirstRun(sp));
    run := run + FirstRun(sp);
    run := LoseBlob(run);
  }

  lemma {:induction false} EnqueueAgain(s: Sys, sp: Spooled)
    requires Inv(s) && ValidEnvelope(sp.msg) && |sp.msg.recipients| == 1 && s.spooled == multiset{} && s.insert.None?
    requires s.doomed.Some? && s.doomed.value == Doomed(sp.hash, |s.rcpts|) && WithinLimits(s.outbound, s.rcpts, sp.msg, 0)
    ensures Legal(s, FirstRun(sp))
    ensures var s' := After(s, FirstRun(sp));
      s'.spooled == multiset{} && s'.insert.None? && s'.doomed == s.doomed && InsertedSince(s', s.doomed.value)
  {
    var s1 := Apply(s, Spool(sp));
    assert sp in s1.spooled && s1.spooled - multiset{sp} == multiset{};
    var s2 := Apply(s1, Open(sp, 0));
    TwoSteps(s, Spool(sp), Open(sp, 0));
    var s3 := Apply(s2, Add);
    Extend(s, [Spool(sp), Open(sp, 0)], Add);
    assert [Spool(sp), Open(sp, 0)] + [Add] == FirstRun(sp);
    assert HasContent(s3, |s.rcpts|, sp.hash);
  }

  /** One message with several recipients: the first is delivered and cleaned up before
      the second is inserted. */
  lemma {:induction false} RemovedBetweenRows(sp: Spooled) returns (run: seq<Action>)
    requires ValidEnvelope(sp.msg) && |sp.msg.recipients| >= 2
    ensures Legal(EMPTY, run) && !BlobSafe(After(EMPTY, run))
  {
    EnqueueFirst(sp);
    RunKeepsInv(EMPTY, FirstRun(sp));
    DeliverFirst(JustInserted(sp), sp);
    Concat(EMPTY, FirstRun(sp), DeliverRun(sp));
    run := FirstRun(sp) + DeliverRun(sp);
    run := LoseBlob(run);
  }

  // ------------------------------------------------------------------
  // Delay reports are never asked for
  // ------------------------------------------------------------------

  ghost predicate OnlyFailureNotices(s: Sys) {
    && (forall i :: 0 <= i < |s.rcpts| ==> s.rcpts[i].dsnNotify == "FAILURE")
    && forall k :: 0 <= k < |s.dsns| ==> s.dsns[k].action.DsnFailed?
  }

  lemma {:induction false} SkipLetter(s: string)
    requires |s| >= 5 && s[0] != 'D'
    ensures MentionsDelay(s) == MentionsDelay(s[1..])
  {
    assert s[..5][0] == s[0];
  }

  lemma {:induction false} FailureIsNotDelay()
    ensures !MentionsDelay("FAILURE")
  {
    SkipLetter("FAILURE");
    assert "FAILURE"[1..] == "AILURE";
    SkipLetter("AILURE");
    assert "AILURE"[1..] == "ILURE";
    SkipLetter("ILURE");
    assert "ILURE"[1..] == "LURE";
  }

  /** `enqueue` never sets dsn_notify, so from an empty queue no run ever sends
      a delay report: that branch of `finalize` is dead. */
  lemma {:induction false} NoDelayReports(s: Sys, run: seq<Action>)
    requires Inv(s) && OnlyFailureNotices(s) && Legal(s, run)
    ensures OnlyFailureNotices(After(s, run))
    decreases |run|
  {
    if run == [] {
    } else {
      NoDelayStep(s, run[0]);
      StepKeepsInv(s, run[0]);
      NoDelayReports(Apply(s, run[0]), run[1..]);
    }
  }

  lemma {:induction false} NoDelayStep(s: Sys, a: Action)
    requires Inv(s) && OnlyFailureNotices(s) && Enabled(s, a)
    ensures OnlyFailureNotices(Apply(s, a))
  {
    if a.Finalize? {
      FinalizeNoDelay(s, a);
    } else {
      QuietStep(s, a);
    }
  }

  lemma {:induction false} FinalizeNoDelay(s: Sys, a: Action)
    requires Inv(s) && OnlyFailureNotices(s) && Enabled(s, a) && a.Finalize?
    ensures OnlyFailureNotices(Apply(s, a))
  {
    var c := a.c;
    WithoutKeepsMatch(s, c);
    var ob, r := s.outbound[c.outboundId], s.rcpts[c.id];
    var s', reports := Apply(s, a), Reports(c, ob, a.outcome, a.now, a.dsnOk);
    NoDelayReport(c, ob, a.outcome, a.now, a.dsnOk);
    assert s'.rcpts == s.rcpts[c.id := FinalizedRow(r, c, ob, a.outcome, a.now, a.jitter)] && s'.dsns == s.dsns + reports;
  }

  lemma {:induction false} NoDelayReport(c: ClaimedRcpt, ob: Outbound, outcome: Outcome, now: int, dsnOk: bool)
    requires c.dsnNotify == "FAILURE"
    ensures forall k :: 0 <= k < |Reports(c, ob, outcome, now, dsnOk)| ==> Reports(c, ob, outcome, now, dsnOk)[k].action.DsnFailed?
  {
    FailureIsNotDelay();
  }

  lemma {:induction false} QuietStep(s: Sys, a: Action)
    requires Inv(s) && OnlyFailureNotices(s) && Enabled(s, a) && !a.Finalize?
    ensures OnlyFailureNotices(Apply(s, a))
  {
    var s' := Apply(s, a);
    forall i: nat | i < |s.rcpts| ensures i < |s'.rcpts| && RowStep(s.rcpts[i], s'.rcpts[i]) { StepOnRow(s, a, i); }
  }
}
