/** How long the queue keeps trying, and what it reports. */
module QueueRetries {
  import opened Text
  import opened Backoff
  import opened Classify
  import opened QueueTypes
  import opened QueueMachine
  import opened QueueSafety

  const MAX_DEFERRALS: int := 23

  // ------------------------------------------------------------------
  // Runs under a clock that never goes backwards
  // ------------------------------------------------------------------

  /** The worker reads the clock at each of these. An enqueue reads it before it
      waits for the connection, so its time is not constrained. */
  function Tick(a: Action, clock: int): int {
    match a
    case Reap(now) => now
    case Expire(now) => now
    case Claim(now, _) => now
    case Finalize(_, _, now, _, _) => now
    case _ => clock
  }

  ghost predicate Clocked(run: seq<Action>, clock: int) {
    run == [] || (clock <= Tick(run[0], clock) && Clocked(run[1..], Tick(run[0], clock)))
  }

  ghost predicate Lifetimes(s: Sys) {
    forall k :: 0 <= k < |s.outbound| ==> s.outbound[k].expiresAt == s.outbound[k].createdAt + MAX_LIFETIME_SECS
  }

  ghost predicate RowOnSchedule(r: Rcpt, ob: Outbound, clock: int) {
    && 0 <= r.attempts <= MAX_DEFERRALS + 1
    && (!r.state.IsTerminal() ==>
          && r.attempts <= MAX_DEFERRALS
          && ob.createdAt + ShortestWait(r.attempts) <= r.nextAttemptAt)
    && (r.state.Claimed? ==> r.nextAttemptAt <= clock)
  }

  ghost predicate OnSchedule(s: Sys, clock: int) {
    && Lifetimes(s)
    && forall i :: 0 <= i < |s.rcpts| && s.rcpts[i].outboundId < |s.outbound| ==>
         RowOnSchedule(s.rcpts[i], s.outbound[s.rcpts[i].outboundId], clock)
  }

  /** One finalize of a claimed row: a deferral is possible only while the
      message is alive, so only if it was one of the first 22 tries before. */
  lemma {:induction false} FinalizeOnSchedule(r: Rcpt, c: ClaimedRcpt, ob: Outbound, outcome: Outcome, now: int, jitter: real, clock: int)
    requires RowOnSchedule(r, ob, clock) && r.state.Claimed? && c.attempts == r.attempts
    requires ob.expiresAt == ob.createdAt + MAX_LIFETIME_SECS && clock <= now && JitterInRange(jitter)
    ensures RowOnSchedule(FinalizedRow(r, c, ob, outcome, now, jitter), ob, now)
  {
    if NextState(c, ob, outcome, now).Deferred? {
      OnlyTwentyTwoRetriesFit(r.attempts);
      assert ShortestWait(r.attempts + 1) == ShortestWait(r.attempts) + ShortestDelay(r.attempts + 1);
    }
  }

  lemma {:induction false} FinalizeStepOnSchedule(s: Sys, a: Action, clock: int)
    requires Inv(s) && Enabled(s, a) && OnSchedule(s, clock) && clock <= Tick(a, clock) && a.Finalize?
    ensures OnSchedule(Apply(s, a), a.now)
  {
    var c := a.c;
    WithoutKeepsMatch(s, c);
    var ob, s' := s.outbound[c.outboundId], Apply(s, a);
    assert RowOnSchedule(s.rcpts[c.id], ob, clock);
    FinalizeOnSchedule(s.rcpts[c.id], c, ob, a.outcome, a.now, a.jitter, clock);
    forall i | 0 <= i < |s.rcpts| && i != c.id ensures s'.rcpts[i] == s.rcpts[i] {}
  }

  lemma {:induction false} StepOnSchedule(s: Sys, a: Action, clock: int)
    requires Inv(s) && Enabled(s, a) && OnSchedule(s, clock) && clock <= Tick(a, clock)
    ensures OnSchedule(Apply(s, a), Tick(a, clock))
  {
    if a.Finalize? {
      FinalizeStepOnSchedule(s, a, clock);
    } else if a.ByEnqueue() {
      EnqueueOnSchedule(s, a, clock);
    } else {
      RestOnSchedule(s, a, clock);
    }
  }

  lemma {:induction false} EnqueueOnSchedule(s: Sys, a: Action, clock: int)
    requires Inv(s) && Enabled(s, a) && OnSchedule(s, clock) && a.ByEnqueue()
    ensures OnSchedule(Apply(s, a), clock)
  {
    var s' := Apply(s, a);
    assert s.outbound <= s'.outbound && s.rcpts <= s'.rcpts;
    forall i | 0 <= i < |s'.rcpts| && s'.rcpts[i].outboundId < |s'.outbound|
      ensures RowOnSchedule(s'.rcpts[i], s'.outbound[s'.rcpts[i].outboundId], clock)
    {
      if i < |s.rcpts| { assert RowOnSchedule(s.rcpts[i], s.outbound[s.rcpts[i].outboundId], clock); }
    }
  }

  lemma {:induction false} RestOnSchedule(s: Sys, a: Action, clock: int)
    requires Inv(s) && Enabled(s, a) && OnSchedule(s, clock) && clock <= Tick(a, clock) && !a.Finalize? && !a.ByEnqueue()
    ensures OnSchedule(Apply(s, a), Tick(a, clock))
  {
    if a.Release? { WithoutKeepsMatch(s, a.c); }
    var s' := Apply(s, a);
    assert s'.outbound == s.outbound && |s'.rcpts| == |s.rcpts|;
    forall i | 0 <= i < |s'.rcpts| ensures RowOnSchedule(s'.rcpts[i], s'.outbound[s'.rcpts[i].outboundId], Tick(a, clock)) {
      assert RowOnSchedule(s.rcpts[i], s.outbound[s.rcpts[i].outboundId], clock);
    }
  }

  /** For every jitter and every clock that never goes backwards, no row is
      retried beyond 23 deferrals and `attempts` never exceeds 24. */
  lemma {:induction false} AttemptsBounded(s: Sys, run: seq<Action>, clock: int)
    requires Inv(s) && Legal(s, run) && Clocked(run, clock) && OnSchedule(s, clock)
    ensures RefsValid(After(s, run))
    ensures forall i :: 0 <= i < |After(s, run).rcpts| ==>
      && After(s, run).rcpts[i].attempts <= MAX_DEFERRALS + 1
      && (!After(s, run).rcpts[i].state.IsTerminal() ==> After(s, run).rcpts[i].attempts <= MAX_DEFERRALS)
    decreases |run|
  {
    if run == [] {
      forall i | 0 <= i < |s.rcpts| ensures RowOnSchedule(s.rcpts[i], s.outbound[s.rcpts[i].outboundId], clock) {}
    } else {
      StepOnSchedule(s, run[0], clock);
      StepKeepsInv(s, run[0]);
      AttemptsBounded(Apply(s, run[0]), run[1..], Tick(run[0], clock));
    }
  }

  /** How often row i is put back for a retry during a run. */
  ghost function Deferrals(s: Sys, run: seq<Action>, i: nat): nat
    requires Legal(s, run)
    decreases |run|
  {
    if run == [] then 0
    else
      Deferrals(Apply(s, run[0]), run[1..], i) + if Defers(s, run[0], i) then 1 else 0
  }

  ghost predicate Defers(s: Sys, a: Action, i: nat)
    requires Enabled(s, a)
  {
    i < |s.rcpts| && i < |Apply(s, a).rcpts| && s.rcpts[i].state.Claimed? && Apply(s, a).rcpts[i].state.Deferred?
  }

  lemma {:induction false} DeferralCounts(s: Sys, a: Action, i: nat)
    requires Inv(s) && Enabled(s, a) && i < |s.rcpts| && i < |Apply(s, a).rcpts|
    requires s.rcpts[i].state.Claimed? && Apply(s, a).rcpts[i].state.Deferred?
    ensures Apply(s, a).rcpts[i].attempts == s.rcpts[i].attempts + 1
  {
    if a.Finalize? || a.Release? { WithoutKeepsMatch(s, a.c); }
  }

  /** No recipient, present at the start or inserted during the run, is deferred more
      than 23 times. */
  lemma {:induction false} DeferralsBounded(s: Sys, run: seq<Action>, clock: int, i: nat)
    requires Inv(s) && Legal(s, run) && Clocked(run, clock) && OnSchedule(s, clock)
    ensures Deferrals(s, run, i) <= DeferralsLeft(s, i) <= MAX_DEFERRALS
    decreases |run|
  {
    DeferralsLeftBounded(s, clock, i);
    if run == [] {
    } else {
      var s' := Apply(s, run[0]);
      StepOnSchedule(s, run[0], clock);
      StepKeepsInv(s, run[0]);
      DeferralsBounded(s', run[1..], Tick(run[0], clock), i);
      StepOnDeferrals(s, run[0], i);
    }
  }

  /** What a row's attempts leave it; an absent row may still come. */
  ghost function DeferralsLeft(s: Sys, i: nat): int {
    if i >= |s.rcpts| then MAX_DEFERRALS
    else if s.rcpts[i].state.IsTerminal() then 0
    else MAX_DEFERRALS - s.rcpts[i].attempts
  }

  lemma {:induction false} DeferralsLeftBounded(s: Sys, clock: int, i: nat)
    requires Inv(s) && OnSchedule(s, clock)
    ensures 0 <= DeferralsLeft(s, i) <= MAX_DEFERRALS
  {
    if i < |s.rcpts| { assert RowOnSchedule(s.rcpts[i], s.outbound[s.rcpts[i].outboundId], clock); }
  }

  lemma {:induction false} StepOnDeferrals(s: Sys, a: Action, i: nat)
    requires Inv(s) && Enabled(s, a) && 0 <= DeferralsLeft(s, i)
    ensures DeferralsLeft(Apply(s, a), i) + (if Defers(s, a, i) then 1 else 0) <= DeferralsLeft(s, i)
  {
    if i < |s.rcpts| {
      StepOnRow(s, a, i);
      if Defers(s, a, i) { DeferralCounts(s, a, i); }
    } else if i < |Apply(s, a).rcpts| {
      assert Apply(s, a).rcpts[i].attempts == 0;
    }
  }

  // ------------------------------------------------------------------
  // Every message ends: the first two statements of a pass
  // ------------------------------------------------------------------

  /** After `reap_stale_claims` at t1 and `expire_overdue` at t2, a recipient is
      finished exactly if it was before, or its message has expired and it is
      not held by a claim younger than the lease. */
  lemma {:induction false} PassFinishesExactly(s: Sys, t1: int, t2: int, i: nat)
    requires Inv(s) && s.batch == [] && s.doomed.None? && i < |s.rcpts|
    ensures Apply(Apply(s, Reap(t1)), Expire(t2)).rcpts[i].state.IsTerminal() <==>
      || s.rcpts[i].state.IsTerminal()
      || (&& s.outbound[s.rcpts[i].outboundId].expiresAt < t2
          && (s.rcpts[i].state.Claimed? ==> s.rcpts[i].claimedAt < t1 - LEASE_TTL_SECS))
  {
    var s1 := Apply(s, Reap(t1));
    assert s1.rcpts[i] == ReapedRow(s.rcpts[i], t1);
    assert Apply(s1, Expire(t2)).rcpts[i] == ExpiredRow(s.outbound, s1.rcpts[i], t2);
  }

  /** The recipient's message has expired and no young claim holds it. */
  ghost predicate Overdue(s: Sys, i: nat, reapAt: int, expireAt: int)
    requires i < |s.rcpts|
  {
    && s.rcpts[i].outboundId < |s.outbound| && s.outbound[s.rcpts[i].outboundId].expiresAt < expireAt
    && (s.rcpts[i].state.Claimed? ==> s.rcpts[i].claimedAt < reapAt - LEASE_TTL_SECS)
  }

  /** Whatever else the pass does, afterwards every overdue recipient is finished. */
  lemma {:induction false} PassFinishesOverdue(s: Sys, run: seq<Action>, reapAt: int, expireAt: int, i: nat)
    requires Inv(s) && s.batch == [] && s.doomed.None? && Legal(s, run)
    requires |run| >= 2 && run[0] == Reap(reapAt) && run[1] == Expire(expireAt)
    requires i < |s.rcpts| && Overdue(s, i, reapAt, expireAt)
    ensures i < |After(s, run).rcpts| && After(s, run).rcpts[i].state.IsTerminal()
  {
    var s1 := Apply(s, run[0]);
    var s2 := Apply(s1, run[1]);
    StepKeepsInv(s, run[0]);
    StepKeepsInv(s1, run[1]);
    PassFinishesExactly(s, reapAt, expireAt, i);
    assert run[1..][0] == run[1];
    RowsSurviveRuns(s2, run[1..][1..], i);
  }

  // ------------------------------------------------------------------
  // Notifications
  // ------------------------------------------------------------------

  function CountDsns(dsns: seq<Dsn>, d: Dsn): nat { multiset(dsns)[d] }

  /** At most one failure and one delay report per recipient, each tied to what
      the row says, and none against the loop guards. */
  ghost predicate ReportsSound(s: Sys) {
    && (forall k :: 0 <= k < |s.dsns| ==> s.dsns[k].rcpt < |s.rcpts| && ReportAllowed(s, s.dsns[k].rcpt))
    && forall i: nat :: i < |s.rcpts| ==>
         && CountDsns(s.dsns, Dsn(i, DsnFailed)) <= (if s.rcpts[i].state.Failed? || s.rcpts[i].state.Expired? then 1 else 0)
         && CountDsns(s.dsns, Dsn(i, DsnDelayed)) <= (if s.rcpts[i].delayedDsnSent then 1 else 0)
  }

  ghost predicate ReportAllowed(s: Sys, i: nat)
    requires i < |s.rcpts|
  {
    var r := s.rcpts[i];
    && r.outboundId < |s.outbound|
    && s.outbound[r.outboundId].envelopeFrom != ""
    && !s.outbound[r.outboundId].isDsn
    && r.dsnNotify != "NEVER"
  }

  lemma {:induction false} NoReportOfUnknown(s: Sys, d: Dsn)
    requires ReportsSound(s) && d.rcpt >= |s.rcpts|
    ensures CountDsns(s.dsns, d) == 0
  {
    assert d !in s.dsns;
  }

  lemma {:induction false} StepKeepsReports(s: Sys, a: Action)
    requires Inv(s) && Enabled(s, a) && ReportsSound(s)
    ensures ReportsSound(Apply(s, a))
  {
    var s' := Apply(s, a);
    if a.Finalize? {
      FinalizeKeepsReports(s, a);
    } else {
      forall i: nat | i < |s.rcpts| ensures i < |s'.rcpts| && RowStep(s.rcpts[i], s'.rcpts[i]) { StepOnRow(s, a, i); }
      assert s'.dsns == s.dsns && |s.outbound| <= |s'.outbound| && s'.outbound[..|s.outbound|] == s.outbound;
      SameReports(s, s');
    }
  }

  lemma {:induction false} SameReports(s: Sys, s': Sys)
    requires Inv(s) && ReportsSound(s) && s'.dsns == s.dsns && s.outbound <= s'.outbound && |s.rcpts| <= |s'.rcpts|
    requires forall i: nat :: i < |s.rcpts| ==> RowStep(s.rcpts[i], s'.rcpts[i])
    ensures ReportsSound(s')
  {
    forall k | 0 <= k < |s'.dsns| ensures ReportAllowed(s', s'.dsns[k].rcpt) {
      assert ReportAllowed(s, s.dsns[k].rcpt);
    }
    forall i: nat | |s.rcpts| <= i < |s'.rcpts|
      ensures CountDsns(s'.dsns, Dsn(i, DsnFailed)) == 0 && CountDsns(s'.dsns, Dsn(i, DsnDelayed)) == 0
    {
      NoReportOfUnknown(s, Dsn(i, DsnFailed));
      NoReportOfUnknown(s, Dsn(i, DsnDelayed));
    }
  }

  lemma {:induction false} FinalizeKeepsReports(s: Sys, a: Action)
    requires Inv(s) && Enabled(s, a) && ReportsSound(s) && a.Finalize?
    ensures ReportsSound(Apply(s, a))
  {
    var c := a.c;
    WithoutKeepsMatch(s, c);
    var ob, s' := s.outbound[c.outboundId], Apply(s, a);
    var r, r' := s.rcpts[c.id], FinalizedRow(s.rcpts[c.id], c, ob, a.outcome, a.now, a.jitter);
    assert s'.rcpts == s.rcpts[c.id := r'] && s'.outbound == s.outbound;
    assert s'.dsns == s.dsns + Reports(c, ob, a.outcome, a.now, a.dsnOk);
    AddedReports(s, s', a, r');
  }

  lemma {:induction false} AddedReports(s: Sys, s': Sys, a: Action, r': Rcpt)
    requires a.Finalize? && JitterInRange(a.jitter) && ReportsSound(s) && a.c.id < |s.rcpts| && a.c.outboundId < |s.outbound|
    requires s.rcpts[a.c.id].state.Claimed? && a.c == Snapshot(a.c.id, s.rcpts[a.c.id])
    requires r' == FinalizedRow(s.rcpts[a.c.id], a.c, s.outbound[a.c.outboundId], a.outcome, a.now, a.jitter)
    requires s'.rcpts == s.rcpts[a.c.id := r'] && s'.outbound == s.outbound
    requires s'.dsns == s.dsns + Reports(a.c, s.outbound[a.c.outboundId], a.outcome, a.now, a.dsnOk)
    ensures ReportsSound(s')
  {
    var c, ob := a.c, s.outbound[a.c.outboundId];
    forall k | 0 <= k < |s'.dsns| ensures s'.dsns[k].rcpt < |s'.rcpts| && ReportAllowed(s', s'.dsns[k].rcpt) {
      if k < |s.dsns| { assert ReportAllowed(s, s.dsns[k].rcpt); }
    }
    forall i: nat | i < |s'.rcpts|
      ensures CountDsns(s'.dsns, Dsn(i, DsnFailed)) <= (if s'.rcpts[i].state.Failed? || s'.rcpts[i].state.Expired? then 1 else 0)
      ensures CountDsns(s'.dsns, Dsn(i, DsnDelayed)) <= (if s'.rcpts[i].delayedDsnSent then 1 else 0)
    {
      ReportsCount(s.dsns, c, ob, a, Dsn(i, DsnFailed));
      ReportsCount(s.dsns, c, ob, a, Dsn(i, DsnDelayed));
    }
  }

  /** A finalize adds a report exactly for the recipient it finished or delayed. */
  lemma {:induction false} ReportsCount(dsns: seq<Dsn>, c: ClaimedRcpt, ob: Outbound, a: Action, d: Dsn)
    requires a.Finalize?
    ensures CountDsns(dsns + Reports(c, ob, a.outcome, a.now, a.dsnOk), d) == CountDsns(dsns, d)
      + if d in Reports(c, ob, a.outcome, a.now, a.dsnOk) then 1 else 0
  {
    var new' := Reports(c, ob, a.outcome, a.now, a.dsnOk);
    assert multiset(dsns + new') == multiset(dsns) + multiset(new');
  }

  /** Over every run, each recipient causes at most one failure report and at
      most one delay report, and none for a null sender, a bounce or NEVER. */
  lemma {:induction false} ReportsAtMostOnce(s: Sys, run: seq<Action>)
    requires Inv(s) && Legal(s, run) && ReportsSound(s)
    ensures ReportsSound(After(s, run))
    ensures forall d: Dsn :: CountDsns(After(s, run).dsns, d) <= 1
    decreases |run|
  {
    if run == [] {
      forall d: Dsn ensures CountDsns(s.dsns, d) <= 1 {
        if d.rcpt >= |s.rcpts| {
          NoReportOfUnknown(s, d);
        } else {
          match d.action
          case DsnFailed => assert d == Dsn(d.rcpt, DsnFailed);
          case DsnDelayed => assert d == Dsn(d.rcpt, DsnDelayed);
        }
      }
    } else {
      StepKeepsReports(s, run[0]);
      StepKeepsInv(s, run[0]);
      ReportsAtMostOnce(Apply(s, run[0]), run[1..]);
    }
  }
}
