/** What a recipient row says is what happened: over every interleaving of enqueues,
    the worker and crashes, its columns and its failure report are determined by the
    decisions the run took about it. */
module QueueHistory {
  import opened Text
  import opened Backoff
  import opened Classify
  import opened QueueTypes
  import opened QueueMachine
  import opened QueueSafety
  import opened QueueRetries
  import Input

  // ------------------------------------------------------------------
  // The decisions of a run
  // ------------------------------------------------------------------

  predicate Decides(a: Action, i: nat) { a.Finalize? && a.c.id == i }

  /** The last decision about recipient i. */
  function LastDecision(run: seq<Action>, i: nat): Option<Action> {
    if run == [] then None
    else if Decides(run[|run| - 1], i) then Some(run[|run| - 1])
    else LastDecision(run[..|run| - 1], i)
  }

  /** How many attempts at recipient i did not deliver. */
  function Failures(run: seq<Action>, i: nat): nat {
    if run == [] then 0
    else Failures(run[..|run| - 1], i) + if Decides(run[|run| - 1], i) && !run[|run| - 1].outcome.Delivered? then 1 else 0
  }

  lemma {:induction false} OneMoreStep(run: seq<Action>, a: Action, i: nat)
    ensures LastDecision(run + [a], i) == if Decides(a, i) then Some(a) else LastDecision(run, i)
    ensures Failures(run + [a], i) == Failures(run, i) + if Decides(a, i) && !a.outcome.Delivered? then 1 else 0
  {
    assert (run + [a])[..|run|] == run;
  }

  lemma {:induction false} DecisionDecides(run: seq<Action>, i: nat)
    ensures LastDecision(run, i).Some? ==> LastDecision(run, i).value in run && Decides(LastDecision(run, i).value, i)
    ensures LastDecision(run, i).None? ==> Failures(run, i) == 0
  {
    if run == [] {
    } else {
      DecisionDecides(run[..|run| - 1], i);
    }
  }

  // ------------------------------------------------------------------
  // What a row should say
  // ------------------------------------------------------------------

  /** The domain is the lower-cased text after the address's only '@'. */
  ghost predicate Addressed(r: Rcpt) {
    r.dsnNotify == "FAILURE" && exists local, d :: r.rcptTo == local + ['@'] + d && '@' !in local + d && r.domain == Lower(d)
  }

  /** No attempt has ended yet: the row still says what `enqueue` wrote. */
  ghost predicate Untried(r: Rcpt, ob: Outbound) {
    && (r.state.Ready? || r.state.Claimed? || r.state.Expired?)
    && r.nextAttemptAt == ob.createdAt && r.last == Report(None, None, "")
  }

  /** The decision gives up on the recipient. */
  predicate GivesUp(a: Action, ob: Outbound)
    requires a.Finalize?
  {
    a.outcome.Permanent? || (a.outcome.Transient? && ob.expiresAt <= a.now)
  }

  /** Decision a was the last. */
  ghost predicate Tried(r: Rcpt, ob: Outbound, a: Action)
    requires a.Finalize?
  {
    && (r.state.Delivered? <==> a.outcome.Delivered?)
    && (r.state.Failed? <==> a.outcome.Permanent?)
    && (GivesUp(a, ob) && !a.outcome.Permanent? ==> r.state.Expired?)
    && r.last == (if a.outcome.Delivered? then Report(None, None, "") else a.outcome.report)
    && (a.outcome.Transient? && !GivesUp(a, ob) ==>
          JitterInRange(a.jitter) && r.nextAttemptAt == a.now + NextDelaySecs(r.attempts, a.jitter))
  }

  /** The sender is told of decision a. */
  predicate TellsSender(a: Action, ob: Outbound)
    requires a.Finalize?
  {
    GivesUp(a, ob) && a.dsnOk && ob.envelopeFrom != "" && !ob.isDsn
  }

  ghost predicate Told(s: Sys, run: seq<Action>, i: nat)
    requires i < |s.rcpts|
  {
    var r := s.rcpts[i];
    && r.outboundId < |s.outbound| && Addressed(r)
    && r.attempts == Failures(run, i)
    && match LastDecision(run, i)
       case None => Untried(r, s.outbound[r.outboundId]) && Dsn(i, DsnFailed) !in s.dsns
       case Some(a) =>
         && a.Finalize? && Tried(r, s.outbound[r.outboundId], a)
         && (Dsn(i, DsnFailed) in s.dsns <==> TellsSender(a, s.outbound[r.outboundId]))
  }

  /** Decisions and reports are about rows that exist. */
  ghost predicate AboutRows(s: Sys, run: seq<Action>) {
    && (forall k :: 0 <= k < |run| && run[k].Finalize? ==> run[k].c.id < |s.rcpts|)
    && forall d :: d in s.dsns ==> d.rcpt < |s.rcpts|
  }

  ghost predicate AllTold(s: Sys, run: seq<Action>) {
    AboutRows(s, run) && forall i: nat :: i < |s.rcpts| ==> Told(s, run, i)
  }

  // ------------------------------------------------------------------
  // One more step
  // ------------------------------------------------------------------

  /** A step that does not decide about the row leaves what the decisions wrote. */
  ghost predicate Undisturbed(r: Rcpt, r': Rcpt) {
    && r'.Identity() == r.Identity() && r'.attempts == r.attempts
    && r'.nextAttemptAt == r.nextAttemptAt && r'.last == r.last
    && (r.state.IsTerminal() ==> r' == r)
    && !(r'.state.Deferred? && !r.state.Deferred?)
    && (r'.state.Delivered? || r'.state.Failed? ==> r' == r)
  }

  lemma {:induction false} OthersUndisturbed(s: Sys, a: Action, i: nat)
    requires Inv(s) && Enabled(s, a) && i < |s.rcpts| && !Decides(a, i)
    ensures i < |Apply(s, a).rcpts| && Undisturbed(s.rcpts[i], Apply(s, a).rcpts[i])
  {
    if a.Release? || a.Finalize? {
      WithoutKeepsMatch(s, a.c);
    } else if a.ByEnqueue() {
      EnqueueOnRow(s, a, i);
    } else {
      SweepUndisturbed(s, a, i);
    }
  }

  lemma {:induction false} SweepUndisturbed(s: Sys, a: Action, i: nat)
    requires Inv(s) && Enabled(s, a) && i < |s.rcpts| && !a.Release? && !a.Finalize? && !a.ByEnqueue()
    ensures i < |Apply(s, a).rcpts| && Undisturbed(s.rcpts[i], Apply(s, a).rcpts[i])
  {
  }

  lemma {:induction false} OthersUnreported(s: Sys, a: Action, i: nat)
    requires Inv(s) && Enabled(s, a) && !Decides(a, i)
    ensures Dsn(i, DsnFailed) in Apply(s, a).dsns <==> Dsn(i, DsnFailed) in s.dsns
  {
  }

  lemma {:induction false} StaysTold(s: Sys, run: seq<Action>, a: Action, i: nat)
    requires Inv(s) && Enabled(s, a) && i < |s.rcpts| && !Decides(a, i) && Told(s, run, i)
    ensures i < |Apply(s, a).rcpts| && Told(Apply(s, a), run + [a], i)
  {
    OneMoreStep(run, a, i);
    OthersUndisturbed(s, a, i);
    OthersUnreported(s, a, i);
    StepKeepsMessages(s, a);
    UndisturbedTold(s, Apply(s, a), run, i);
  }

  lemma {:induction false} UndisturbedTold(s: Sys, s': Sys, run: seq<Action>, i: nat)
    requires i < |s.rcpts| && i < |s'.rcpts| && Told(s, run, i)
    requires Undisturbed(s.rcpts[i], s'.rcpts[i]) && s.outbound <= s'.outbound
    requires Dsn(i, DsnFailed) in s'.dsns <==> Dsn(i, DsnFailed) in s.dsns
    ensures Told(s', run, i)
  {
    assert s'.outbound[s.rcpts[i].outboundId] == s.outbound[s.rcpts[i].outboundId];
  }

  /** The decision itself. */
  lemma {:induction false} NowTried(s: Sys, a: Action)
    requires Inv(s) && Enabled(s, a) && a.Finalize?
    ensures a.c.id < |s.rcpts| == |Apply(s, a).rcpts| && s.rcpts[a.c.id].state.Claimed?
    ensures var r, r' := s.rcpts[a.c.id], Apply(s, a).rcpts[a.c.id];
      && r'.Identity() == r.Identity() && r.outboundId < |s.outbound| && Tried(r', s.outbound[r.outboundId], a)
      && r'.attempts == r.attempts + if a.outcome.Delivered? then 0 else 1
  {
    WithoutKeepsMatch(s, a.c);
  }

  lemma {:induction false} NowReported(s: Sys, a: Action)
    requires Inv(s) && Enabled(s, a) && a.Finalize? && a.c.id < |s.rcpts| && s.rcpts[a.c.id].dsnNotify == "FAILURE"
    requires Dsn(a.c.id, DsnFailed) !in s.dsns
    ensures a.c.outboundId < |s.outbound| && a.c.outboundId == s.rcpts[a.c.id].outboundId
    ensures Dsn(a.c.id, DsnFailed) in Apply(s, a).dsns <==> TellsSender(a, s.outbound[a.c.outboundId])
  {
    WithoutKeepsMatch(s, a.c);
  }

  lemma {:induction false} NowTold(s: Sys, run: seq<Action>, a: Action)
    requires Inv(s) && Enabled(s, a) && a.Finalize? && a.c.id < |s.rcpts| && Told(s, run, a.c.id)
    ensures a.c.id < |Apply(s, a).rcpts| && Told(Apply(s, a), run + [a], a.c.id)
  {
    NowTried(s, a);
    NotYetReported(s, run, a.c.id);
    NowReported(s, a);
    StepKeepsMessages(s, a);
    OneMoreStep(run, a, a.c.id);
    DecidedTold(s, Apply(s, a), run, a);
  }

  lemma {:induction false} NotYetReported(s: Sys, run: seq<Action>, i: nat)
    requires i < |s.rcpts| && Told(s, run, i) && s.rcpts[i].state.Claimed?
    ensures Dsn(i, DsnFailed) !in s.dsns
  {
  }

  lemma {:induction false} DecidedTold(s: Sys, s': Sys, run: seq<Action>, a: Action)
    requires a.Finalize? && a.c.id < |s.rcpts| && a.c.id < |s'.rcpts| && Told(s, run, a.c.id) && s.outbound <= s'.outbound
    requires LastDecision(run + [a], a.c.id) == Some(a)
    requires Failures(run + [a], a.c.id) == Failures(run, a.c.id) + if a.outcome.Delivered? then 0 else 1
    requires var r, r' := s.rcpts[a.c.id], s'.rcpts[a.c.id];
      && r'.Identity() == r.Identity() && Tried(r', s.outbound[r.outboundId], a)
      && r'.attempts == r.attempts + (if a.outcome.Delivered? then 0 else 1)
      && (Dsn(a.c.id, DsnFailed) in s'.dsns <==> TellsSender(a, s.outbound[r.outboundId]))
    ensures Told(s', run + [a], a.c.id)
  {
    assert s'.outbound[s.rcpts[a.c.id].outboundId] == s.outbound[s.rcpts[a.c.id].outboundId];
  }

  /** The row `enqueue` inserts for one recipient. */
  lemma {:induction false} NewRowTold(s: Sys, run: seq<Action>)
    requires Inv(s) && s.insert.Some? && AboutRows(s, run)
    ensures Told(Apply(s, Add), run + [Add], |s.rcpts|)
  {
    var ins := s.insert.value;
    var address := ins.sp.msg.recipients[ins.done];
    Input.StoredDomainIsValid(address);
    assert Addressed(Apply(s, Add).rcpts[|s.rcpts|]);
    OneMoreStep(run, Add, |s.rcpts|);
    DecisionDecides(run, |s.rcpts|);
    assert Dsn(|s.rcpts|, DsnFailed) !in s.dsns;
  }

  lemma {:induction false} StepAboutRows(s: Sys, run: seq<Action>, a: Action)
    requires Inv(s) && Enabled(s, a) && AboutRows(s, run)
    ensures AboutRows(Apply(s, a), run + [a]) && |s.rcpts| <= |Apply(s, a).rcpts|
  {
    if a.Release? || a.Finalize? { WithoutKeepsMatch(s, a.c); }
  }

  lemma {:induction false} StepTold(s: Sys, run: seq<Action>, a: Action)
    requires Inv(s) && Enabled(s, a) && AllTold(s, run)
    ensures AllTold(Apply(s, a), run + [a])
  {
    var s' := Apply(s, a);
    StepAboutRows(s, run, a);
    RowsAfterStep(s, a);
    forall i: nat | i < |s'.rcpts| ensures Told(s', run + [a], i) {
      if i == |s.rcpts| {
        NewRowTold(s, run);
      } else if Decides(a, i) {
        NowTold(s, run, a);
      } else {
        StaysTold(s, run, a, i);
      }
    }
  }

  lemma {:induction false} RowsAfterStep(s: Sys, a: Action)
    requires Inv(s) && Enabled(s, a)
    ensures |Apply(s, a).rcpts| == |s.rcpts| + if a.Add? then 1 else 0
    ensures a.Finalize? ==> a.c.id < |s.rcpts| && s.rcpts[a.c.id].state.Claimed?
  {
  }

  // ------------------------------------------------------------------
  // Whole runs
  // ------------------------------------------------------------------

  lemma {:induction false} RunTold(s: Sys, before: seq<Action>, run: seq<Action>)
    requires Inv(s) && AllTold(s, before) && Legal(s, run)
    ensures AllTold(After(s, run), before + run)
    decreases |run|
  {
    if run == [] {
      assert before + run == before;
    } else {
      StepTold(s, before, run[0]);
      StepKeepsInv(s, run[0]);
      RunTold(Apply(s, run[0]), before + [run[0]], run[1..]);
      assert before + [run[0]] + run[1..] == before + run;
    }
  }

  /** After every run of the queue, from nothing: a recipient is delivered exactly if its
      last decision delivered, failed exactly if that was a permanent refusal, expired if
      it was a transient one past the lifetime; the attempts are the decisions that did not
      deliver, the report kept is the last one's, and a retry is due the scheduled
      delay after it. A recipient without a decision is as it was enqueued. The sender
      has a failure report, and only one, exactly if the last decision gave up, the report
      could be delivered, there is a sender and the message is not itself a report. */
  lemma {:induction false} HistoryDecides(run: seq<Action>, i: nat)
    requires Legal(EMPTY, run) && i < |After(EMPTY, run).rcpts|
    ensures Told(After(EMPTY, run), run, i)
    ensures CountDsns(After(EMPTY, run).dsns, Dsn(i, DsnFailed)) <= 1
  {
    RunTold(EMPTY, [], run);
    assert [] + run == run;
    ReportsAtMostOnce(EMPTY, run);
  }
}
