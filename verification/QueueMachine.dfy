/** The outbound queue as a state machine: durable rows, the blob store, the
    memory of in-flight enqueues and of the single worker, and one action per
    committed change (crates/queue/src/enqueue.rs, worker.rs). */
module QueueMachine {
  import opened Text
  import opened Backoff
  import opened Classify
  import opened QueueTypes
  import opened RateLimit
  import Input

  const BATCH_SIZE: nat := 100
  const LEASE_TTL_SECS: int := 300

  /** An `enqueue` call that has written its blob. */
  datatype Spooled = Spooled(msg: NewOutbound, hash: string)

  /** The `enqueue` call that holds the connection and is inserting recipients:
      `done` of them so far, for message row `outboundId`. */
  datatype Insert = Insert(sp: Spooled, outboundId: nat, now: int, done: nat)

  /** The worker's cleanup between its query, which saw the first `mark` recipient
      rows and found no unfinished one with this content, and the removal. */
  datatype Doomed = Doomed(hash: string, mark: nat)

  datatype Sys = Sys(
    // durable
    outbound: seq<Outbound>, rcpts: seq<Rcpt>, blobs: set<string>, dsns: seq<Dsn>,
    // memory, lost in a crash
    spooled: multiset<Spooled>, insert: Option<Insert>, batch: seq<ClaimedRcpt>, doomed: Option<Doomed>)

  const EMPTY: Sys := Sys([], [], {}, [], multiset{}, None, [], None)

  /** Every statement commits on its own, so each is a step. All enqueues share one
      locked connection; the worker has its own. */
  datatype Action =
    | Spool(sp: Spooled)
    | Drop(sp: Spooled)              // a storage error before the message row
    | Open(sp: Spooled, now: int)    // the limits, then the message row
    | Add                            // the next recipient row
    | Abort                          // a storage error between recipient rows
    | Reap(now: int)
    | Expire(now: int)
    | Claim(now: int, ids: seq<nat>)
    | Release(c: ClaimedRcpt)
    | Finalize(c: ClaimedRcpt, outcome: Outcome, now: int, jitter: real, dsnOk: bool)
    | Query(outboundId: nat)         // is any recipient with this content unfinished?
    | Remove(ok: bool)               // if not, unlink the blob, unless that fails
    | Crash
  {
    predicate ByEnqueue() { Spool? || Drop? || Open? || Add? || Abort? }
  }

  // ------------------------------------------------------------------
  // Steps
  // ------------------------------------------------------------------

  predicate Due(r: Rcpt, now: int) { (r.state.Ready? || r.state.Deferred?) && r.nextAttemptAt <= now }

  /** The rows `claim_batch` picks: due, at most BATCH_SIZE, and none left out
      that is due earlier. The RETURNING order is the database's. */
  predicate IsBatch(rcpts: seq<Rcpt>, now: int, ids: seq<nat>) {
    && |ids| <= BATCH_SIZE
    && (forall k :: 0 <= k < |ids| ==> ids[k] < |rcpts| && Due(rcpts[ids[k]], now))
    && (forall j, k :: 0 <= j < k < |ids| ==> ids[j] != ids[k])
    && forall i :: 0 <= i < |rcpts| && Due(rcpts[i], now) && i !in ids ==>
         && |ids| == BATCH_SIZE
         && forall k :: 0 <= k < |ids| ==> rcpts[ids[k]].nextAttemptAt <= rcpts[i].nextAttemptAt
  }

  predicate Enabled(s: Sys, a: Action) {
    match a
    case Spool(sp) => ValidEnvelope(sp.msg)
    case Drop(sp) => sp in s.spooled
    case Open(sp, _) => sp in s.spooled && s.insert.None?
    case Add => s.insert.Some? && s.insert.value.done < |s.insert.value.sp.msg.recipients|
    case Abort => s.insert.Some?
    case Reap(_) => s.batch == [] && s.doomed.None?
    case Expire(_) => s.batch == [] && s.doomed.None?
    case Claim(now, ids) => s.batch == [] && s.doomed.None? && IsBatch(s.rcpts, now, ids)
    case Release(c) => c in s.batch && s.doomed.None?
    case Finalize(c, _, _, jitter, _) => c in s.batch && s.doomed.None? && JitterInRange(jitter)
    case Query(outboundId) => outboundId < |s.outbound| && s.doomed.None?
    case Remove(_) => true
    case Crash => true
  }

  function NewRcpt(outboundId: nat, address: string, now: int): Rcpt {
    Rcpt(outboundId, address, Lower(Input.AfterLastAt(address)), "FAILURE",
         Ready, 0, now, 0, Report(None, None, ""), false)
  }

  function NewRcpts(outboundId: nat, addresses: seq<string>, now: int): (rows: seq<Rcpt>)
    ensures |rows| == |addresses|
  {
    seq(|addresses|, i requires 0 <= i < |addresses| => NewRcpt(outboundId, addresses[i], now))
  }

  function NewRow(sp: Spooled, now: int): Outbound {
    Outbound(sp.msg.accountId, sp.hash, sp.msg.envelopeFrom, now, now + MAX_LIFETIME_SECS, sp.msg.isDsn)
  }

  function ReapedRow(r: Rcpt, now: int): Rcpt {
    if r.state.Claimed? && r.claimedAt < now - LEASE_TTL_SECS then r.(state := Ready) else r
  }

  function ExpiredRow(outbound: seq<Outbound>, r: Rcpt, now: int): Rcpt {
    if (r.state.Ready? || r.state.Deferred?) && r.outboundId < |outbound| && outbound[r.outboundId].expiresAt < now
    then r.(state := Expired) else r
  }

  function ReapedRows(rcpts: seq<Rcpt>, now: int): (rows: seq<Rcpt>)
    ensures |rows| == |rcpts|
  {
    seq(|rcpts|, i requires 0 <= i < |rcpts| => ReapedRow(rcpts[i], now))
  }

  function ExpiredRows(outbound: seq<Outbound>, rcpts: seq<Rcpt>, now: int): (rows: seq<Rcpt>)
    ensures |rows| == |rcpts|
  {
    seq(|rcpts|, i requires 0 <= i < |rcpts| => ExpiredRow(outbound, rcpts[i], now))
  }

  function ClaimedRows(rcpts: seq<Rcpt>, ids: seq<nat>, now: int): (rows: seq<Rcpt>)
    ensures |rows| == |rcpts|
  {
    seq(|rcpts|, i requires 0 <= i < |rcpts| =>
      if i in ids then rcpts[i].(state := Claimed, claimedAt := now) else rcpts[i])
  }

  function Snapshot(id: nat, r: Rcpt): ClaimedRcpt {
    ClaimedRcpt(id, r.outboundId, r.rcptTo, r.domain, r.dsnNotify, r.attempts, r.delayedDsnSent)
  }

  function Snapshots(rcpts: seq<Rcpt>, ids: seq<nat>): (batch: seq<ClaimedRcpt>)
    requires forall k :: 0 <= k < |ids| ==> ids[k] < |rcpts|
    ensures |batch| == |ids|
  {
    seq(|ids|, k requires 0 <= k < |ids| => Snapshot(ids[k], rcpts[ids[k]]))
  }

  function Without(batch: seq<ClaimedRcpt>, id: nat): seq<ClaimedRcpt> {
    if batch == [] then []
    else if batch[0].id == id then Without(batch[1..], id)
    else [batch[0]] + Without(batch[1..], id)
  }

  function NextState(c: ClaimedRcpt, ob: Outbound, outcome: Outcome, now: int): RcptState {
    match outcome
    case Delivered => RcptState.Delivered
    case Permanent(_) => Failed
    case Transient(_) => if now >= ob.expiresAt then Expired else Deferred
  }

  predicate MentionsDelay(notify: string) {
    |notify| >= 5 && (notify[..5] == "DELAY" || MentionsDelay(notify[1..]))
  }

  /** "Still trying" is reported once, after half an hour, if asked for. */
  predicate DelayReportDue(c: ClaimedRcpt, ob: Outbound, outcome: Outcome, now: int) {
    && NextState(c, ob, outcome, now).Deferred?
    && !c.delayedDsnSent
    && MentionsDelay(c.dsnNotify)
    && now - ob.createdAt >= DELAYED_DSN_THRESHOLD_SECS
  }

  /** The loop guards of `maybe_send_dsn`. */
  predicate MayReport(c: ClaimedRcpt, ob: Outbound) {
    ob.envelopeFrom != "" && !ob.isDsn && c.dsnNotify != "NEVER"
  }

  /** The notifications one `finalize` hands to local delivery; `dsnOk` is false
      when building or storing the notification failed. */
  function Reports(c: ClaimedRcpt, ob: Outbound, outcome: Outcome, now: int, dsnOk: bool): seq<Dsn> {
    var st := NextState(c, ob, outcome, now);
    if !dsnOk || !MayReport(c, ob) then []
    else if st.IsTerminal() && !st.Delivered? then [Dsn(c.id, DsnFailed)]
    else if DelayReportDue(c, ob, outcome, now) then [Dsn(c.id, DsnDelayed)]
    else []
  }

  function FinalizedRow(r: Rcpt, c: ClaimedRcpt, ob: Outbound, outcome: Outcome, now: int, jitter: real): Rcpt
    requires JitterInRange(jitter)
  {
    var st := NextState(c, ob, outcome, now);
    r.(state := st,
       nextAttemptAt := if st.Deferred? then now + NextDelaySecs(c.attempts + 1, jitter) else now,
       attempts := r.attempts + if outcome.Delivered? then 0 else 1,
       last := if outcome.Delivered? then Report(None, None, "") else outcome.report,
       delayedDsnSent := r.delayedDsnSent || DelayReportDue(c, ob, outcome, now))
  }

  /** No recipient of any message with this content is still unfinished. */
  predicate NoActiveReference(outbound: seq<Outbound>, rcpts: seq<Rcpt>, hash: string) {
    forall i :: 0 <= i < |rcpts| && rcpts[i].outboundId < |outbound| && outbound[rcpts[i].outboundId].blob == hash
      ==> rcpts[i].state.IsTerminal()
  }

  function Apply(s: Sys, a: Action): Sys
    requires Enabled(s, a)
  {
    match a
    case Spool(sp) => s.(blobs := s.blobs + {sp.hash}, spooled := s.spooled + multiset{sp})
    case Drop(sp) => s.(spooled := s.spooled - multiset{sp})
    case Open(sp, now) => Opened(s.(spooled := s.spooled - multiset{sp}), sp, now)
    case Add => Added(s, s.insert.value)
    case Abort => s.(insert := None)
    case Reap(now) => s.(rcpts := ReapedRows(s.rcpts, now))
    case Expire(now) => s.(rcpts := ExpiredRows(s.outbound, s.rcpts, now))
    case Claim(now, ids) =>
      s.(rcpts := ClaimedRows(s.rcpts, ids, now), batch := Snapshots(s.rcpts, ids))
    case Release(c) =>
      var s := s.(batch := Without(s.batch, c.id));
      if c.id < |s.rcpts| then s.(rcpts := s.rcpts[c.id := s.rcpts[c.id].(state := Ready)]) else s
    case Finalize(c, outcome, now, jitter, dsnOk) =>
      var s := s.(batch := Without(s.batch, c.id));
      if c.id < |s.rcpts| && c.outboundId < |s.outbound| then
        var ob := s.outbound[c.outboundId];
        s.(rcpts := s.rcpts[c.id := FinalizedRow(s.rcpts[c.id], c, ob, outcome, now, jitter)],
           dsns := s.dsns + Reports(c, ob, outcome, now, dsnOk))
      else s
    case Query(outboundId) =>
      var hash := s.outbound[outboundId].blob;
      if NoActiveReference(s.outbound, s.rcpts, hash) then s.(doomed := Some(Doomed(hash, |s.rcpts|))) else s
    case Remove(ok) =>
      if s.doomed.Some? && ok then s.(blobs := s.blobs - {s.doomed.value.hash}, doomed := None) else s.(doomed := None)
    case Crash => s.(spooled := multiset{}, insert := None, batch := [], doomed := None)
  }

  /** The rate limit decides whether the message row is written. */
  function Opened(s: Sys, sp: Spooled, now: int): Sys {
    if WithinLimits(s.outbound, s.rcpts, sp.msg, now)
    then s.(outbound := s.outbound + [NewRow(sp, now)], insert := Some(Insert(sp, |s.outbound|, now, 0)))
    else s
  }

  /** The last recipient ends the enqueue. */
  function Added(s: Sys, ins: Insert): Sys
    requires ins.done < |ins.sp.msg.recipients|
  {
    s.(rcpts := s.rcpts + [NewRcpt(ins.outboundId, ins.sp.msg.recipients[ins.done], ins.now)],
       insert := if ins.done + 1 == |ins.sp.msg.recipients| then None else Some(ins.(done := ins.done + 1)))
  }

  // ------------------------------------------------------------------
  // Runs: any interleaving of enqueues, the worker and crashes
  // ------------------------------------------------------------------

  ghost predicate Legal(s: Sys, run: seq<Action>)
    decreases |run|
  {
    run == [] || (Enabled(s, run[0]) && Legal(Apply(s, run[0]), run[1..]))
  }

  ghost function After(s: Sys, run: seq<Action>): Sys
    requires Legal(s, run)
    decreases |run|
  {
    if run == [] then s else After(Apply(s, run[0]), run[1..])
  }

  lemma {:induction false} Extend(s: Sys, run: seq<Action>, a: Action)
    requires Legal(s, run) && Enabled(After(s, run), a)
    ensures Legal(s, run + [a]) && After(s, run + [a]) == Apply(After(s, run), a)
    decreases |run|
  {
    if run == [] {
      assert [a][1..] == [];
      assert run + [a] == [a];
    } else {
      Extend(Apply(s, run[0]), run[1..], a);
      assert (run + [a])[1..] == run[1..] + [a];
    }
  }

  lemma {:induction false} Concat(s: Sys, run: seq<Action>, rest: seq<Action>)
    requires Legal(s, run) && Legal(After(s, run), rest)
    ensures Legal(s, run + rest) && After(s, run + rest) == After(After(s, run), rest)
    decreases |run|
  {
    if run == [] {
      assert run + rest == rest;
    } else {
      var s1, later, all := Apply(s, run[0]), run[1..], run + rest;
      assert all[0] == run[0] && all[1..] == later + rest;
      Concat(s1, later, rest);
      assert Legal(s, all) && After(s, all) == After(s1, later + rest);
    }
  }

  // ------------------------------------------------------------------
  // The structural invariant
  // ------------------------------------------------------------------

  ghost predicate RefsValid(s: Sys) {
    forall i :: 0 <= i < |s.rcpts| ==> s.rcpts[i].outboundId < |s.outbound|
  }

  /** What the worker remembers is still what the rows say. */
  ghost predicate BatchMatchesRows(s: Sys) {
    && (forall k :: 0 <= k < |s.batch| ==>
          && s.batch[k].id < |s.rcpts|
          && s.rcpts[s.batch[k].id].state.Claimed?
          && s.batch[k] == Snapshot(s.batch[k].id, s.rcpts[s.batch[k].id]))
    && forall j, k :: 0 <= j < k < |s.batch| ==> s.batch[j].id != s.batch[k].id
  }

  /** The message being inserted is the last one. */
  ghost predicate InsertValid(s: Sys) {
    s.insert.Some? ==>
      var ins := s.insert.value;
      && |s.outbound| == ins.outboundId + 1 && s.outbound[ins.outboundId] == NewRow(ins.sp, ins.now)
      && ins.done < |ins.sp.msg.recipients| && ValidEnvelope(ins.sp.msg)
  }

  ghost predicate HasContent(s: Sys, i: nat, hash: string)
    requires i < |s.rcpts|
  {
    s.rcpts[i].outboundId < |s.outbound| && s.outbound[s.rcpts[i].outboundId].blob == hash
  }

  /** Since the cleanup's query, rows were only added. */
  ghost predicate DoomedValid(s: Sys) {
    s.doomed.Some? ==>
      && s.doomed.value.mark <= |s.rcpts|
      && (forall i: nat :: i < s.doomed.value.mark && HasContent(s, i, s.doomed.value.hash) ==> s.rcpts[i].state.IsTerminal())
      && (forall i: nat :: s.doomed.value.mark <= i < |s.rcpts| ==> s.rcpts[i].state.Ready?)
  }

  ghost predicate SpooledValid(s: Sys) { forall sp :: sp in s.spooled ==> ValidEnvelope(sp.msg) }

  ghost predicate Inv(s: Sys) {
    RefsValid(s) && BatchMatchesRows(s) && InsertValid(s) && DoomedValid(s) && SpooledValid(s)
  }

  lemma {:induction false} WithoutElements(batch: seq<ClaimedRcpt>, id: nat)
    requires forall j, k :: 0 <= j < k < |batch| ==> batch[j].id != batch[k].id
    ensures forall c :: c in Without(batch, id) <==> c in batch && c.id != id
    ensures forall j, k :: 0 <= j < k < |Without(batch, id)| ==> Without(batch, id)[j].id != Without(batch, id)[k].id
  {
    if batch == [] {
    } else {
      WithoutElements(batch[1..], id);
      var w := Without(batch[1..], id);
      assert batch == [batch[0]] + batch[1..];
      forall k | 0 <= k < |w| ensures w[k].id != batch[0].id {
        assert w[k] in batch[1..];
      }
    }
  }

  lemma {:induction false} StepKeepsInv(s: Sys, a: Action)
    requires Inv(s) && Enabled(s, a)
    ensures Inv(Apply(s, a))
  {
    if a.Release? || a.Finalize? {
      HandledKeepsInv(s, a);
    } else if a.ByEnqueue() {
      EnqueueKeepsInv(s, a);
    } else if a.Reap? || a.Expire? || a.Claim? {
      SweepKeepsInv(s, a);
    } else {
      CleanupKeepsInv(s, a);
    }
  }

  lemma {:induction false} HandledKeepsInv(s: Sys, a: Action)
    requires Inv(s) && Enabled(s, a) && (a.Release? || a.Finalize?)
    ensures Inv(Apply(s, a))
  {
    WithoutKeepsMatch(s, a.c);
  }

  lemma {:induction false} EnqueueKeepsInv(s: Sys, a: Action)
    requires Inv(s) && Enabled(s, a) && a.ByEnqueue()
    ensures Inv(Apply(s, a))
  {
    var s' := Apply(s, a);
    assert s'.batch == s.batch && s'.doomed == s.doomed;
    assert s.rcpts <= s'.rcpts && s.outbound <= s'.outbound;
    if s.doomed.Some? {
      forall i: nat | i < s.doomed.value.mark && HasContent(s', i, s.doomed.value.hash) ensures s'.rcpts[i].state.IsTerminal() {
        assert HasContent(s, i, s.doomed.value.hash);
      }
    }
  }

  lemma {:induction false} SweepKeepsInv(s: Sys, a: Action)
    requires Inv(s) && Enabled(s, a) && (a.Reap? || a.Expire? || a.Claim?)
    ensures Inv(Apply(s, a))
  {
  }

  lemma {:induction false} CleanupKeepsInv(s: Sys, a: Action)
    requires Inv(s) && Enabled(s, a) && (a.Query? || a.Remove? || a.Crash?)
    ensures Inv(Apply(s, a))
  {
  }

  /** Taking one recipient out of memory leaves rows of the others untouched. */
  lemma {:induction false} WithoutKeepsMatch(s: Sys, c: ClaimedRcpt)
    requires Inv(s) && c in s.batch
    ensures c.id < |s.rcpts| && c.outboundId < |s.outbound|
    ensures forall k :: 0 <= k < |Without(s.batch, c.id)| ==>
      Without(s.batch, c.id)[k] in s.batch && Without(s.batch, c.id)[k].id != c.id
    ensures forall j, k :: 0 <= j < k < |Without(s.batch, c.id)| ==>
      Without(s.batch, c.id)[j].id != Without(s.batch, c.id)[k].id
  {
    WithoutElements(s.batch, c.id);
    var w := Without(s.batch, c.id);
    forall k | 0 <= k < |w| ensures w[k] in s.batch && w[k].id != c.id { assert w[k] in w; }
  }

  lemma {:induction false} RunKeepsInv(s: Sys, run: seq<Action>)
    requires Inv(s) && Legal(s, run)
    ensures Inv(After(s, run))
    decreases |run|
  {
    if run == [] {
    } else {
      StepKeepsInv(s, run[0]);
      RunKeepsInv(Apply(s, run[0]), run[1..]);
    }
  }
}
