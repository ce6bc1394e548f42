/** The imperative queue: `enqueue` (crates/queue/src/enqueue.rs) and one pass of
    the worker's loop (crates/queue/src/worker.rs), proved to be runs of the
    state machine. */
module Worker {
  import opened Text
  import opened Backoff
  import opened Classify
  import opened QueueTypes
  import opened RateLimit
  import opened QueueMachine
  import opened QueueSafety
  import opened QueueRetries
  import opened Transport
  import Input
  import QueueHistory

  datatype EnqueueError = InvalidEnvelope | RateLimited

  class QueueStore {
    var outbound: seq<Outbound>
    var rcpts: seq<Rcpt>
    var blobs: set<string>
    var dsns: seq<Dsn>
    ghost var spooled: multiset<Spooled>
    ghost var insert: Option<Insert>

    ghost function State(batch: seq<ClaimedRcpt>): Sys
      reads this
    {
      Sys(outbound, rcpts, blobs, dsns, spooled, insert, batch, None)
    }

    constructor ()
      ensures State([]) == EMPTY
    {
      outbound, rcpts, blobs, dsns, spooled, insert := [], [], {}, [], multiset{}, None;
    }

    /** `hash` is the content address of the signed message; the connection is free.
        A refused message leaves its blob behind. */
    method Enqueue(msg: NewOutbound, hash: string, now: int) returns (r: Result<nat, EnqueueError>, ghost run: seq<Action>)
      requires Inv(State([])) && insert.None?
      modifies this
      ensures r.Ok? <==> ValidEnvelope(msg) && WithinLimits(old(outbound), old(rcpts), msg, now)
      ensures r == Err(InvalidEnvelope) <==>
        || (msg.envelopeFrom != "" && !Input.ValidEmailAddress(msg.envelopeFrom))
        || msg.recipients == [] || |msg.recipients| > 100
        || exists k :: 0 <= k < |msg.recipients| && !Input.ValidEmailAddress(msg.recipients[k])
      ensures r.Ok? && !msg.isDsn ==>
        && |Recent(old(outbound), msg.accountId, now - 3600)| < 200
        && |RecentRcpts(old(outbound), old(rcpts), msg.accountId, now - 3600)| + |msg.recipients| <= 500
      ensures r == Err(RateLimited) ==>
        && !msg.isDsn
        && (|| |Recent(old(outbound), msg.accountId, now - 3600)| >= 200
            || |RecentRcpts(old(outbound), old(rcpts), msg.accountId, now - 3600)| + |msg.recipients| > 500)
      ensures r.Ok? ==> r.value == |old(outbound)|
      ensures r.Ok? ==> outbound == old(outbound) + [Outbound(msg.accountId, hash, msg.envelopeFrom, now, now + 432000, msg.isDsn)]
      ensures r.Ok? ==> Inserted(old(rcpts), rcpts, |old(outbound)|, msg.recipients, now)
      ensures r.Err? ==> outbound == old(outbound) && rcpts == old(rcpts)
      ensures blobs == if r == Err(InvalidEnvelope) then old(blobs) else old(blobs) + {hash}
      ensures run == EnqueueRun(Spooled(msg, hash), now, r)
      ensures Legal(old(State([])), run) && State([]) == After(old(State([])), run) && insert.None?
    {
      run := [];
      if !ValidEnvelope(msg) {
        return Err(InvalidEnvelope), [];
      }
      ghost var s0 := State([]);
      var sp := Spooled(msg, hash);
      run := [Spool(sp), Open(sp, now)];
      SpoolThenOpen(s0, sp, now);
      FitsExactly(outbound, rcpts, msg, now);
      blobs := blobs + {hash};
      if !WithinLimits(outbound, rcpts, msg, now) {
        assert run == run + Adds(0);
        return Err(RateLimited), run;
      }
      var id := |outbound|;
      outbound := outbound + [NewRow(sp, now)];
      insert := Some(Insert(sp, id, now, 0));
      run := InsertRecipients(msg, id, now, s0, run, sp);
      r := Ok(id);
    }

    /** The loop over the recipients. */
    method InsertRecipients(msg: NewOutbound, id: nat, now: int, ghost s0: Sys, ghost run: seq<Action>, ghost sp: Spooled)
      returns (ghost run': seq<Action>)
      requires ValidEnvelope(msg) && sp.msg == msg && insert == Some(Insert(sp, id, now, 0))
      requires Reaches(s0, run, State([]))
      modifies `rcpts, `insert
      ensures run' == run + Adds(|msg.recipients|)
      ensures Inserted(old(rcpts), rcpts, id, msg.recipients, now)
      ensures Reaches(s0, run', State([])) && insert.None?
    {
      run' := run;
      ghost var rcpts0 := rcpts;
      NoneInserted(s0, State([]), sp, id, now, run);
      for k := 0 to |msg.recipients|
        invariant Inserting(s0, State([]), rcpts0, sp, id, now, k, run, run')
      {
        NextInserted(s0, State([]), rcpts0, sp, id, now, k, run, run');
        rcpts := rcpts + [NewRcpt(id, msg.recipients[k], now)];
        insert := if k + 1 == |msg.recipients| then None else Some(Insert(sp, id, now, k + 1));
        run' := run' + [Add];
      }
      AllInserted(rcpts0, id, msg.recipients, now);
    }
  }

  /** After the first k recipients. */
  ghost predicate Inserting(s0: Sys, s: Sys, rcpts0: seq<Rcpt>, sp: Spooled, id: nat, now: int, k: nat, run: seq<Action>, run': seq<Action>) {
    && k <= |sp.msg.recipients| && Reaches(s0, run', s) && run' == run + Adds(k)
    && s.insert == (if k == |sp.msg.recipients| then None else Some(Insert(sp, id, now, k)))
    && s.rcpts == rcpts0 + NewRcpts(id, sp.msg.recipients[..k], now)
  }

  lemma {:induction false} NoneInserted(s0: Sys, s: Sys, sp: Spooled, id: nat, now: int, run: seq<Action>)
    requires Reaches(s0, run, s) && s.insert == Some(Insert(sp, id, now, 0)) && sp.msg.recipients != []
    ensures Inserting(s0, s, s.rcpts, sp, id, now, 0, run, run)
  {
    assert run + Adds(0) == run && s.rcpts + NewRcpts(id, [], now) == s.rcpts;
  }

  lemma {:induction false} NextInserted(s0: Sys, s: Sys, rcpts0: seq<Rcpt>, sp: Spooled, id: nat, now: int, k: nat, run: seq<Action>, run': seq<Action>)
    requires Inserting(s0, s, rcpts0, sp, id, now, k, run, run') && k < |sp.msg.recipients|
    ensures Inserting(s0, Added(s, Insert(sp, id, now, k)), rcpts0, sp, id, now, k + 1, run, run' + [Add])
  {
    AddOne(s0, run', s, Insert(sp, id, now, k));
    OneMoreRow(rcpts0, id, sp.msg.recipients, now, k);
    assert run + Adds(k) + [Add] == run + Adds(k + 1);
  }

  /** The row of a recipient that was just enqueued: due at once, not tried yet. */
  ghost predicate FreshRow(r: Rcpt, id: nat, address: string, now: int) {
    && r.outboundId == id && r.rcptTo == address && QueueHistory.Addressed(r)
    && r.state.Ready? && r.attempts == 0 && r.nextAttemptAt == now
    && r.last == Report(None, None, "") && !r.delayedDsnSent
  }

  /** The rows before, and then one new row per recipient, in order. */
  ghost predicate Inserted(rcpts: seq<Rcpt>, rcpts': seq<Rcpt>, id: nat, recipients: seq<string>, now: int) {
    && |rcpts'| == |rcpts| + |recipients| && rcpts <= rcpts'
    && forall k :: 0 <= k < |recipients| ==> FreshRow(rcpts'[|rcpts| + k], id, recipients[k], now)
  }

  lemma {:induction false} OneMoreRow(rcpts: seq<Rcpt>, id: nat, recipients: seq<string>, now: int, k: nat)
    requires k < |recipients|
    ensures rcpts + NewRcpts(id, recipients[..k], now) + [NewRcpt(id, recipients[k], now)]
         == rcpts + NewRcpts(id, recipients[..k + 1], now)
  {
  }

  lemma {:induction false} AllInserted(rcpts: seq<Rcpt>, id: nat, recipients: seq<string>, now: int)
    requires ValidRecipients(recipients)
    ensures Inserted(rcpts, rcpts + NewRcpts(id, recipients, now), id, recipients, now) && recipients[..|recipients|] == recipients
  {
    forall k | 0 <= k < |recipients| ensures FreshRow(NewRcpts(id, recipients, now)[k], id, recipients[k], now) {
      Input.StoredDomainIsValid(recipients[k]);
      assert QueueHistory.Addressed(NewRcpt(id, recipients[k], now));
    }
  }

  ghost predicate Reaches(s: Sys, run: seq<Action>, s': Sys) { Legal(s, run) && s' == After(s, run) }

  lemma {:induction false} AddOne(s: Sys, run: seq<Action>, s': Sys, ins: Insert)
    requires Reaches(s, run, s') && s'.insert == Some(ins) && ins.done < |ins.sp.msg.recipients|
    ensures Reaches(s, run + [Add], Added(s', ins))
  {
    Extend(s, run, Add);
  }

  lemma {:induction false} SpoolThenOpen(s: Sys, sp: Spooled, now: int)
    requires s.insert.None? && ValidEnvelope(sp.msg)
    ensures Legal(s, [Spool(sp), Open(sp, now)])
    ensures After(s, [Spool(sp), Open(sp, now)]) == Opened(s.(blobs := s.blobs + {sp.hash}), sp, now)
  {
    TwoSteps(s, Spool(sp), Open(sp, now));
    assert s.spooled + multiset{sp} - multiset{sp} == s.spooled;
  }

  function Adds(n: nat): seq<Action> { if n == 0 then [] else Adds(n - 1) + [Add] }

  /** The steps of one enqueue: none for a bad envelope, up to the limits for a refused
      message, and one per recipient for an accepted one. */
  function EnqueueRun(sp: Spooled, now: int, r: Result<nat, EnqueueError>): seq<Action> {
    match r
    case Err(InvalidEnvelope) => []
    case Err(RateLimited) => [Spool(sp), Open(sp, now)] + Adds(0)
    case Ok(_) => [Spool(sp), Open(sp, now)] + Adds(|sp.msg.recipients|)
  }

  // ------------------------------------------------------------------
  // What the outside world decides during a pass
  // ------------------------------------------------------------------

  /** Clock, random draw, local delivery and blob removal at one `finalize`. */
  datatype Moment = Moment(now: int, jitter: real, dsnOk: bool, removeOk: bool)

  datatype Conditions = Conditions(
    cooling: int,                                // monotonic clock when the unit is considered
    failedAt: int,                               // and when every MX host has failed
    diskOk: bool,
    mx: Result<seq<Host>, string>,
    mail: SendResult, rcpt: nat -> SendResult, data: SendResult,
    moment: nat -> Moment)

  ghost predicate Sane(w: Conditions) { forall i :: JitterInRange(w.moment(i).jitter) }

  type UnitKey = (nat, string)

  function KeyOf(c: ClaimedRcpt): UnitKey { (c.outboundId, c.domain) }

  const COOLDOWN_SECS: int := 60

  // ------------------------------------------------------------------
  // Grouping
  // ------------------------------------------------------------------

  function Group(claimed: seq<ClaimedRcpt>, key: UnitKey): seq<ClaimedRcpt> {
    if claimed == [] then []
    else Group(claimed[..|claimed| - 1], key)
         + if KeyOf(claimed[|claimed| - 1]) == key then [claimed[|claimed| - 1]] else []
  }

  lemma {:induction false} GroupElements(claimed: seq<ClaimedRcpt>, key: UnitKey)
    ensures forall c :: c in Group(claimed, key) <==> c in claimed && KeyOf(c) == key
    ensures |Group(claimed, key)| <= |claimed|
  {
    if claimed == [] {
    } else {
      GroupElements(claimed[..|claimed| - 1], key);
      assert claimed == claimed[..|claimed| - 1] + [claimed[|claimed| - 1]];
    }
  }

  /** A unit keeps the order of the claim. */
  lemma {:induction false} GroupOrder(claimed: seq<ClaimedRcpt>, key: UnitKey, j: nat, k: nat) returns (a: nat, b: nat)
    requires j < k < |Group(claimed, key)|
    ensures a < b < |claimed| && claimed[a] == Group(claimed, key)[j] && claimed[b] == Group(claimed, key)[k]
  {
    var n := |claimed| - 1;
    if k < |Group(claimed[..n], key)| {
      a, b := GroupOrder(claimed[..n], key, j, k);
    } else {
      GroupElements(claimed[..n], key);
      assert Group(claimed[..n], key)[j] in claimed[..n];
      a, b := Index(claimed[..n], Group(claimed[..n], key)[j]), n;
    }
  }

  ghost function Index(claimed: seq<ClaimedRcpt>, c: ClaimedRcpt): (a: nat)
    requires c in claimed
    ensures a < |claimed| && claimed[a] == c
  {
    var a: nat :| a < |claimed| && claimed[a] == c;
    a
  }

  lemma {:induction false} GroupOfUnknown(claimed: seq<ClaimedRcpt>, key: UnitKey)
    requires forall c :: c in claimed ==> KeyOf(c) != key
    ensures Group(claimed, key) == []
  {
    GroupElements(claimed, key);
    if Group(claimed, key) != [] { HasElement(Group(claimed, key)); }
  }

  lemma {:induction false} HasElement(batch: seq<ClaimedRcpt>)
    requires batch != []
    ensures exists c :: c in batch
  {
    assert batch[0] in batch;
  }

  predicate Distinct(batch: seq<ClaimedRcpt>) {
    forall j, k :: 0 <= j < k < |batch| ==> batch[j].id != batch[k].id
  }

  lemma {:induction false} GroupDistinct(claimed: seq<ClaimedRcpt>, key: UnitKey)
    requires Distinct(claimed)
    ensures Distinct(Group(claimed, key))
  {
    if claimed == [] {
    } else {
      var init := claimed[..|claimed| - 1];
      GroupDistinct(init, key);
      GroupElements(init, key);
      forall k | 0 <= k < |Group(init, key)| ensures Group(init, key)[k].id != claimed[|claimed| - 1].id {
        assert Group(init, key)[k] in init;
      }
    }
  }

  /** The units of a pass: a partition of the claimed recipients by message and
      domain, each unit in claim order. */
  method GroupUnits(claimed: seq<ClaimedRcpt>) returns (units: map<UnitKey, seq<ClaimedRcpt>>)
    ensures forall c :: c in claimed ==> KeyOf(c) in units
    ensures forall key :: key in units ==> units[key] == Group(claimed, key) && units[key] != []
  {
    units := map[];
    for k := 0 to |claimed|
      invariant forall c :: c in claimed[..k] ==> KeyOf(c) in units
      invariant forall key :: key in units ==> units[key] == Group(claimed[..k], key) && units[key] != []
    {
      var c := claimed[k];
      var key := KeyOf(c);
      assert claimed[..k + 1] == claimed[..k] + [c];
      assert claimed[..k + 1][..k] == claimed[..k];
      if key !in units { GroupOfUnknown(claimed[..k], key); }
      units := units[key := (if key in units then units[key] else []) + [c]];
    }
    assert claimed[..|claimed|] == claimed;
  }

  // ------------------------------------------------------------------
  // One unit's outcomes
  // ------------------------------------------------------------------

  const STORAGE_ERROR := Transient(Report(None, None, "local storage error"))
  const NULL_MX := "domain publishes a null MX (RFC 7505): does not accept mail"
  const DANE_MISMATCH := "no certificate offered by any MX host matched its DNSSEC-validated TLSA record"
  const NO_HOST := "could not connect to any MX host"

  /** What recipient i of a unit of n should get, given what the world answered. */
  function ExpectedOutcome(readable: bool, w: Conditions, n: nat, i: nat): Outcome
    requires i < n
  {
    if !readable then Transient(Report(None, None, "local storage error"))
    else if w.mx.Err? then Transient(Report(None, None, w.mx.error))
    else if NullMx(w.mx.value) then Permanent(Report(None, None, NULL_MX))
    else if NoUsableHost(w.mx.value) then
      if SomeProtected(w.mx.value) then Permanent(Report(None, None, DANE_MISMATCH))
      else Transient(Report(None, None, NO_HOST))
    else RcptOutcome(Dialogue(w.mail, seq(n, w.rcpt), w.data), i)
  }

  /** The domain is left alone for a while only if every MX host failed. */
  predicate CooldownDue(readable: bool, w: Conditions) {
    readable && w.mx.Ok? && !NullMx(w.mx.value) && NoUsableHost(w.mx.value)
  }

  /** The part of `send_unit` before `finalize`: one outcome per recipient, and
      whether the domain is put on cooldown. */
  method UnitOutcomes(readable: bool, w: Conditions, n: nat) returns (outcomes: seq<Outcome>, cooldown: bool)
    ensures |outcomes| == n
    ensures forall i :: 0 <= i < n ==> outcomes[i] == ExpectedOutcome(readable, w, n, i)
    ensures readable && w.mx.Ok? && !NullMx(w.mx.value) && !NoUsableHost(w.mx.value) ==>
      forall i :: 0 <= i < n ==> RightOutcome(Deciding(Dialogue(w.mail, seq(n, w.rcpt), w.data), i), outcomes[i])
    ensures cooldown <==> CooldownDue(readable, w)
  {
    cooldown := false;
    if !readable {
      return seq(n, _ => STORAGE_ERROR), false;
    }
    match w.mx
    case Err(detail) =>
      outcomes := seq(n, _ => ClassifyConnectFailure(detail, false));
    case Ok(hosts) =>
      if |hosts| == 1 && hosts[0].exchange == "." {
        outcomes := seq(n, _ => ClassifyConnectFailure(NULL_MX, true));
      } else {
        var connected := ConnectOpportunistic(hosts);
        match connected
        case ConnectFailed(daneRequired) =>
          var outcome := if daneRequired then ClassifyDaneFailure(DANE_MISMATCH) else ClassifyConnectFailure(NO_HOST, false);
          outcomes, cooldown := seq(n, _ => outcome), true;
        case Connected(_, _) =>
          outcomes := RunEnvelope(Dialogue(w.mail, seq(n, w.rcpt), w.data));
      }
  }

  predicate NullMx(hosts: seq<Host>) { |hosts| == 1 && hosts[0].exchange == "." }

  predicate NoUsableHost(hosts: seq<Host>) {
    forall j :: 0 <= j < |hosts| ==> !UsableOverTls(hosts[j]) && !UsableInPlain(hosts[j])
  }

  predicate SomeProtected(hosts: seq<Host>) { exists j :: 0 <= j < |hosts| && Protected(hosts[j]) }

  // ------------------------------------------------------------------
  // The worker
  // ------------------------------------------------------------------

  /** The earliest due row not yet chosen, if any. */
  method PickEarliest(rcpts: seq<Rcpt>, now: int, ids: seq<nat>) returns (best: Option<nat>)
    ensures best.None? ==> forall i :: 0 <= i < |rcpts| && Due(rcpts[i], now) ==> i in ids
    ensures best.Some? ==>
      && best.value < |rcpts| && Due(rcpts[best.value], now) && best.value !in ids
      && forall i :: 0 <= i < |rcpts| && Due(rcpts[i], now) && i !in ids ==>
           rcpts[best.value].nextAttemptAt <= rcpts[i].nextAttemptAt
  {
    best := None;
    for i := 0 to |rcpts|
      invariant best.None? ==> forall j :: 0 <= j < i && Due(rcpts[j], now) ==> j in ids
      invariant best.Some? ==>
        && best.value < |rcpts| && Due(rcpts[best.value], now) && best.value !in ids
        && forall j :: 0 <= j < i && Due(rcpts[j], now) && j !in ids ==>
             rcpts[best.value].nextAttemptAt <= rcpts[j].nextAttemptAt
    {
      if Due(rcpts[i], now) && i !in ids
         && (best.None? || rcpts[i].nextAttemptAt < rcpts[best.value].nextAttemptAt) {
        best := Some(i);
      }
    }
  }

  /** The subquery of `claim_batch`. */
  method SelectDue(rcpts: seq<Rcpt>, now: int) returns (ids: seq<nat>)
    ensures IsBatch(rcpts, now, ids)
  {
    ids := [];
    while |ids| < BATCH_SIZE
      invariant |ids| <= BATCH_SIZE
      invariant forall k :: 0 <= k < |ids| ==> ids[k] < |rcpts| && Due(rcpts[ids[k]], now)
      invariant forall j, k :: 0 <= j < k < |ids| ==> ids[j] != ids[k]
      invariant forall i, k :: 0 <= i < |rcpts| && Due(rcpts[i], now) && i !in ids && 0 <= k < |ids| ==>
        rcpts[ids[k]].nextAttemptAt <= rcpts[i].nextAttemptAt
      decreases BATCH_SIZE - |ids|
    {
      var best := PickEarliest(rcpts, now, ids);
      if best.None? { return; }
      ids := ids + [best.value];
    }
  }

  /** The steps that deal with one recipient. */
  function OneRun(c: ClaimedRcpt, outcome: Option<Outcome>, m: Moment): seq<Action> {
    if outcome.None? then [Release(c)]
    else [Action.Finalize(c, outcome.value, m.now, m.jitter, m.dsnOk), Query(c.outboundId), Remove(m.removeOk)]
  }

  ghost function UnitRun(unit: seq<ClaimedRcpt>, outcomes: Option<seq<Outcome>>, w: Conditions): seq<Action>
    requires outcomes.Some? ==> |unit| <= |outcomes.value|
  {
    if unit == [] then []
    else
      var i := |unit| - 1;
      UnitRun(unit[..i], outcomes, w)
      + OneRun(unit[i], if outcomes.None? then None else Some(outcomes.value[i]), w.moment(i))
  }

  /** No claim, crash or enqueue in between. */
  predicate OnlyWorker(run: seq<Action>) {
    forall k :: 0 <= k < |run| ==> !run[k].Claim? && !run[k].Crash? && !run[k].ByEnqueue()
  }

  // ------------------------------------------------------------------
  // A pass as a function of the order of its units
  // ------------------------------------------------------------------

  ghost predicate ReadableIn(s: Sys, key: UnitKey, w: Conditions) {
    w.diskOk && key.0 < |s.outbound| && s.outbound[key.0].blob in s.blobs
  }

  predicate CoolsDown(cool: map<string, int>, domain: string, instant: int) {
    domain in cool && instant < cool[domain]
  }

  /** What a unit's n recipients get: nothing while the domain cools down, otherwise
      what the world answers, given whether the blob is there to be read. */
  ghost predicate Decided(s: Sys, cool: map<string, int>, key: UnitKey, w: Conditions, n: nat, outcomes: Option<seq<Outcome>>) {
    if CoolsDown(cool, key.1, w.cooling) then outcomes.None?
    else
      outcomes.Some? && |outcomes.value| == n
      && forall i :: 0 <= i < n ==> outcomes.value[i] == ExpectedOutcome(ReadableIn(s, key, w), w, n, i)
  }

  ghost function CoolAfter(s: Sys, cool: map<string, int>, key: UnitKey, w: Conditions): map<string, int> {
    if !CoolsDown(cool, key.1, w.cooling) && CooldownDue(ReadableIn(s, key, w), w)
    then cool[key.1 := w.failedAt + 60] else cool
  }

  /** A unit as it was dealt with: the state and cooldowns it found. */
  datatype Turn = Turn(key: UnitKey, s: Sys, cool: map<string, int>, outcomes: Option<seq<Outcome>>)

  ghost predicate TurnOk(t: Turn, claimed: seq<ClaimedRcpt>, world: UnitKey -> Conditions) {
    var unit := Group(claimed, t.key);
    unit != [] && Decided(t.s, t.cool, t.key, world(t.key), |unit|, t.outcomes)
    && Legal(t.s, UnitRun(unit, t.outcomes, world(t.key)))
  }

  /** The steps of the turns, one unit after the other. */
  ghost function TurnsRun(turns: seq<Turn>, claimed: seq<ClaimedRcpt>, world: UnitKey -> Conditions): seq<Action>
    requires forall k :: 0 <= k < |turns| ==> TurnOk(turns[k], claimed, world)
  {
    if turns == [] then []
    else
      var t := turns[|turns| - 1];
      assert TurnOk(t, claimed, world);
      TurnsRun(turns[..|turns| - 1], claimed, world) + UnitRun(Group(claimed, t.key), t.outcomes, world(t.key))
  }

  /** Each turn starts where the one before ended; s and cool are the beginning, and s'
      and cool' the end. */
  ghost predicate Turns(turns: seq<Turn>, claimed: seq<ClaimedRcpt>, world: UnitKey -> Conditions,
                        s: Sys, cool: map<string, int>, s': Sys, cool': map<string, int>) {
    && (forall k :: 0 <= k < |turns| ==> TurnOk(turns[k], claimed, world))
    && (forall j, k :: 0 <= j < k < |turns| ==> turns[j].key != turns[k].key)
    && (if turns == [] then s' == s && cool' == cool
        else
          var t := turns[|turns| - 1];
          && s' == After(t.s, UnitRun(Group(claimed, t.key), t.outcomes, world(t.key)))
          && cool' == CoolAfter(t.s, t.cool, t.key, world(t.key))
          && Turns(turns[..|turns| - 1], claimed, world, s, cool, t.s, t.cool))
  }

  lemma {:induction false} OneMoreTurn(turns: seq<Turn>, claimed: seq<ClaimedRcpt>, world: UnitKey -> Conditions,
                                       s: Sys, cool: map<string, int>, t: Turn, s': Sys, cool': map<string, int>)
    requires Turns(turns, claimed, world, s, cool, t.s, t.cool) && TurnOk(t, claimed, world)
    requires forall k :: 0 <= k < |turns| ==> turns[k].key != t.key
    requires s' == After(t.s, UnitRun(Group(claimed, t.key), t.outcomes, world(t.key)))
    requires cool' == CoolAfter(t.s, t.cool, t.key, world(t.key))
    ensures Turns(turns + [t], claimed, world, s, cool, s', cool')
    ensures TurnsRun(turns + [t], claimed, world)
      == TurnsRun(turns, claimed, world) + UnitRun(Group(claimed, t.key), t.outcomes, world(t.key))
  {
    assert (turns + [t])[..|turns|] == turns;
  }

  /** Finalize step a gives recipient i of its unit what the world answered. */
  ghost predicate AsAnswered(a: Action, unit: seq<ClaimedRcpt>, w: Conditions, i: nat) {
    && a.Finalize? && i < |unit| && a.c == unit[i]
    && a.outcome == ExpectedOutcome(true, w, |unit|, i)
  }

  /** Every recipient finalized got the world's answer, and none a storage error for
      want of its blob. */
  ghost predicate AllAnswered(run: seq<Action>, claimed: seq<ClaimedRcpt>, world: UnitKey -> Conditions) {
    forall k :: 0 <= k < |run| && run[k].Finalize? ==>
      exists i: nat :: AsAnswered(run[k], Group(claimed, KeyOf(run[k].c)), world(KeyOf(run[k].c)), i)
  }

  lemma {:induction false} UnitAnswered(claimed: seq<ClaimedRcpt>, world: UnitKey -> Conditions, key: UnitKey,
                                        outcomes: Option<seq<Outcome>>, n: nat)
    requires n <= |Group(claimed, key)|
    requires outcomes.Some? ==> |outcomes.value| == |Group(claimed, key)|
    requires outcomes.Some? ==> forall i :: 0 <= i < |outcomes.value| ==>
      outcomes.value[i] == ExpectedOutcome(true, world(key), |outcomes.value|, i)
    ensures AllAnswered(UnitRun(Group(claimed, key)[..n], outcomes, world(key)), claimed, world)
  {
    if n == 0 {
    } else {
      var unit, i := Group(claimed, key), n - 1;
      UnitAnswered(claimed, world, key, outcomes, i);
      assert unit[..n][..i] == unit[..i] && unit[..n][i] == unit[i];
      GroupElements(claimed, key);
      assert unit[i] in unit;
      var one := OneRun(unit[i], if outcomes.None? then None else Some(outcomes.value[i]), world(key).moment(i));
      if outcomes.Some? { assert AsAnswered(one[0], unit, world(key), i); }
    }
  }

  lemma {:induction false} UnitOnlyWorker(unit: seq<ClaimedRcpt>, outcomes: Option<seq<Outcome>>, w: Conditions)
    requires outcomes.Some? ==> |unit| <= |outcomes.value|
    ensures OnlyWorker(UnitRun(unit, outcomes, w))
  {
    if unit == [] {
    } else {
      UnitOnlyWorker(unit[..|unit| - 1], outcomes, w);
    }
  }

  ghost predicate Mentions(s: string, word: string) { exists before, after :: s == before + word + after }

  lemma {:induction false} MentionsLater(c: string, s: string, word: string)
    requires |c| == 1 && Mentions(s, word)
    ensures Mentions(c + s, word)
  {
    var before, after :| s == before + word + after;
    assert c + s == (c + before) + word + after;
  }

  lemma {:induction false} MentionsWhere(s: string, word: string)
    requires word != [] && |s| >= |word| && Mentions(s, word)
    ensures s[..|word|] == word || Mentions(s[1..], word)
  {
    var before, after :| s == before + word + after;
    if before == [] {
      assert s == word + after;
    } else {
      assert s[1..] == before[1..] + word + after;
    }
  }

  lemma {:induction false} MentionsDelayExactly(s: string)
    ensures MentionsDelay(s) <==> Mentions(s, "DELAY")
  {
    if |s| < 5 {
    } else {
      var word := "DELAY";
      MentionsDelayExactly(s[1..]);
      if Mentions(s, word) { MentionsWhere(s, word); }
      if s[..5] == word { assert s == [] + word + s[5..]; }
      if Mentions(s[1..], word) {
        MentionsLater([s[0]], s[1..], word);
        assert [s[0]] + s[1..] == s;
      }
    }
  }

  /** The row `finalize` writes and the notification it asks for. */
  method DecideRow(r: Rcpt, c: ClaimedRcpt, ob: Outbound, outcome: Outcome, m: Moment)
    returns (row: Rcpt, report: Option<DsnAction>)
    requires JitterInRange(m.jitter)
    ensures row.Identity() == r.Identity() && row.claimedAt == r.claimedAt
    ensures row.state == match outcome
      case Delivered => RcptState.Delivered
      case Permanent(_) => Failed
      case Transient(_) => if ob.expiresAt <= m.now then Expired else Deferred
    ensures outcome.Delivered? ==> row.attempts == r.attempts && row.last == Report(None, None, "")
    ensures !outcome.Delivered? ==> row.attempts == r.attempts + 1 && row.last == outcome.report
    ensures row.nextAttemptAt - m.now == if row.state.Deferred? then NextDelaySecs(c.attempts + 1, m.jitter) else 0
    ensures report == Some(DsnFailed) <==> row.state.Failed? || row.state.Expired?
    ensures report == Some(DsnDelayed) <==>
      row.state.Deferred? && !c.delayedDsnSent && Mentions(c.dsnNotify, "DELAY") && m.now >= ob.createdAt + 1800
    ensures row.delayedDsnSent <==> r.delayedDsnSent || report == Some(DsnDelayed)
    ensures row == FinalizedRow(r, c, ob, outcome, m.now, m.jitter)
    ensures Reports(c, ob, outcome, m.now, m.dsnOk) ==
      if report.Some? && m.dsnOk && MayReport(c, ob) then [Dsn(c.id, report.value)] else []
  {
    MentionsDelayExactly(c.dsnNotify);
    var now := m.now;
    var state, nextAttemptAt, last := RcptState.Delivered, now, Report(None, None, "");
    match outcome {
      case Delivered =>
      case Permanent(detail) =>
        state, last := Failed, detail;
      case Transient(detail) =>
        last := detail;
        if now >= ob.expiresAt {
          state := Expired;
        } else {
          state, nextAttemptAt := Deferred, now + NextDelaySecs(c.attempts + 1, m.jitter);
        }
    }
    row := r.(state := state, nextAttemptAt := nextAttemptAt, last := last,
              attempts := r.attempts + if outcome.Delivered? then 0 else 1);
    report := None;
    if state.IsTerminal() && !state.Delivered? {
      report := Some(DsnFailed);
    } else if state.Deferred? && !c.delayedDsnSent && MentionsDelay(c.dsnNotify)
              && now - ob.createdAt >= DELAYED_DSN_THRESHOLD_SECS {
      row := row.(delayedDsnSent := true);
      report := Some(DsnDelayed);
    }
  }

  lemma {:induction false} FinalizeThenCleanup(s: Sys, c: ClaimedRcpt, outcome: Outcome, m: Moment)
    requires Inv(s) && c in s.batch && s.doomed.None? && JitterInRange(m.jitter)
    ensures c.id < |s.rcpts| && c.outboundId < |s.outbound|
    ensures
      var ob := s.outbound[c.outboundId];
      var rcpts := s.rcpts[c.id := FinalizedRow(s.rcpts[c.id], c, ob, outcome, m.now, m.jitter)];
      var blobs := if m.removeOk && NoActiveReference(s.outbound, rcpts, ob.blob) then s.blobs - {ob.blob} else s.blobs;
      var s1 := Apply(s, Action.Finalize(c, outcome, m.now, m.jitter, m.dsnOk));
      Enabled(s1, Query(c.outboundId))
      && Apply(Apply(s1, Query(c.outboundId)), Remove(m.removeOk))
         == Sys(s.outbound, rcpts, blobs, s.dsns + Reports(c, ob, outcome, m.now, m.dsnOk), s.spooled, s.insert, Without(s.batch, c.id), None)
  {
  }

  lemma {:induction false} Opens(s0: Sys, s1: Sys, s2: Sys, s3: Sys, reapAt: int, expireAt: int, claimAt: int, ids: seq<nat>)
    requires Enabled(s0, Reap(reapAt)) && s1 == Apply(s0, Reap(reapAt))
    requires Enabled(s1, Expire(expireAt)) && s2 == Apply(s1, Expire(expireAt))
    requires Enabled(s2, Claim(claimAt, ids)) && s3 == Apply(s2, Claim(claimAt, ids))
    ensures var run := [Reap(reapAt), Expire(expireAt), Claim(claimAt, ids)];
      Reaches(s0, run, s3) && Handled(run) == [] && Ids(s3.batch) == ids
  {
    var run := [Reap(reapAt), Expire(expireAt), Claim(claimAt, ids)];
    ThreeSteps(s0, Reap(reapAt), Expire(expireAt), Claim(claimAt, ids));
    assert Handled(run[1..][1..][1..]) == [] && Handled(run[1..][1..]) == [] && Handled(run[1..]) == [];
    assert Ids(s3.batch) == ids;
  }

  /** What the worker remembers of a claimed row. */
  predicate Copied(c: ClaimedRcpt, r: Rcpt) {
    && c.outboundId == r.outboundId && c.rcptTo == r.rcptTo && c.domain == r.domain && c.dsnNotify == r.dsnNotify
    && c.attempts == r.attempts && c.delayedDsnSent == r.delayedDsnSent
  }

  /** The claimed rows were waiting and due, they are marked with the time, and nothing
      else in the table changed. */
  ghost predicate OnlyClaimed(rcpts: seq<Rcpt>, rcpts': seq<Rcpt>, claimed: seq<ClaimedRcpt>, now: int) {
    && |rcpts'| == |rcpts|
    && (forall i :: 0 <= i < |rcpts| && (forall k :: 0 <= k < |claimed| ==> claimed[k].id != i) ==> rcpts'[i] == rcpts[i])
    && forall k :: 0 <= k < |claimed| ==>
         && claimed[k].id < |rcpts| && Copied(claimed[k], rcpts[claimed[k].id])
         && rcpts[claimed[k].id].state in {Ready, Deferred} && rcpts[claimed[k].id].nextAttemptAt <= now
         && rcpts'[claimed[k].id] == rcpts[claimed[k].id].(state := Claimed, claimedAt := now)
  }

  ghost predicate AllClaimed(rcpts: seq<Rcpt>, now: int) {
    forall i :: 0 <= i < |rcpts| && rcpts[i].state in {Ready, Deferred} ==> rcpts[i].nextAttemptAt > now
  }

  lemma {:induction false} PickedIsClaimed(rcpts: seq<Rcpt>, ids: seq<nat>, now: int)
    requires IsBatch(rcpts, now, ids)
    ensures OnlyClaimed(rcpts, ClaimedRows(rcpts, ids, now), Snapshots(rcpts, ids), now)
    ensures |ids| < 100 ==> AllClaimed(ClaimedRows(rcpts, ids, now), now)
  {
    var claimed := Snapshots(rcpts, ids);
    forall i | 0 <= i < |rcpts| && (forall k :: 0 <= k < |claimed| ==> claimed[k].id != i) ensures i !in ids {
      assert forall k :: 0 <= k < |ids| ==> claimed[k].id == ids[k];
    }
  }

  class Worker {
    const store: QueueStore
    var cooldowns: map<string, int>

    constructor (store: QueueStore)
      ensures this.store == store && cooldowns == map[]
    {
      this.store := store;
      cooldowns := map[];
    }

    /** Claims older than the lease go back to ready; no other row changes. */
    method ReapStaleClaims(now: int)
      modifies store`rcpts
      ensures |store.rcpts| == |old(store.rcpts)|
      ensures forall i :: 0 <= i < |store.rcpts| && old(store.rcpts)[i].state.Claimed? && old(store.rcpts)[i].claimedAt < now - 300 ==>
        store.rcpts[i] == old(store.rcpts)[i].(state := Ready)
      ensures forall i :: 0 <= i < |store.rcpts| && !(old(store.rcpts)[i].state.Claimed? && old(store.rcpts)[i].claimedAt < now - 300) ==>
        store.rcpts[i] == old(store.rcpts)[i]
      ensures store.State([]) == Apply(old(store.State([])), Reap(now))
    {
      for i := 0 to |store.rcpts|
        invariant |store.rcpts| == |old(store.rcpts)|
        invariant forall k :: 0 <= k < i ==> store.rcpts[k] == ReapedRow(old(store.rcpts)[k], now)
        invariant forall k :: i <= k < |store.rcpts| ==> store.rcpts[k] == old(store.rcpts)[k]
      {
        var r := store.rcpts[i];
        if r.state == Claimed && r.claimedAt < now - LEASE_TTL_SECS {
          store.rcpts := store.rcpts[i := r.(state := Ready)];
        }
      }
      assert store.rcpts == ReapedRows(old(store.rcpts), now);
    }

    /** Waiting recipients of messages past their lifetime expire; no other row
        changes. */
    method ExpireOverdue(now: int)
      requires RefsValid(store.State([]))
      modifies store`rcpts
      ensures |store.rcpts| == |old(store.rcpts)|
      ensures forall i :: 0 <= i < |store.rcpts| ==>
        var r := old(store.rcpts)[i];
        if (r.state.Ready? || r.state.Deferred?) && store.outbound[r.outboundId].expiresAt < now
        then store.rcpts[i] == r.(state := Expired) else store.rcpts[i] == r
      ensures store.State([]) == Apply(old(store.State([])), Expire(now))
    {
      for i := 0 to |store.rcpts|
        invariant |store.rcpts| == |old(store.rcpts)|
        invariant forall k :: 0 <= k < i ==> store.rcpts[k] == ExpiredRow(store.outbound, old(store.rcpts)[k], now)
        invariant forall k :: i <= k < |store.rcpts| ==> store.rcpts[k] == old(store.rcpts)[k]
      {
        var r := store.rcpts[i];
        if (r.state == Ready || r.state == Deferred) && store.outbound[r.outboundId].expiresAt < now {
          store.rcpts := store.rcpts[i := r.(state := Expired)];
        }
      }
      assert store.rcpts == ExpiredRows(store.outbound, old(store.rcpts), now);
    }

    method ClaimBatch(now: int) returns (claimed: seq<ClaimedRcpt>, ghost ids: seq<nat>)
      modifies store`rcpts
      ensures IsBatch(old(store.rcpts), now, ids) && |claimed| == |ids| && forall k :: 0 <= k < |ids| ==> claimed[k].id == ids[k]
      ensures |claimed| <= 100 && OnlyClaimed(old(store.rcpts), store.rcpts, claimed, now)
      ensures |claimed| < 100 ==> AllClaimed(store.rcpts, now)
      ensures store.State(claimed) == Apply(old(store.State([])), Claim(now, ids))
    {
      var picked := SelectDue(store.rcpts, now);
      claimed := Snapshots(store.rcpts, picked);
      PickedIsClaimed(store.rcpts, picked, now);
      store.rcpts := ClaimedRows(store.rcpts, picked, now);
      ids := picked;
    }

    method ReleaseToReady(c: ClaimedRcpt, ghost batch: seq<ClaimedRcpt>)
      requires Inv(store.State(batch)) && c in batch
      modifies store`rcpts
      ensures c.id < |old(store.rcpts)| && store.rcpts == old(store.rcpts)[c.id := old(store.rcpts)[c.id].(state := Ready)]
      ensures store.State(Without(batch, c.id)) == Apply(old(store.State(batch)), Release(c))
    {
      store.rcpts := store.rcpts[c.id := store.rcpts[c.id].(state := Ready)];
    }

    /** Commits the next state, reports a failure or delay, and drops the blob
        once nothing needs it. */
    method Finalize(c: ClaimedRcpt, ob: Outbound, outcome: Outcome, m: Moment, ghost batch: seq<ClaimedRcpt>)
      requires Inv(store.State(batch)) && c in batch
      requires c.outboundId < |store.outbound| && ob == store.outbound[c.outboundId] && JitterInRange(m.jitter)
      modifies store`rcpts, store`dsns, store`blobs
      ensures var s1 := Apply(old(store.State(batch)), Action.Finalize(c, outcome, m.now, m.jitter, m.dsnOk));
        Enabled(s1, Query(c.outboundId))
        && store.State(Without(batch, c.id)) == Apply(Apply(s1, Query(c.outboundId)), Remove(m.removeOk))
    {
      var row, report := DecideRow(store.rcpts[c.id], c, ob, outcome, m);
      store.rcpts := store.rcpts[c.id := row];
      if report.Some? {
        MaybeSendDsn(c, ob, report.value, m.dsnOk);
      }
      CleanupTerminalMessage(ob, m.removeOk);
      FinalizeThenCleanup(old(store.State(batch)), c, outcome, m);
    }

    method MaybeSendDsn(c: ClaimedRcpt, ob: Outbound, action: DsnAction, dsnOk: bool)
      modifies store`dsns
      ensures store.dsns == old(store.dsns) + if dsnOk && MayReport(c, ob) then [Dsn(c.id, action)] else []
    {
      if ob.envelopeFrom == "" || ob.isDsn || c.dsnNotify == "NEVER" {
        return;
      }
      if dsnOk {
        store.dsns := store.dsns + [Dsn(c.id, action)];
      }
    }

    /** Removes the blob exactly if every recipient of every message with this content
        is finished, and the removal succeeds. */
    method CleanupTerminalMessage(ob: Outbound, removeOk: bool)
      requires RefsValid(store.State([]))
      modifies store`blobs
      ensures ob.blob in old(store.blobs) ==>
        (ob.blob !in store.blobs <==>
          removeOk && forall i :: 0 <= i < |store.rcpts| && store.outbound[store.rcpts[i].outboundId].blob == ob.blob ==>
            store.rcpts[i].state in {RcptState.Delivered, Failed, Expired})
      ensures store.blobs == old(store.blobs) || store.blobs == old(store.blobs) - {ob.blob}
      ensures store.blobs == if removeOk && NoActiveReference(store.outbound, store.rcpts, ob.blob)
                             then old(store.blobs) - {ob.blob} else old(store.blobs)
    {
      var active := 0;
      for i := 0 to |store.rcpts|
        invariant active >= 0
        invariant active == 0 <==> forall k :: 0 <= k < i && store.outbound[store.rcpts[k].outboundId].blob == ob.blob ==>
          store.rcpts[k].state.IsTerminal()
      {
        if store.outbound[store.rcpts[i].outboundId].blob == ob.blob && !store.rcpts[i].state.IsTerminal() {
          active := active + 1;
        }
      }
      if active == 0 && removeOk {
        store.blobs := store.blobs - {ob.blob};
      }
    }

    predicate IsCoolingDown(domain: string, instant: int)
      reads this
    {
      domain in cooldowns && instant < cooldowns[domain]
    }

    // ----------------------------------------------------------------
    // A unit, then a pass
    // ----------------------------------------------------------------

    /** Releases a recipient of a cooling domain, or finalizes it. */
    method ProcessOne(c: ClaimedRcpt, ob: Outbound, outcome: Option<Outcome>, m: Moment, ghost batch: seq<ClaimedRcpt>)
      returns (ghost run: seq<Action>)
      requires Inv(store.State(batch)) && c in batch
      requires c.outboundId < |store.outbound| && ob == store.outbound[c.outboundId] && JitterInRange(m.jitter)
      modifies store`rcpts, store`dsns, store`blobs
      ensures Legal(old(store.State(batch)), run)
      ensures store.State(Without(batch, c.id)) == After(old(store.State(batch)), run)
      ensures run == OneRun(c, outcome, m)
    {
      ghost var s0 := store.State(batch);
      match outcome {
        case None =>
          ReleaseToReady(c, batch);
          OneStep(s0, Release(c));
          run := [Release(c)];
        case Some(o) =>
          Finalize(c, ob, o, m, batch);
          ghost var fin := Action.Finalize(c, o, m.now, m.jitter, m.dsnOk);
          ThreeSteps(s0, fin, Query(c.outboundId), Remove(m.removeOk));
          run := [fin, Query(c.outboundId), Remove(m.removeOk)];
      }
    }

    /** `None` while the domain cools down, else one outcome per recipient. */
    method DecideUnit(key: UnitKey, n: nat, w: Conditions, ghost s: Sys) returns (outcomes: Option<seq<Outcome>>)
      requires key.0 < |store.outbound| && s.outbound == store.outbound && s.blobs == store.blobs
      modifies this`cooldowns
      ensures Decided(s, old(cooldowns), key, w, n, outcomes)
      ensures outcomes.None? <==> key.1 in old(cooldowns) && w.cooling < old(cooldowns)[key.1]
      ensures cooldowns == CoolAfter(s, old(cooldowns), key, w)
      ensures cooldowns == old(cooldowns) ||
        (w.mx.Ok? && NoUsableHost(w.mx.value) && cooldowns == old(cooldowns)[key.1 := w.failedAt + 60])
    {
      if IsCoolingDown(key.1, w.cooling) {
        return None;
      }
      var readable := w.diskOk && store.outbound[key.0].blob in store.blobs;
      var result, cooldown := UnitOutcomes(readable, w, n);
      if cooldown {
        cooldowns := cooldowns[key.1 := w.failedAt + COOLDOWN_SECS];
      }
      outcomes := Some(result);
    }

    /** `send_unit`, or the release of a unit whose domain is cooling down: every
        recipient of the unit, in order, is released, or finalized with exactly
        the outcome the world's answers call for. */
    method ProcessUnit(key: UnitKey, unit: seq<ClaimedRcpt>, w: Conditions, ghost batch: seq<ClaimedRcpt>)
      returns (outcomes: Option<seq<Outcome>>, ghost run: seq<Action>, ghost left: seq<ClaimedRcpt>)
      requires Inv(store.State(batch)) && Distinct(unit) && key.0 < |store.outbound|
      requires forall c :: c in unit ==> c in batch && KeyOf(c) == key
      requires Sane(w)
      modifies this`cooldowns, store`rcpts, store`dsns, store`blobs
      ensures Decided(old(store.State(batch)), old(cooldowns), key, w, |unit|, outcomes)
      ensures cooldowns == CoolAfter(old(store.State(batch)), old(cooldowns), key, w)
      ensures run == UnitRun(unit, outcomes, w)
      ensures Legal(old(store.State(batch)), run) && store.State(left) == After(old(store.State(batch)), run)
      ensures forall c :: c in left <==> c in batch && c !in unit
    {
      outcomes := DecideUnit(key, |unit|, w, store.State(batch));
      run, left := FinishUnit(key, unit, outcomes, w, batch);
    }

    method FinishUnit(key: UnitKey, unit: seq<ClaimedRcpt>, outcomes: Option<seq<Outcome>>, w: Conditions,
                      ghost batch: seq<ClaimedRcpt>)
      returns (ghost run: seq<Action>, ghost left: seq<ClaimedRcpt>)
      requires Inv(store.State(batch)) && Distinct(unit) && key.0 < |store.outbound|
      requires forall c :: c in unit ==> c in batch && KeyOf(c) == key
      requires Sane(w) && (outcomes.Some? ==> |outcomes.value| == |unit|)
      modifies store`rcpts, store`dsns, store`blobs
      ensures run == UnitRun(unit, outcomes, w)
      ensures Legal(old(store.State(batch)), run) && store.State(left) == After(old(store.State(batch)), run)
      ensures forall c :: c in left <==> c in batch && c !in unit
    {
      var ob := store.outbound[key.0];     // load_outbound always finds the row
      left, run := batch, [];
      ghost var s0 := store.State(batch);
      for i := 0 to |unit|
        modifies store`rcpts, store`dsns, store`blobs
        invariant Midway(s0, store.State(left), unit, i, outcomes, w, run, left, batch)
      {
        assert unit[i] in unit && KeyOf(unit[i]) == key;
        run, left := FinishOne(unit, i, outcomes, w, ob, s0, batch, run, left);
      }
      assert unit[..|unit|] == unit;
    }

    method FinishOne(unit: seq<ClaimedRcpt>, i: nat, outcomes: Option<seq<Outcome>>, w: Conditions, ob: Outbound,
                     ghost s0: Sys, ghost batch: seq<ClaimedRcpt>, ghost run: seq<Action>, ghost left: seq<ClaimedRcpt>)
      returns (ghost run': seq<Action>, ghost left': seq<ClaimedRcpt>)
      requires Inv(s0) && s0.batch == batch && Distinct(unit) && i < |unit| && unit[i].outboundId < |store.outbound|
      requires ob == store.outbound[unit[i].outboundId] && (forall c :: c in unit ==> c in batch)
      requires Sane(w) && (outcomes.Some? ==> |outcomes.value| == |unit|)
      requires Midway(s0, store.State(left), unit, i, outcomes, w, run, left, batch)
      modifies store`rcpts, store`dsns, store`blobs
      ensures Midway(s0, store.State(left'), unit, i + 1, outcomes, w, run', left', batch)
    {
      RunKeepsInv(s0, run);
      var c := unit[i];
      TakeNext(batch, left, unit, i);
      ghost var step := ProcessOne(c, ob, if outcomes.None? then None else Some(outcomes.value[i]), w.moment(i), left);
      Concat(s0, run, step);
      assert unit[..i + 1][..i] == unit[..i];
      run', left' := run + step, Without(left, c.id);
    }

    /** The first three statements of a pass. */
    method OpenPass(reapAt: int, expireAt: int, claimAt: int)
      returns (claimed: seq<ClaimedRcpt>, ghost run: seq<Action>)
      requires Inv(store.State([]))
      modifies store`rcpts
      ensures Reaches(old(store.State([])), run, store.State(claimed))
      ensures Handled(run) == [] && run == [Reap(reapAt), Expire(expireAt), Claim(claimAt, Ids(claimed))]
    {
      ghost var s0 := store.State([]);
      ReapStaleClaims(reapAt);
      ghost var s1 := store.State([]);
      ExpireOverdue(expireAt);
      ghost var s2 := store.State([]);
      ghost var ids;
      claimed, ids := ClaimBatch(claimAt);
      run := [Reap(reapAt), Expire(expireAt), Claim(claimAt, ids)];
      Opens(s0, s1, s2, store.State(claimed), reapAt, expireAt, claimAt, ids);
    }

    /** Takes any remaining unit and deals with it. */
    method NextUnit(claimed: seq<ClaimedRcpt>, units: map<UnitKey, seq<ClaimedRcpt>>, world: UnitKey -> Conditions,
                    ghost left: seq<ClaimedRcpt>)
      returns (units': map<UnitKey, seq<ClaimedRcpt>>, ghost turn: Turn, ghost left': seq<ClaimedRcpt>)
      requires units != map[] && StillToDo(claimed, units, left) && forall key :: Sane(world(key))
      requires Inv(store.State(left))
      modifies this`cooldowns, store`rcpts, store`dsns, store`blobs
      ensures turn.key in units && units' == units - {turn.key} && StillToDo(claimed, units', left')
      ensures TurnOk(turn, claimed, world) && turn.s == old(store.State(left)) && turn.cool == old(cooldowns)
      ensures store.State(left') == After(turn.s, UnitRun(Group(claimed, turn.key), turn.outcomes, world(turn.key)))
      ensures cooldowns == CoolAfter(turn.s, turn.cool, turn.key, world(turn.key))
    {
      var key :| key in units;
      ghost var s, cool := store.State(left), cooldowns;
      UnitReady(s, claimed, units, key);
      var outcomes, step, rest := ProcessUnit(key, units[key], world(key), left);
      UnitDone(claimed, units, left, rest, key);
      turn := Turn(key, s, cool, outcomes);
      left', units' := rest, units - {key};
    }

    /** One more unit of a pass, any that is left. */
    method TakeTurn(claimed: seq<ClaimedRcpt>, units: map<UnitKey, seq<ClaimedRcpt>>, world: UnitKey -> Conditions, ghost s0: Sys,
                    ghost cool0: map<string, int>, ghost left: seq<ClaimedRcpt>, ghost turns: seq<Turn>, ghost run: seq<Action>)
      returns (units': map<UnitKey, seq<ClaimedRcpt>>, ghost left': seq<ClaimedRcpt>, ghost turns': seq<Turn>, ghost run': seq<Action>)
      requires units != map[] && StillToDo(claimed, units, left) && Inv(s0) && forall key :: Sane(world(key))
      requires InTurn(s0, cool0, store.State(left), cooldowns, claimed, world, units, turns, run)
      modifies this`cooldowns, store`rcpts, store`dsns, store`blobs
      ensures |units'| < |units| && StillToDo(claimed, units', left')
      ensures InTurn(s0, cool0, store.State(left'), cooldowns, claimed, world, units', turns', run')
    {
      RunKeepsInv(s0, run);
      ghost var turn;
      units', turn, left' := NextUnit(claimed, units, world, left);
      AnotherTurn(s0, cool0, store.State(left'), cooldowns, claimed, world, units, turns, run, turn);
      turns', run' := turns + [turn], run + UnitRun(Group(claimed, turn.key), turn.outcomes, world(turn.key));
    }

    /** Works through the units in any order: each unit once, each from the state and
        cooldowns the one before left. */
    method ProcessUnits(claimed: seq<ClaimedRcpt>, world: UnitKey -> Conditions)
      returns (ghost turns: seq<Turn>, ghost run: seq<Action>)
      requires Inv(store.State(claimed))
      requires forall key :: Sane(world(key))
      modifies this`cooldowns, store`rcpts, store`dsns, store`blobs
      ensures Worked(old(store.State(claimed)), old(cooldowns), store.State([]), cooldowns, claimed, world, turns, run)
    {
      var units := GroupUnits(claimed);
      ghost var s0, cool0, left := store.State(claimed), cooldowns, claimed;
      turns, run := [], [];
      NoTurnYet(s0, cool0, claimed, world, units);
      while units != map[]
        modifies this`cooldowns, store`rcpts, store`dsns, store`blobs
        invariant StillToDo(claimed, units, left)
        invariant InTurn(s0, cool0, store.State(left), cooldowns, claimed, world, units, turns, run)
        decreases |units|
      {
        units, left, turns, run := TakeTurn(claimed, units, world, s0, cool0, left, turns, run);
      }
      NoUnitLeft(s0, cool0, store.State(left), cooldowns, claimed, world, units, turns, run, left);
    }

    /** One trip around the worker's loop, up to the sleep, with no enqueue in between. */
    method RunPass(reapAt: int, expireAt: int, claimAt: int, world: UnitKey -> Conditions)
      returns (claimed: seq<ClaimedRcpt>, ghost run: seq<Action>, ghost turns: seq<Turn>)
      requires Inv(store.State([]))
      requires forall key :: Sane(world(key))
      modifies this`cooldowns, store`rcpts, store`dsns, store`blobs
      ensures IsPass(old(store.State([])), old(cooldowns), store.State([]), cooldowns, claimed, world, turns, run)
      ensures run[..3] == [Reap(reapAt), Expire(expireAt), Claim(claimAt, Ids(claimed))]
      ensures FinishesOverdue(old(store.State([])), store.State([]), reapAt, expireAt)
    {
      ghost var s0, cool := store.State([]), cooldowns;
      ghost var opening, rest;
      claimed, opening := OpenPass(reapAt, expireAt, claimAt);
      ghost var s1 := store.State(claimed);
      RunKeepsInv(s0, opening);
      turns, rest := ProcessUnits(claimed, world);
      run := opening + rest;
      PassComplete(s0, cool, s1, store.State([]), cooldowns, claimed, world, turns, opening, rest);
      PassFinishes(s0, store.State([]), run, opening, reapAt, expireAt);
    }
  }

  /** All units of a pass, each in one turn. */
  ghost predicate Worked(s: Sys, cool: map<string, int>, s': Sys, cool': map<string, int>, claimed: seq<ClaimedRcpt>,
                         world: UnitKey -> Conditions, turns: seq<Turn>, run: seq<Action>) {
    && Turns(turns, claimed, world, s, cool, s', cool') && AllTurns(turns, claimed)
    && run == TurnsRun(turns, claimed, world) && OnlyWorker(run) && Reaches(s, run, s')
  }

  ghost predicate AllTurns(turns: seq<Turn>, claimed: seq<ClaimedRcpt>) {
    forall c :: c in claimed ==> exists k :: 0 <= k < |turns| && turns[k].key == KeyOf(c)
  }

  lemma {:induction false} NoUnitLeft(s0: Sys, cool0: map<string, int>, s: Sys, cool: map<string, int>, claimed: seq<ClaimedRcpt>,
                                      world: UnitKey -> Conditions, units: map<UnitKey, seq<ClaimedRcpt>>, turns: seq<Turn>, run: seq<Action>,
                                      left: seq<ClaimedRcpt>)
    requires InTurn(s0, cool0, s, cool, claimed, world, units, turns, run) && StillToDo(claimed, units, left) && units == map[]
    ensures Worked(s0, cool0, s, cool, claimed, world, turns, run) && left == []
  {
    if left != [] { HasElement(left); }
  }

  /** Every recipient whose message has expired and that no young claim holds is
      finished. */
  ghost predicate FinishesOverdue(s: Sys, s': Sys, reapAt: int, expireAt: int) {
    forall i: nat :: i < |s.rcpts| && Overdue(s, i, reapAt, expireAt) ==> i < |s'.rcpts| && s'.rcpts[i].state.IsTerminal()
  }

  lemma {:induction false} PassFinishes(s: Sys, s': Sys, run: seq<Action>, opening: seq<Action>, reapAt: int, expireAt: int)
    requires Inv(s) && s.batch == [] && s.doomed.None? && Reaches(s, run, s')
    requires |opening| == 3 && |run| >= 3 && run[..3] == opening && opening[0] == Reap(reapAt) && opening[1] == Expire(expireAt)
    ensures FinishesOverdue(s, s', reapAt, expireAt)
  {
    assert run[0] == opening[0] && run[1] == opening[1];
    forall i: nat | i < |s.rcpts| && Overdue(s, i, reapAt, expireAt) ensures i < |s'.rcpts| && s'.rcpts[i].state.IsTerminal() {
      PassFinishesOverdue(s, run, reapAt, expireAt, i);
    }
  }

  /** A whole pass from s to s': after three statements that claim, every unit of the
      claimed recipients once, in some order, each recipient released exactly while its
      domain cools down and otherwise finalized with what the world answered. Each
      claimed recipient is dealt with exactly once and nothing is left in memory. If
      every unfinished recipient's blob was there and the disk works, everyone gets the
      world's answer and nobody a storage error. */
  ghost predicate IsPass(s: Sys, cool: map<string, int>, s': Sys, cool': map<string, int>, claimed: seq<ClaimedRcpt>,
                         world: UnitKey -> Conditions, turns: seq<Turn>, run: seq<Action>) {
    && Handles(s, s', claimed, run)
    && TakesTurns(s, cool, s', cool', claimed, world, turns, run)
    && (BlobSafe(s) && (forall key :: world(key).diskOk) ==> AllAnswered(run, claimed, world) && BlobSafe(s'))
  }

  ghost predicate Handles(s: Sys, s': Sys, claimed: seq<ClaimedRcpt>, run: seq<Action>) {
    Reaches(s, run, s') && s'.batch == [] && multiset(Handled(run)) == multiset(Ids(claimed))
  }

  ghost predicate TakesTurns(s: Sys, cool: map<string, int>, s': Sys, cool': map<string, int>, claimed: seq<ClaimedRcpt>,
                             world: UnitKey -> Conditions, turns: seq<Turn>, run: seq<Action>) {
    && |run| >= 3 && Legal(s, run[..3])
    && Turns(turns, claimed, world, After(s, run[..3]), cool, s', cool')
    && run[3..] == TurnsRun(turns, claimed, world) && AllTurns(turns, claimed)
  }

  lemma {:induction false} PassComplete(s: Sys, cool: map<string, int>, s1: Sys, s': Sys, cool': map<string, int>, claimed: seq<ClaimedRcpt>,
                                        world: UnitKey -> Conditions, turns: seq<Turn>, opening: seq<Action>, rest: seq<Action>)
    requires Inv(s) && s.doomed.None? && Inv(s1) && s1.batch == claimed && s'.batch == []
    requires Opening(s, opening, s1) && Handled(opening) == []
    requires Worked(s1, cool, s', cool', claimed, world, turns, rest)
    ensures IsPass(s, cool, s', cool', claimed, world, turns, opening + rest) && (opening + rest)[..3] == opening
  {
    PassIsRun(s, s1, s', opening, rest);
    PassTakesTurns(s, cool, s1, s', cool', claimed, world, turns, opening, rest);
    if BlobSafe(s) && forall key :: world(key).diskOk {
      PassSends(s, cool, s1, s', cool', claimed, world, turns, opening);
    }
  }

  /** The first three statements of a pass. */
  ghost predicate Opening(s: Sys, opening: seq<Action>, s1: Sys) {
    Reaches(s, opening, s1) && |opening| == 3 && opening[0].Reap? && opening[1].Expire? && opening[2].Claim?
  }

  ghost predicate NoFinalize(run: seq<Action>) { forall k :: 0 <= k < |run| ==> !run[k].Finalize? }

  lemma {:induction false} PassSends(s: Sys, cool: map<string, int>, s1: Sys, s': Sys, cool': map<string, int>, claimed: seq<ClaimedRcpt>,
                                     world: UnitKey -> Conditions, turns: seq<Turn>, opening: seq<Action>)
    requires Inv(s) && s.doomed.None? && Inv(s1) && s1.batch == claimed && Opening(s, opening, s1)
    requires Turns(turns, claimed, world, s1, cool, s', cool')
    requires BlobSafe(s) && forall key :: world(key).diskOk
    ensures AllAnswered(opening + TurnsRun(turns, claimed, world), claimed, world) && BlobSafe(s')
  {
    OpeningKeepsBlobs(s, s1, opening);
    PassAnswered(turns, claimed, world, s1, cool, s', cool', opening);
  }

  lemma {:induction false} PassTakesTurns(s: Sys, cool: map<string, int>, s1: Sys, s': Sys, cool': map<string, int>, claimed: seq<ClaimedRcpt>,
                                          world: UnitKey -> Conditions, turns: seq<Turn>, opening: seq<Action>, rest: seq<Action>)
    requires |opening| == 3 && Reaches(s, opening, s1)
    requires Turns(turns, claimed, world, s1, cool, s', cool') && rest == TurnsRun(turns, claimed, world) && AllTurns(turns, claimed)
    ensures TakesTurns(s, cool, s', cool', claimed, world, turns, opening + rest) && (opening + rest)[..3] == opening
  {
    assert (opening + rest)[..3] == opening && (opening + rest)[3..] == rest;
  }

  lemma {:induction false} OpeningKeepsBlobs(s: Sys, s1: Sys, opening: seq<Action>)
    requires Inv(s) && s.doomed.None? && BlobSafe(s) && Opening(s, opening, s1)
    ensures BlobSafe(s1) && NothingSince(s1) && NoFinalize(opening)
  {
    WorkerKeepsBlobs(s, opening);
  }

  lemma {:induction false} PassIsRun(s: Sys, s1: Sys, s': Sys, opening: seq<Action>, rest: seq<Action>)
    requires Inv(s1) && Handled(opening) == [] && OnlyWorker(rest) && s'.batch == []
    requires Reaches(s, opening, s1) && Reaches(s1, rest, s')
    ensures Handles(s, s', s1.batch, opening + rest)
  {
    EachClaimHandledOnce(s1, rest);
    Concat(s, opening, rest);
    HandledConcat(opening, rest);
    assert [] + Handled(rest) == Handled(rest) && Ids([]) == [];
  }

  /** After some units of a pass. */
  ghost predicate InTurn(s0: Sys, cool0: map<string, int>, s: Sys, cool: map<string, int>, claimed: seq<ClaimedRcpt>,
                         world: UnitKey -> Conditions, units: map<UnitKey, seq<ClaimedRcpt>>, turns: seq<Turn>, run: seq<Action>) {
    && Turns(turns, claimed, world, s0, cool0, s, cool) && run == TurnsRun(turns, claimed, world)
    && OnlyWorker(run) && Reaches(s0, run, s) && Remaining(claimed, units, turns)
  }

  /** The units that had no turn yet. */
  ghost predicate Remaining(claimed: seq<ClaimedRcpt>, units: map<UnitKey, seq<ClaimedRcpt>>, turns: seq<Turn>) {
    && (forall k :: 0 <= k < |turns| ==> turns[k].key !in units)
    && forall c :: c in claimed ==> KeyOf(c) in units || exists k :: 0 <= k < |turns| && turns[k].key == KeyOf(c)
  }

  lemma {:induction false} NoTurnYet(s: Sys, cool: map<string, int>, claimed: seq<ClaimedRcpt>, world: UnitKey -> Conditions,
                                     units: map<UnitKey, seq<ClaimedRcpt>>)
    requires forall c :: c in claimed ==> KeyOf(c) in units
    ensures InTurn(s, cool, s, cool, claimed, world, units, [], [])
  {
  }

  lemma {:induction false} AnotherTurn(s0: Sys, cool0: map<string, int>, s': Sys, cool': map<string, int>, claimed: seq<ClaimedRcpt>,
                                       world: UnitKey -> Conditions, units: map<UnitKey, seq<ClaimedRcpt>>,
                                       turns: seq<Turn>, run: seq<Action>, t: Turn)
    requires InTurn(s0, cool0, t.s, t.cool, claimed, world, units, turns, run) && t.key in units && TurnOk(t, claimed, world)
    requires s' == After(t.s, UnitRun(Group(claimed, t.key), t.outcomes, world(t.key)))
    requires cool' == CoolAfter(t.s, t.cool, t.key, world(t.key))
    ensures InTurn(s0, cool0, s', cool', claimed, world, units - {t.key}, turns + [t],
                   run + UnitRun(Group(claimed, t.key), t.outcomes, world(t.key)))
  {
    var step := UnitRun(Group(claimed, t.key), t.outcomes, world(t.key));
    OneMoreTurn(turns, claimed, world, s0, cool0, t, s', cool');
    WorkedOn(s0, t.s, s', run, step, Group(claimed, t.key), t.outcomes, world(t.key));
    AllCovered(claimed, units, turns, t);
  }

  lemma {:induction false} WorkedOn(s0: Sys, s: Sys, s': Sys, run: seq<Action>, step: seq<Action>, unit: seq<ClaimedRcpt>,
                                    outcomes: Option<seq<Outcome>>, w: Conditions)
    requires outcomes.Some? ==> |unit| <= |outcomes.value|
    requires Reaches(s0, run, s) && OnlyWorker(run) && step == UnitRun(unit, outcomes, w) && Reaches(s, step, s')
    ensures Reaches(s0, run + step, s') && OnlyWorker(run + step)
  {
    UnitOnlyWorker(unit, outcomes, w);
    Concat(s0, run, step);
  }

  lemma {:induction false} AllCovered(claimed: seq<ClaimedRcpt>, units: map<UnitKey, seq<ClaimedRcpt>>, turns: seq<Turn>, t: Turn)
    requires Remaining(claimed, units, turns)
    ensures Remaining(claimed, units - {t.key}, turns + [t])
  {
    forall c | c in claimed
      ensures KeyOf(c) in units - {t.key} || exists k :: 0 <= k < |turns + [t]| && (turns + [t])[k].key == KeyOf(c)
    {
      if KeyOf(c) == t.key {
        assert (turns + [t])[|turns|].key == KeyOf(c);
      } else if KeyOf(c) !in units {
        var k :| 0 <= k < |turns| && turns[k].key == KeyOf(c);
        assert (turns + [t])[k].key == KeyOf(c);
      }
    }
  }

  // ------------------------------------------------------------------
  // Blobs during a pass
  // ------------------------------------------------------------------

  lemma {:induction false} KeptUnlessHandled(s: Sys, run: seq<Action>, c: ClaimedRcpt)
    requires Inv(s) && Legal(s, run) && OnlyWorker(run) && c in s.batch && c.id !in Handled(run)
    ensures c in After(s, run).batch
    decreases |run|
  {
    if run == [] {
    } else {
      StepKeepsInv(s, run[0]);
      HandledFirst(run);
      KeptByStep(s, run[0], c);
      KeptUnlessHandled(Apply(s, run[0]), run[1..], c);
    }
  }

  lemma {:induction false} KeptByStep(s: Sys, a: Action, c: ClaimedRcpt)
    requires Inv(s) && Enabled(s, a) && !a.Claim? && !a.Crash? && c in s.batch && c.id !in HandledBy(a)
    ensures c in Apply(s, a).batch
  {
    if a.Release? || a.Finalize? {
      TakenFromBatch(s, a);
      assert HandledBy(a) == [a.c.id];
      WithoutElements(s.batch, a.c.id);
    } else {
      assert Apply(s, a).batch == s.batch;
    }
  }

  lemma {:induction false} HandledOfUnit(unit: seq<ClaimedRcpt>, outcomes: Option<seq<Outcome>>, w: Conditions)
    requires outcomes.Some? ==> |unit| <= |outcomes.value|
    ensures forall id :: id in Handled(UnitRun(unit, outcomes, w)) ==> exists c :: c in unit && c.id == id
  {
    if unit == [] {
    } else {
      var i := |unit| - 1;
      var one := OneRun(unit[i], if outcomes.None? then None else Some(outcomes.value[i]), w.moment(i));
      HandledOfUnit(unit[..i], outcomes, w);
      HandledConcat(UnitRun(unit[..i], outcomes, w), one);
      HandledOfOne(unit[i], if outcomes.None? then None else Some(outcomes.value[i]), w.moment(i));
      assert unit[i] in unit && forall c :: c in unit[..i] ==> c in unit;
    }
  }

  lemma {:induction false} HandledOfOne(c: ClaimedRcpt, outcome: Option<Outcome>, m: Moment)
    ensures Handled(OneRun(c, outcome, m)) == [c.id]
  {
    var run := OneRun(c, outcome, m);
    if outcome.Some? {
      assert run[1..] == [Query(c.outboundId), Remove(m.removeOk)] && run[1..][1..] == [Remove(m.removeOk)];
      assert Handled([Remove(m.removeOk)]) == [] && Handled(run[1..]) == [];
    }
  }

  /** The units not yet dealt with are still in memory, and nobody's blob is gone. */
  ghost predicate Awaiting(turns: seq<Turn>, claimed: seq<ClaimedRcpt>, s: Sys) {
    && Inv(s) && BlobSafe(s) && NothingSince(s)
    && forall c :: c in claimed && (forall k :: 0 <= k < |turns| ==> turns[k].key != KeyOf(c)) ==> c in s.batch
  }

  lemma {:induction false} TurnReadable(turns: seq<Turn>, claimed: seq<ClaimedRcpt>, world: UnitKey -> Conditions, t: Turn)
    requires Awaiting(turns, claimed, t.s) && TurnOk(t, claimed, world) && world(t.key).diskOk
    requires forall k :: 0 <= k < |turns| ==> turns[k].key != t.key
    ensures ReadableIn(t.s, t.key, world(t.key))
  {
    var c := Group(claimed, t.key)[0];
    GroupElements(claimed, t.key);
    assert c in Group(claimed, t.key) && c in t.s.batch;
  }

  lemma {:induction false} TurnKeepsAwaiting(turns: seq<Turn>, claimed: seq<ClaimedRcpt>, world: UnitKey -> Conditions, t: Turn)
    requires Awaiting(turns, claimed, t.s) && TurnOk(t, claimed, world) && Distinct(claimed)
    requires forall k :: 0 <= k < |turns| ==> turns[k].key != t.key
    ensures Awaiting(turns + [t], claimed, After(t.s, UnitRun(Group(claimed, t.key), t.outcomes, world(t.key))))
  {
    var unit := Group(claimed, t.key);
    var step := UnitRun(unit, t.outcomes, world(t.key));
    UnitOnlyWorker(unit, t.outcomes, world(t.key));
    WorkerKeepsBlobs(t.s, step);
    RunKeepsInv(t.s, step);
    GroupElements(claimed, t.key);
    HandledOfUnit(unit, t.outcomes, world(t.key));
    forall c | c in claimed && (forall k :: 0 <= k < |turns + [t]| ==> (turns + [t])[k].key != KeyOf(c))
      ensures c in After(t.s, step).batch
    {
      assert (turns + [t])[|turns|] == t && forall k :: 0 <= k < |turns| ==> (turns + [t])[k] == turns[k];
      if c.id in Handled(step) {
        var d :| d in unit && d.id == c.id;
        SameIdSame(claimed, c, d);
      }
      KeptUnlessHandled(t.s, step, c);
    }
  }

  /** What the last turn found and left. */
  lemma {:induction false} LastTurn(turns: seq<Turn>, claimed: seq<ClaimedRcpt>, world: UnitKey -> Conditions,
                                    s: Sys, cool: map<string, int>, s': Sys, cool': map<string, int>)
    returns (before: seq<Turn>, t: Turn)
    requires turns != [] && Turns(turns, claimed, world, s, cool, s', cool')
    ensures turns == before + [t] && before == turns[..|turns| - 1] && t == turns[|turns| - 1] && TurnOk(t, claimed, world)
    ensures Turns(before, claimed, world, s, cool, t.s, t.cool) && forall k :: 0 <= k < |before| ==> before[k].key != t.key
    ensures s' == After(t.s, UnitRun(Group(claimed, t.key), t.outcomes, world(t.key)))
  {
    before, t := turns[..|turns| - 1], turns[|turns| - 1];
  }

  lemma {:induction false} TurnsAwait(turns: seq<Turn>, claimed: seq<ClaimedRcpt>, world: UnitKey -> Conditions,
                                      s: Sys, cool: map<string, int>, s': Sys, cool': map<string, int>)
    requires Turns(turns, claimed, world, s, cool, s', cool') && Inv(s) && s.batch == claimed && BlobSafe(s) && NothingSince(s)
    ensures Awaiting(turns, claimed, s')
  {
    if turns == [] {
    } else {
      var before, t := LastTurn(turns, claimed, world, s, cool, s', cool');
      TurnsAwait(before, claimed, world, s, cool, t.s, t.cool);
      TurnKeepsAwaiting(before, claimed, world, t);
    }
  }

  /** From a state in which every unfinished recipient's blob is stored, with a disk
      that works, every turn reads its blob. */
  lemma {:induction false} TurnsAnswered(turns: seq<Turn>, claimed: seq<ClaimedRcpt>, world: UnitKey -> Conditions,
                                         s: Sys, cool: map<string, int>, s': Sys, cool': map<string, int>)
    requires Turns(turns, claimed, world, s, cool, s', cool') && Inv(s) && s.batch == claimed && BlobSafe(s) && NothingSince(s)
    requires forall key :: world(key).diskOk
    ensures AllAnswered(TurnsRun(turns, claimed, world), claimed, world)
  {
    if turns == [] {
    } else {
      var before, t := LastTurn(turns, claimed, world, s, cool, s', cool');
      TurnsAwait(before, claimed, world, s, cool, t.s, t.cool);
      TurnsAnswered(before, claimed, world, s, cool, t.s, t.cool);
      TurnReadable(before, claimed, world, t);
      TurnAnswered(claimed, world, t);
      AnsweredConcat(TurnsRun(before, claimed, world), UnitRun(Group(claimed, t.key), t.outcomes, world(t.key)), claimed, world);
    }
  }

  lemma {:induction false} TurnAnswered(claimed: seq<ClaimedRcpt>, world: UnitKey -> Conditions, t: Turn)
    requires TurnOk(t, claimed, world) && ReadableIn(t.s, t.key, world(t.key))
    ensures AllAnswered(UnitRun(Group(claimed, t.key), t.outcomes, world(t.key)), claimed, world)
  {
    var unit := Group(claimed, t.key);
    UnitAnswered(claimed, world, t.key, t.outcomes, |unit|);
    assert unit[..|unit|] == unit;
  }

  lemma {:induction false} PassAnswered(turns: seq<Turn>, claimed: seq<ClaimedRcpt>, world: UnitKey -> Conditions,
                                        s: Sys, cool: map<string, int>, s': Sys, cool': map<string, int>, opening: seq<Action>)
    requires Turns(turns, claimed, world, s, cool, s', cool') && Inv(s) && s.batch == claimed && BlobSafe(s) && NothingSince(s)
    requires (forall key :: world(key).diskOk) && NoFinalize(opening)
    ensures BlobSafe(s') && AllAnswered(opening + TurnsRun(turns, claimed, world), claimed, world)
  {
    TurnsAwait(turns, claimed, world, s, cool, s', cool');
    TurnsAnswered(turns, claimed, world, s, cool, s', cool');
    AnsweredConcat(opening, TurnsRun(turns, claimed, world), claimed, world);
  }

  lemma {:induction false} AnsweredConcat(run: seq<Action>, rest: seq<Action>, claimed: seq<ClaimedRcpt>, world: UnitKey -> Conditions)
    requires AllAnswered(run, claimed, world) && AllAnswered(rest, claimed, world)
    ensures AllAnswered(run + rest, claimed, world)
  {
    var all := run + rest;
    forall k | 0 <= k < |all| && all[k].Finalize?
      ensures exists i: nat :: AsAnswered(all[k], Group(claimed, KeyOf(all[k].c)), world(KeyOf(all[k].c)), i)
    {
      if k < |run| { assert all[k] == run[k]; } else { assert all[k] == rest[k - |run|]; }
    }
  }

  /** The first i recipients of a unit are dealt with. */
  ghost predicate Midway(s0: Sys, s: Sys, unit: seq<ClaimedRcpt>, i: nat, outcomes: Option<seq<Outcome>>, w: Conditions,
                         run: seq<Action>, left: seq<ClaimedRcpt>, batch: seq<ClaimedRcpt>)
    requires i <= |unit| && (outcomes.Some? ==> |outcomes.value| == |unit|)
  {
    && Legal(s0, run) && s == After(s0, run)
    && run == UnitRun(unit[..i], outcomes, w)
    && forall c :: c in left <==> c in batch && c !in unit[..i]
  }

  lemma {:induction false} TakeNext(batch: seq<ClaimedRcpt>, left: seq<ClaimedRcpt>, unit: seq<ClaimedRcpt>, i: nat)
    requires i < |unit| && Distinct(unit) && Distinct(batch) && Distinct(left)
    requires forall c :: c in unit ==> c in batch
    requires forall c :: c in left <==> c in batch && c !in unit[..i]
    ensures unit[i] in left
    ensures forall c :: c in Without(left, unit[i].id) <==> c in batch && c !in unit[..i + 1]
  {
    var c := unit[i];
    assert c in unit && c !in unit[..i];
    assert unit[..i + 1] == unit[..i] + [c];
    WithoutElements(left, c.id);
    forall d | d in left && d.id == c.id ensures d == c { SameIdSame(left, c, d); }
  }

  /** Midway through a pass: exactly the recipients of the remaining units are
      still in memory. */
  ghost predicate StillToDo(claimed: seq<ClaimedRcpt>, units: map<UnitKey, seq<ClaimedRcpt>>, left: seq<ClaimedRcpt>) {
    && Distinct(claimed)
    && (forall key :: key in units ==> units[key] == Group(claimed, key) && units[key] != [])
    && forall c :: c in left <==> c in claimed && KeyOf(c) in units
  }

  lemma {:induction false} UnitReady(s: Sys, claimed: seq<ClaimedRcpt>, units: map<UnitKey, seq<ClaimedRcpt>>, key: UnitKey)
    requires Inv(s) && StillToDo(claimed, units, s.batch) && key in units
    ensures Distinct(units[key]) && key.0 < |s.outbound|
    ensures forall c :: c in units[key] ==> c in s.batch && KeyOf(c) == key
  {
    GroupElements(claimed, key);
    GroupDistinct(claimed, key);
    assert units[key][0] in units[key];
  }

  lemma {:induction false} UnitDone(claimed: seq<ClaimedRcpt>, units: map<UnitKey, seq<ClaimedRcpt>>,
                 left: seq<ClaimedRcpt>, left': seq<ClaimedRcpt>, key: UnitKey)
    requires StillToDo(claimed, units, left) && key in units
    requires forall c :: c in left' <==> c in left && c !in units[key]
    ensures StillToDo(claimed, units - {key}, left')
  {
    GroupElements(claimed, key);
  }

  lemma {:induction false} SameIdSame(batch: seq<ClaimedRcpt>, c: ClaimedRcpt, d: ClaimedRcpt)
    requires Distinct(batch) && c in batch && d in batch && c.id == d.id
    ensures c == d
  {
  }

  lemma {:induction false} ThreeSteps(s: Sys, a: Action, b: Action, c: Action)
    requires Enabled(s, a) && Enabled(Apply(s, a), b) && Enabled(Apply(Apply(s, a), b), c)
    ensures Legal(s, [a, b, c]) && After(s, [a, b, c]) == Apply(Apply(Apply(s, a), b), c)
  {
    Extend(s, [], a);
    Extend(s, [] + [a], b);
    Extend(s, [] + [a] + [b], c);
    assert [] + [a] + [b] + [c] == [a, b, c];
  }

  lemma {:induction false} HandledConcat(run: seq<Action>, rest: seq<Action>)
    ensures Handled(run + rest) == Handled(run) + Handled(rest)
  {
    if run == [] {
      assert run + rest == rest;
    } else {
      var all, later := run + rest, run[1..];
      assert all[0] == run[0] && all[1..] == later + rest;
      HandledConcat(later, rest);
      HandledFirst(run);
      HandledFirst(all);
      Reassociate(HandledBy(run[0]), Handled(later), Handled(rest));
    }
  }

  lemma {:induction false} Reassociate(a: seq<nat>, b: seq<nat>, c: seq<nat>)
    ensures a + (b + c) == a + b + c
  {
  }

  lemma {:induction false} HandledFirst(run: seq<Action>)
    requires run != []
    ensures Handled(run) == HandledBy(run[0]) + Handled(run[1..])
  {
  }
}
