/** Safety of the outbound queue over every interleaving of enqueues, the
    worker and crashes. */
module QueueSafety {
  import opened Text
  import opened Backoff
  import opened Classify
  import opened QueueTypes
  import opened RateLimit
  import opened QueueMachine
  import Input

  // ------------------------------------------------------------------
  // Rows: nothing lost, terminal states absorbing
  // ------------------------------------------------------------------

  predicate MayBecome(a: RcptState, b: RcptState) {
    match a
    case Ready => b.Ready? || b.Claimed? || b.Expired?
    case Deferred => b.Deferred? || b.Claimed? || b.Expired?
    case Claimed => true
    case _ => b == a
  }

  /** What one step may do to one existing row. */
  ghost predicate RowStep(r: Rcpt, r': Rcpt) {
    && r'.Identity() == r.Identity()
    && MayBecome(r.state, r'.state)
    && (r.state.IsTerminal() ==> r' == r)
    && (r.delayedDsnSent ==> r'.delayedDsnSent)
    && r.attempts <= r'.attempts <= r.attempts + 1
    && (r'.attempts != r.attempts ==> r.state.Claimed? && !r'.state.Claimed?)
  }

  lemma {:induction false} StepOnRow(s: Sys, a: Action, i: nat)
    requires Inv(s) && Enabled(s, a) && i < |s.rcpts|
    ensures |s.rcpts| <= |Apply(s, a).rcpts|
    ensures s.outbound <= Apply(s, a).outbound
    ensures RowStep(s.rcpts[i], Apply(s, a).rcpts[i])
  {
    if a.Release? || a.Finalize? {
      HandledOnRow(s, a, i);
    } else if a.ByEnqueue() {
      EnqueueOnRow(s, a, i);
    } else {
      OtherOnRow(s, a, i);
    }
  }

  lemma {:induction false} EnqueueOnRow(s: Sys, a: Action, i: nat)
    requires Inv(s) && Enabled(s, a) && i < |s.rcpts| && a.ByEnqueue()
    ensures |s.rcpts| <= |Apply(s, a).rcpts| && s.outbound <= Apply(s, a).outbound
    ensures s.rcpts[i] == Apply(s, a).rcpts[i]
  {
  }

  lemma {:induction false} HandledOnRow(s: Sys, a: Action, i: nat)
    requires Inv(s) && Enabled(s, a) && i < |s.rcpts| && (a.Release? || a.Finalize?)
    ensures |s.rcpts| == |Apply(s, a).rcpts| && s.outbound == Apply(s, a).outbound
    ensures RowStep(s.rcpts[i], Apply(s, a).rcpts[i])
  {
    WithoutKeepsMatch(s, a.c);
  }

  lemma {:induction false} OtherOnRow(s: Sys, a: Action, i: nat)
    requires Inv(s) && Enabled(s, a) && i < |s.rcpts| && !a.Release? && !a.Finalize? && !a.ByEnqueue()
    ensures |s.rcpts| == |Apply(s, a).rcpts| && s.outbound == Apply(s, a).outbound
    ensures RowStep(s.rcpts[i], Apply(s, a).rcpts[i])
  {
  }

  /** Over every run no recipient row disappears or changes its identity, no
      message row changes at all, and a delivered, failed or expired row is
      frozen in every column. */
  lemma {:induction false} RowsSurviveRuns(s: Sys, run: seq<Action>, i: nat)
    requires Inv(s) && Legal(s, run) && i < |s.rcpts|
    ensures |s.rcpts| <= |After(s, run).rcpts|
    ensures s.outbound <= After(s, run).outbound
    ensures After(s, run).rcpts[i].Identity() == s.rcpts[i].Identity()
    ensures s.rcpts[i].state.IsTerminal() ==> After(s, run).rcpts[i] == s.rcpts[i]
    ensures s.rcpts[i].attempts <= After(s, run).rcpts[i].attempts
    decreases |run|
  {
    if run == [] {
    } else {
      StepOnRow(s, run[0], i);
      StepKeepsInv(s, run[0]);
      RowsSurviveRuns(Apply(s, run[0]), run[1..], i);
    }
  }

  // ------------------------------------------------------------------
  // Rows: none duplicated
  // ------------------------------------------------------------------

  type RowIdentity = (nat, string, string, string)

  function Identities(rcpts: seq<Rcpt>): (ids: seq<RowIdentity>)
    ensures |ids| == |rcpts| && forall i :: 0 <= i < |ids| ==> ids[i] == rcpts[i].Identity()
  {
    seq(|rcpts|, i requires 0 <= i < |rcpts| => rcpts[i].Identity())
  }

  /** How many recipients the enqueue at work inserts during a run. */
  ghost function Written(s: Sys, run: seq<Action>): (w: nat)
    requires Legal(s, run) && s.insert.Some?
    decreases |run|
  {
    if run == [] then 0
    else
      var s1 := Apply(s, run[0]);
      (if run[0].Add? then 1 else 0) + if s1.insert.Some? then Written(s1, run[1..]) else 0
  }

  lemma {:induction false} WrittenBound(s: Sys, run: seq<Action>)
    requires Inv(s) && Legal(s, run) && s.insert.Some?
    ensures s.insert.value.done + Written(s, run) <= |s.insert.value.sp.msg.recipients|
    decreases |run|
  {
    if run == [] {
    } else {
      var s1 := Apply(s, run[0]);
      StepKeepsInv(s, run[0]);
      StepOnInsert(s, run[0]);
      if s1.insert.Some? { WrittenBound(s1, run[1..]); }
    }
  }

  /** An accepted message: what was spooled, when it was accepted, the number of its row,
      and how many of its recipients were inserted. */
  datatype Block = Block(sp: Spooled, now: int, outboundId: nat, written: nat) {
    function Recipients(): seq<string> { sp.msg.recipients }
    predicate Ok() { written <= |Recipients()| }
  }

  /** The message row that belongs to an accepted message. */
  ghost predicate RowFor(ob: Outbound, b: Block) {
    && ob.accountId == b.sp.msg.accountId && ob.envelopeFrom == b.sp.msg.envelopeFrom && ob.isDsn == b.sp.msg.isDsn
    && ob.blob == b.sp.hash && ob.createdAt == b.now && ob.expiresAt == b.now + 432000
  }

  /** The fixed columns of the row for one recipient: its message, its address, the
      domain (the lower-cased text after the address's last '@') and what to report. */
  function IdentityOf(outboundId: nat, address: string): RowIdentity {
    (outboundId, address, Lower(Input.AfterLastAt(address)), "FAILURE")
  }

  function RowsOf(outboundId: nat, addresses: seq<string>): (ids: seq<RowIdentity>)
    ensures |ids| == |addresses|
  {
    seq(|addresses|, i requires 0 <= i < |addresses| => IdentityOf(outboundId, addresses[i]))
  }

  function AllRowsOf(blocks: seq<Block>): seq<RowIdentity> {
    if blocks == [] then []
    else (if blocks[0].Ok() then RowsOf(blocks[0].outboundId, blocks[0].Recipients()[..blocks[0].written]) else [])
         + AllRowsOf(blocks[1..])
  }

  /** The messages a run accepts, in order. */
  ghost function Blocks(s: Sys, run: seq<Action>): seq<Block>
    requires Inv(s) && Legal(s, run)
    decreases |run|
  {
    if run == [] then []
    else
      StepKeepsInv(s, run[0]);
      var s1 := Apply(s, run[0]);
      (if s.insert.None? && s1.insert.Some?
       then [Block(s1.insert.value.sp, s1.insert.value.now, |s.outbound|, Written(s1, run[1..]))] else [])
      + Blocks(s1, run[1..])
  }

  /** What the run still inserts for the message at work when it starts. */
  ghost function Rest(s: Sys, run: seq<Action>): seq<RowIdentity>
    requires Inv(s) && Legal(s, run)
  {
    if s.insert.None? then []
    else
      WrittenBound(s, run);
      Part(s.insert.value, Written(s, run))
  }

  /** The next w rows of an enqueue at work. */
  function Part(ins: Insert, w: nat): seq<RowIdentity>
    requires ins.done + w <= |ins.sp.msg.recipients|
  {
    RowsOf(ins.outboundId, ins.sp.msg.recipients[ins.done..ins.done + w])
  }

  lemma {:induction false} PartFirst(ins: Insert, w: nat)
    requires ins.done + 1 + w <= |ins.sp.msg.recipients|
    ensures Part(ins, 1 + w) == [IdentityOf(ins.outboundId, ins.sp.msg.recipients[ins.done])] + Part(ins.(done := ins.done + 1), w)
    ensures Part(ins, 0) == []
  {
    var part := ins.sp.msg.recipients[ins.done..ins.done + 1 + w];
    RowsOfFirst(ins.outboundId, part);
    assert part[1..] == ins.sp.msg.recipients[ins.done + 1..ins.done + 1 + w];
  }

  /** Only inserting the next recipient adds a row. */
  lemma {:induction false} StepOnIdentities(s: Sys, a: Action)
    requires Inv(s) && Enabled(s, a)
    ensures Identities(Apply(s, a).rcpts) == Identities(s.rcpts) + if a.Add? then [NextRow(s)] else []
  {
    var s' := Apply(s, a);
    forall i: nat | i < |s.rcpts| ensures i < |s'.rcpts| && s'.rcpts[i].Identity() == s.rcpts[i].Identity() {
      StepOnRow(s, a, i);
    }
    assert |s'.rcpts| == |s.rcpts| + if a.Add? then 1 else 0;
  }

  function NextRow(s: Sys): RowIdentity
    requires s.insert.Some? && s.insert.value.done < |s.insert.value.sp.msg.recipients|
  {
    var ins := s.insert.value;
    IdentityOf(ins.outboundId, ins.sp.msg.recipients[ins.done])
  }

  /** What a step does to the enqueue at work and to the message rows. */
  ghost predicate InsertStep(s: Sys, a: Action, s1: Sys)
    requires Inv(s) && Enabled(s, a)
  {
    if a.Add? then
      var ins := s.insert.value;
      s1.insert == (if ins.done + 1 == |ins.sp.msg.recipients| then None else Some(ins.(done := ins.done + 1)))
      && |s1.outbound| == |s.outbound|
    else if s.insert.None? && s1.insert.Some? then
      s1.insert.value.done == 0 && s1.insert.value.outboundId == |s.outbound| && |s1.outbound| == |s.outbound| + 1
    else (s1.insert == s.insert || ((a.Abort? || a.Crash?) && s1.insert.None?)) && |s1.outbound| == |s.outbound|
  }

  lemma {:induction false} StepOnInsert(s: Sys, a: Action)
    requires Inv(s) && Enabled(s, a)
    ensures InsertStep(s, a, Apply(s, a))
  {
  }

  lemma {:induction false} RowsOfFirst(id: nat, addresses: seq<string>)
    requires addresses != []
    ensures RowsOf(id, addresses) == [IdentityOf(id, addresses[0])] + RowsOf(id, addresses[1..])
  {
  }

  lemma {:induction false} RestOfAdd(s: Sys, run: seq<Action>)
    requires Inv(s) && Legal(s, run) && run != [] && run[0].Add? && Inv(Apply(s, run[0]))
    ensures [NextRow(s)] + Rest(Apply(s, run[0]), run[1..]) == Rest(s, run)
  {
    var s1, ins := Apply(s, run[0]), s.insert.value;
    StepOnInsert(s, run[0]);
    var w := if s1.insert.Some? then Written(s1, run[1..]) else 0;
    WrittenBound(s, run);
    assert Written(s, run) == 1 + w;
    PartFirst(ins, w);
    RestIsPart(s1, run[1..]);
    RestIsPart(s, run);
    if s1.insert.None? { PartFirst(ins, 0); }
  }

  lemma {:induction false} RestIsPart(s: Sys, run: seq<Action>)
    requires Inv(s) && Legal(s, run)
    ensures s.insert.None? ==> Rest(s, run) == []
    ensures s.insert.Some? ==>
      s.insert.value.done + Written(s, run) <= |s.insert.value.sp.msg.recipients| && Rest(s, run) == Part(s.insert.value, Written(s, run))
  {
    if s.insert.Some? { WrittenBound(s, run); }
  }

  lemma {:induction false} RestOfOther(s: Sys, run: seq<Action>)
    requires Inv(s) && Legal(s, run) && run != [] && !run[0].Add? && Inv(Apply(s, run[0]))
    ensures s.insert.Some? || Apply(s, run[0]).insert.None? ==> Rest(Apply(s, run[0]), run[1..]) == Rest(s, run)
  {
    StepOnInsert(s, run[0]);
  }

  /** Over every run the recipient rows are the old ones and then, in order, one for
      each recipient inserted for each accepted message, which is a first part of
      that message's recipients; every new message row has exactly one such part. */
  lemma {:induction false} RowsConserved(s: Sys, run: seq<Action>)
    requires Inv(s) && Legal(s, run)
    ensures Identities(After(s, run).rcpts) == Identities(s.rcpts) + Rest(s, run) + AllRowsOf(Blocks(s, run))
    ensures |After(s, run).outbound| == |s.outbound| + |Blocks(s, run)|
    ensures forall k :: 0 <= k < |Blocks(s, run)| ==> Blocks(s, run)[k].outboundId == |s.outbound| + k
    decreases |run|
  {
    if run == [] {
      assert Rest(s, run) == [] && AllRowsOf(Blocks(s, run)) == [];
    } else {
      StepKeepsInv(s, run[0]);
      RowsConserved(Apply(s, run[0]), run[1..]);
      RowsOfStep(s, run);
      MessagesOfStep(s, run);
    }
  }

  ghost predicate RowsFor(outbound: seq<Outbound>, from: nat, blocks: seq<Block>) {
    |outbound| == from + |blocks| && forall k :: 0 <= k < |blocks| ==> RowFor(outbound[from + k], blocks[k])
  }

  /** Over every run the new message rows are, in order, those of the accepted
      messages: each holds its message's account, sender, content, times and kind. */
  lemma {:induction false} MessagesConserved(s: Sys, run: seq<Action>)
    requires Inv(s) && Legal(s, run)
    ensures RowsFor(After(s, run).outbound, |s.outbound|, Blocks(s, run))
    decreases |run|
  {
    if run == [] {
    } else {
      StepKeepsInv(s, run[0]);
      MessagesConserved(Apply(s, run[0]), run[1..]);
      MessageRowOfStep(s, run, After(s, run).outbound);
    }
  }

  /** A message row is written once, when its message is accepted. */
  lemma {:induction false} MessageRowOfStep(s: Sys, run: seq<Action>, outbound: seq<Outbound>)
    requires Inv(s) && Legal(s, run) && run != [] && Inv(Apply(s, run[0])) && outbound == After(s, run).outbound
    requires RowsFor(outbound, |Apply(s, run[0]).outbound|, Blocks(Apply(s, run[0]), run[1..]))
    ensures RowsFor(outbound, |s.outbound|, Blocks(s, run))
  {
    var s1, later := Apply(s, run[0]), run[1..];
    StepOnInsert(s, run[0]);
    if s.insert.None? && s1.insert.Some? {
      var b := Block(s1.insert.value.sp, s1.insert.value.now, |s.outbound|, Written(s1, later));
      MessagesSurviveRuns(s1, later);
      assert outbound[|s.outbound|] == s1.outbound[|s.outbound|];
      FirstRowFor(outbound, |s.outbound|, b, Blocks(s1, later));
    }
  }

  lemma {:induction false} FirstRowFor(outbound: seq<Outbound>, from: nat, b: Block, rest: seq<Block>)
    requires RowsFor(outbound, from + 1, rest) && RowFor(outbound[from], b)
    ensures RowsFor(outbound, from, [b] + rest)
  {
    forall k | 0 <= k < 1 + |rest| ensures RowFor(outbound[from + k], ([b] + rest)[k]) {
      if k > 0 { assert RowFor(outbound[from + 1 + (k - 1)], rest[k - 1]); }
    }
  }

  lemma {:induction false} MessagesSurviveRuns(s: Sys, run: seq<Action>)
    requires Inv(s) && Legal(s, run)
    ensures s.outbound <= After(s, run).outbound
    decreases |run|
  {
    if run == [] {
    } else {
      StepKeepsInv(s, run[0]);
      StepKeepsMessages(s, run[0]);
      MessagesSurviveRuns(Apply(s, run[0]), run[1..]);
    }
  }

  lemma {:induction false} StepKeepsMessages(s: Sys, a: Action)
    requires Inv(s) && Enabled(s, a)
    ensures s.outbound <= Apply(s, a).outbound
  {
  }

  lemma {:induction false} RowsOfStep(s: Sys, run: seq<Action>)
    requires Inv(s) && Legal(s, run) && run != [] && Inv(Apply(s, run[0]))
    ensures var s1 := Apply(s, run[0]);
      Identities(s1.rcpts) + Rest(s1, run[1..]) + AllRowsOf(Blocks(s1, run[1..]))
      == Identities(s.rcpts) + Rest(s, run) + AllRowsOf(Blocks(s, run))
  {
    var s1, later := Apply(s, run[0]), run[1..];
    var ids, rest, blocks := Identities(s.rcpts), Rest(s1, later), AllRowsOf(Blocks(s1, later));
    StepOnIdentities(s, run[0]);
    BlocksOfStep(s, run);
    if run[0].Add? {
      RestOfAdd(s, run);
      Regroup(ids, [NextRow(s)], rest, blocks);
    } else {
      NothingAdded(ids, rest, blocks);
      RestOfOther(s, run);
    }
  }

  lemma {:induction false} NothingAdded(ids: seq<RowIdentity>, rest: seq<RowIdentity>, blocks: seq<RowIdentity>)
    ensures ids + [] == ids && ids + rest + blocks == ids + [] + (rest + blocks)
  {
  }

  lemma {:induction false} BlocksOfStep(s: Sys, run: seq<Action>)
    requires Inv(s) && Legal(s, run) && run != [] && Inv(Apply(s, run[0]))
    ensures var s1 := Apply(s, run[0]);
      if s.insert.None? && s1.insert.Some?
      then AllRowsOf(Blocks(s, run)) == Rest(s1, run[1..]) + AllRowsOf(Blocks(s1, run[1..])) && Rest(s, run) == []
      else Blocks(s, run) == Blocks(s1, run[1..])
  {
    var s1 := Apply(s, run[0]);
    StepOnInsert(s, run[0]);
    if s.insert.None? && s1.insert.Some? {
      var ins, w := s1.insert.value, Written(s1, run[1..]);
      WrittenBound(s1, run[1..]);
      assert ins.sp.msg.recipients[0..0 + w] == ins.sp.msg.recipients[..w];
      FirstBlock(Block(ins.sp, ins.now, |s.outbound|, w), Blocks(s1, run[1..]));
    }
  }

  lemma {:induction false} FirstBlock(b: Block, rest: seq<Block>)
    requires b.Ok()
    ensures AllRowsOf([b] + rest) == RowsOf(b.outboundId, b.Recipients()[..b.written]) + AllRowsOf(rest)
  {
    assert ([b] + rest)[1..] == rest;
  }

  lemma {:induction false} MessagesOfStep(s: Sys, run: seq<Action>)
    requires Inv(s) && Legal(s, run) && run != [] && Inv(Apply(s, run[0]))
    ensures var s1 := Apply(s, run[0]);
      |s1.outbound| + |Blocks(s1, run[1..])| == |s.outbound| + |Blocks(s, run)|
    ensures var s1 := Apply(s, run[0]);
      (forall k :: 0 <= k < |Blocks(s1, run[1..])| ==> Blocks(s1, run[1..])[k].outboundId == |s1.outbound| + k)
      ==> (forall k :: 0 <= k < |Blocks(s, run)| ==> Blocks(s, run)[k].outboundId == |s.outbound| + k)
  {
    StepOnInsert(s, run[0]);
  }

  /** No enqueue is given up. */
  predicate RunsToEnd(run: seq<Action>) { forall k :: 0 <= k < |run| ==> !run[k].Abort? && !run[k].Crash? }

  lemma {:induction false} AllWritten(s: Sys, run: seq<Action>)
    requires Inv(s) && Legal(s, run) && RunsToEnd(run) && s.insert.Some? && After(s, run).insert.None?
    ensures s.insert.value.done + Written(s, run) == |s.insert.value.sp.msg.recipients|
    decreases |run|
  {
    var s1 := Apply(s, run[0]);
    StepKeepsInv(s, run[0]);
    StepOnInsert(s, run[0]);
    if s1.insert.None? {
    } else {
      AllWritten(s1, run[1..]);
    }
  }

  /** In a run in which no enqueue is given up or left unfinished, every accepted message
      has a row for each of its recipients. */
  lemma {:induction false} WholeMessages(s: Sys, run: seq<Action>)
    requires Inv(s) && Legal(s, run) && RunsToEnd(run) && After(s, run).insert.None?
    ensures forall k :: 0 <= k < |Blocks(s, run)| ==> Blocks(s, run)[k].written == |Blocks(s, run)[k].Recipients()|
    ensures s.insert.Some? ==> s.insert.value.done + Written(s, run) == |s.insert.value.sp.msg.recipients|
    decreases |run|
  {
    if run == [] {
    } else {
      var s1 := Apply(s, run[0]);
      StepKeepsInv(s, run[0]);
      StepOnInsert(s, run[0]);
      WholeMessages(s1, run[1..]);
      if s.insert.Some? { AllWritten(s, run); }
      if s1.insert.Some? { AllWritten(s1, run[1..]); }
    }
  }

  lemma {:induction false} Regroup<T>(a: seq<T>, b: seq<T>, c: seq<T>, d: seq<T>)
    ensures a + b + c + d == a + (b + c) + d
  {
  }

  // ------------------------------------------------------------------
  // A pass deals with each claimed recipient exactly once
  // ------------------------------------------------------------------

  function HandledBy(a: Action): seq<nat> {
    match a
    case Release(c) => [c.id]
    case Finalize(c, _, _, _, _) => [c.id]
    case _ => []
  }

  /** The recipients a run finalizes or releases, in order. */
  function Handled(run: seq<Action>): seq<nat> {
    if run == [] then [] else HandledBy(run[0]) + Handled(run[1..])
  }

  function Ids(batch: seq<ClaimedRcpt>): (ids: seq<nat>)
    ensures |ids| == |batch|
    ensures forall k :: 0 <= k < |batch| ==> ids[k] == batch[k].id
  {
    if batch == [] then [] else [batch[0].id] + Ids(batch[1..])
  }

  predicate WithinOnePass(run: seq<Action>) {
    forall k :: 0 <= k < |run| ==> !run[k].Claim? && !run[k].Crash?
  }

  lemma {:induction false} WithoutTakesOne(batch: seq<ClaimedRcpt>, c: ClaimedRcpt)
    requires c in batch
    requires forall j, k :: 0 <= j < k < |batch| ==> batch[j].id != batch[k].id
    ensures multiset(Ids(batch)) == multiset(Ids(Without(batch, c.id))) + multiset{c.id}
  {
    if batch[0].id == c.id {
      WithoutAbsent(batch[1..], c.id);
      TakeFirst(batch);
    } else {
      assert c in batch[1..] by { assert batch == [batch[0]] + batch[1..]; }
      WithoutTakesOne(batch[1..], c);
      TakeLater(batch, c.id);
    }
  }

  lemma {:induction false} TakeFirst(batch: seq<ClaimedRcpt>)
    requires batch != [] && Without(batch[1..], batch[0].id) == batch[1..]
    ensures multiset(Ids(batch)) == multiset(Ids(Without(batch, batch[0].id))) + multiset{batch[0].id}
  {
    IdsFirst(batch);
  }

  lemma {:induction false} TakeLater(batch: seq<ClaimedRcpt>, id: nat)
    requires batch != [] && batch[0].id != id
    requires multiset(Ids(batch[1..])) == multiset(Ids(Without(batch[1..], id))) + multiset{id}
    ensures multiset(Ids(batch)) == multiset(Ids(Without(batch, id))) + multiset{id}
  {
    IdsFirst(batch);
    var left := Without(batch, id);
    assert left[0] == batch[0] && left[1..] == Without(batch[1..], id);
    IdsFirst(left);
  }

  lemma {:induction false} IdsFirst(batch: seq<ClaimedRcpt>)
    requires batch != []
    ensures multiset(Ids(batch)) == multiset{batch[0].id} + multiset(Ids(batch[1..]))
  {
    assert Ids(batch) == [batch[0].id] + Ids(batch[1..]);
  }

  lemma {:induction false} WithoutAbsent(batch: seq<ClaimedRcpt>, id: nat)
    requires forall k :: 0 <= k < |batch| ==> batch[k].id != id
    ensures Without(batch, id) == batch
  {
    if batch == [] {
    } else {
      WithoutAbsent(batch[1..], id);
    }
  }

  lemma {:induction false} StepHandles(s: Sys, a: Action)
    requires Inv(s) && Enabled(s, a) && !a.Claim? && !a.Crash?
    ensures multiset(HandledBy(a)) + multiset(Ids(Apply(s, a).batch)) == multiset(Ids(s.batch))
  {
    if a.Release? || a.Finalize? {
      TakenFromBatch(s, a);
      HandledOne(s.batch, a.c);
      assert HandledBy(a) == [a.c.id];
    } else {
      assert Apply(s, a).batch == s.batch;
      assert HandledBy(a) == [];
    }
  }

  lemma {:induction false} HandledOne(batch: seq<ClaimedRcpt>, c: ClaimedRcpt)
    requires c in batch
    requires forall j, k :: 0 <= j < k < |batch| ==> batch[j].id != batch[k].id
    ensures multiset([c.id]) + multiset(Ids(Without(batch, c.id))) == multiset(Ids(batch))
  {
    WithoutTakesOne(batch, c);
  }

  lemma {:induction false} TakenFromBatch(s: Sys, a: Action)
    requires Inv(s) && Enabled(s, a) && (a.Release? || a.Finalize?)
    ensures a.c in s.batch && Apply(s, a).batch == Without(s.batch, a.c.id)
    ensures forall j, k :: 0 <= j < k < |s.batch| ==> s.batch[j].id != s.batch[k].id
  {
  }

  /** Until the next claim, the recipients dealt with so far and those still in
      memory are together exactly the claimed ones, each once. */
  lemma {:induction false} EachClaimHandledOnce(s: Sys, run: seq<Action>)
    requires Inv(s) && Legal(s, run) && WithinOnePass(run)
    ensures multiset(Handled(run)) + multiset(Ids(After(s, run).batch)) == multiset(Ids(s.batch))
    decreases |run|
  {
    if run == [] {
    } else {
      var s1, now := FirstHandles(s, run);
      EachClaimHandledOnce(s1, run[1..]);
      AddUp(now, multiset(Handled(run[1..])), multiset(Ids(After(s1, run[1..]).batch)), multiset(Ids(s1.batch)), multiset(Ids(s.batch)));
    }
  }

  lemma {:induction false} FirstHandles(s: Sys, run: seq<Action>) returns (s1: Sys, now: multiset<nat>)
    requires Inv(s) && Legal(s, run) && WithinOnePass(run) && run != []
    ensures Inv(s1) && Legal(s1, run[1..]) && After(s, run) == After(s1, run[1..])
    ensures now + multiset(Ids(s1.batch)) == multiset(Ids(s.batch)) && multiset(Handled(run)) == now + multiset(Handled(run[1..]))
  {
    s1, now := Apply(s, run[0]), multiset(HandledBy(run[0]));
    StepHandles(s, run[0]);
    StepKeepsInv(s, run[0]);
    HandledCounts(run);
  }

  lemma {:induction false} AddUp(now: multiset<nat>, later: multiset<nat>, left: multiset<nat>, before: multiset<nat>, all: multiset<nat>)
    requires now + before == all && later + left == before
    ensures now + later + left == all
  {
  }

  lemma {:induction false} HandledCounts(run: seq<Action>)
    requires run != []
    ensures multiset(Handled(run)) == multiset(HandledBy(run[0])) + multiset(Handled(run[1..]))
  {
    assert Handled(run) == HandledBy(run[0]) + Handled(run[1..]);
  }

  // ------------------------------------------------------------------
  // Blobs stay while they are needed
  // ------------------------------------------------------------------

  /** Every unfinished recipient's message content is in the store. */
  ghost predicate BlobSafe(s: Sys) {
    forall i :: 0 <= i < |s.rcpts| && !s.rcpts[i].state.IsTerminal() && s.rcpts[i].outboundId < |s.outbound| ==>
      s.outbound[s.rcpts[i].outboundId].blob in s.blobs
  }

  /** Every enqueue at work still has the content it wrote. */
  ghost predicate SpoolSafe(s: Sys) {
    (forall sp :: sp in s.spooled ==> sp.hash in s.blobs) && (s.insert.Some? ==> s.insert.value.sp.hash in s.blobs)
  }

  ghost predicate Safe(s: Sys) { BlobSafe(s) && SpoolSafe(s) }

  /** Some enqueue of this content is between its blob write and its last insert. */
  ghost predicate InFlight(s: Sys, hash: string) {
    (exists sp :: sp in s.spooled && sp.hash == hash) || (s.insert.Some? && s.insert.value.sp.hash == hash)
  }

  /** A recipient with this content was inserted since the cleanup's query. */
  ghost predicate InsertedSince(s: Sys, d: Doomed) {
    exists i: nat :: d.mark <= i < |s.rcpts| && HasContent(s, i, d.hash)
  }

  /** A removal overlaps an enqueue of the same content: that enqueue has written its
      blob and is not through, or it inserted a recipient after the query. */
  ghost predicate Races(s: Sys, a: Action) {
    && a == Remove(true) && s.doomed.Some?
    && (InFlight(s, s.doomed.value.hash) || InsertedSince(s, s.doomed.value))
  }

  ghost predicate RaceFree(s: Sys, run: seq<Action>)
    requires Legal(s, run)
    decreases |run|
  {
    run == [] || (!Races(s, run[0]) && RaceFree(Apply(s, run[0]), run[1..]))
  }

  ghost predicate AlwaysSafe(s: Sys, run: seq<Action>)
    requires Legal(s, run)
    decreases |run|
  {
    Safe(s) && (run == [] || AlwaysSafe(Apply(s, run[0]), run[1..]))
  }

  lemma {:induction false} StepSafeExactly(s: Sys, a: Action)
    requires Inv(s) && Enabled(s, a) && Safe(s)
    ensures Safe(Apply(s, a)) <==> !Races(s, a)
  {
    if a.Remove? {
      RemoveSafeExactly(s, a);
    } else if a.ByEnqueue() {
      EnqueueStepKeepsBlobs(s, a);
    } else {
      WorkerStepKeepsBlobs(s, a);
    }
  }

  lemma {:induction false} EnqueueStepKeepsBlobs(s: Sys, a: Action)
    requires Inv(s) && Enabled(s, a) && Safe(s) && a.ByEnqueue()
    ensures Safe(Apply(s, a))
  {
    match a
    case Add => AddKeepsBlobs(s);
    case _ =>
  }

  lemma {:induction false} AddKeepsBlobs(s: Sys)
    requires Inv(s) && Enabled(s, Add) && Safe(s)
    ensures Safe(Apply(s, Add))
  {
  }

  /** Without a removal or an enqueue no content is lost. */
  lemma {:induction false} WorkerStepKeepsBlobs(s: Sys, a: Action)
    requires Inv(s) && Enabled(s, a) && !a.Remove? && !a.ByEnqueue()
    ensures BlobSafe(s) ==> BlobSafe(Apply(s, a))
    ensures SpoolSafe(s) ==> SpoolSafe(Apply(s, a))
  {
    var s' := Apply(s, a);
    WorkerStepKeepsStore(s, a);
    forall i | 0 <= i < |s.rcpts| ensures RowStep(s.rcpts[i], s'.rcpts[i]) { StepOnRow(s, a, i); }
  }

  lemma {:induction false} WorkerStepKeepsStore(s: Sys, a: Action)
    requires Inv(s) && Enabled(s, a) && !a.Remove? && !a.ByEnqueue()
    ensures var s' := Apply(s, a);
      s'.blobs == s.blobs && s'.outbound == s.outbound && |s'.rcpts| == |s.rcpts| && s'.spooled <= s.spooled
      && (s'.insert == s.insert || s'.insert.None?)
  {
    if a.Release? || a.Finalize? { WithoutKeepsMatch(s, a.c); }
  }

  lemma {:induction false} RemoveSafeExactly(s: Sys, a: Action)
    requires Inv(s) && Enabled(s, a) && Safe(s) && a.Remove?
    ensures Safe(Apply(s, a)) <==> !Races(s, a)
  {
    if s.doomed.Some? && a.ok {
      var d, s' := s.doomed.value, Apply(s, a);
      if InsertedSince(s, d) {
        var i: nat :| d.mark <= i < |s.rcpts| && HasContent(s, i, d.hash);
        assert !s'.rcpts[i].state.IsTerminal() && s'.outbound[s'.rcpts[i].outboundId].blob !in s'.blobs;
      } else {
        forall i: nat | i < |s.rcpts| && HasContent(s, i, d.hash) ensures s.rcpts[i].state.IsTerminal() {}
        assert BlobSafe(s');
      }
    }
  }

  /** Every unfinished recipient and every enqueue at work has its blob, throughout a
      run, exactly if no removal in it overlaps an enqueue of the same content. */
  lemma {:induction false} BlobsSafeExactly(s: Sys, run: seq<Action>)
    requires Inv(s) && Safe(s) && Legal(s, run)
    ensures AlwaysSafe(s, run) <==> RaceFree(s, run)
    decreases |run|
  {
    if run == [] {
    } else {
      StepSafeExactly(s, run[0]);
      StepKeepsInv(s, run[0]);
      if Safe(Apply(s, run[0])) { BlobsSafeExactly(Apply(s, run[0]), run[1..]); }
    }
  }

  /** In every state reached without such an overlap, each ready, claimed or
      deferred recipient's blob is present, even when messages share content. */
  lemma {:induction false} BlobsPresentWhileNeeded(s: Sys, run: seq<Action>)
    requires Inv(s) && Safe(s) && Legal(s, run) && RaceFree(s, run)
    ensures Safe(After(s, run))
    decreases |run|
  {
    if run == [] {
    } else {
      StepSafeExactly(s, run[0]);
      StepKeepsInv(s, run[0]);
      BlobsPresentWhileNeeded(Apply(s, run[0]), run[1..]);
    }
  }

  /** What such an overlap costs: a recipient without content at once, or as soon as
      the enqueue inserts its next recipient. */
  lemma {:induction false} RaceLosesBlob(s: Sys, a: Action, now: int) returns (rest: seq<Action>)
    requires Inv(s) && Enabled(s, a) && Races(s, a)
    requires forall sp :: sp in s.spooled ==> s.insert.Some? || WithinLimits(s.outbound, s.rcpts, sp.msg, now)
    requires s.insert.Some? ==> s.insert.value.sp.hash == s.doomed.value.hash || InsertedSince(s, s.doomed.value)
    ensures Legal(Apply(s, a), rest) && !BlobSafe(After(Apply(s, a), rest))
  {
    var d, s' := s.doomed.value, Apply(s, a);
    StepKeepsInv(s, a);
    if InsertedSince(s, d) {
      var i: nat :| d.mark <= i < |s.rcpts| && HasContent(s, i, d.hash);
      rest := [];
      assert !s'.rcpts[i].state.IsTerminal() && s'.outbound[s'.rcpts[i].outboundId].blob !in s'.blobs;
    } else if s.insert.Some? {
      rest := [Add];
      InsertLoses(s', d.hash);
      OneStep(s', Add);
    } else {
      var sp :| sp in s.spooled && sp.hash == d.hash;
      rest := [Open(sp, now), Add];
      OpenForInsert(s', sp, now);
      InsertLoses(Apply(s', Open(sp, now)), d.hash);
      TwoSteps(s', Open(sp, now), Add);
    }
  }

  lemma {:induction false} InsertLoses(s: Sys, hash: string)
    requires Inv(s) && s.insert.Some? && s.insert.value.sp.hash == hash && hash !in s.blobs
    ensures Enabled(s, Add) && !BlobSafe(Apply(s, Add))
  {
    var s' := Apply(s, Add);
    assert s'.rcpts[|s.rcpts|].state.Ready?;
  }

  lemma {:induction false} OpenForInsert(s: Sys, sp: Spooled, now: int)
    requires Inv(s) && sp in s.spooled && s.insert.None? && WithinLimits(s.outbound, s.rcpts, sp.msg, now)
    ensures Enabled(s, Open(sp, now)) && Inv(Apply(s, Open(sp, now)))
    ensures Apply(s, Open(sp, now)).insert == Some(Insert(sp, |s.outbound|, now, 0)) && Apply(s, Open(sp, now)).blobs == s.blobs
  {
    StepKeepsInv(s, Open(sp, now));
  }

  lemma {:induction false} OneStep(s: Sys, a: Action)
    requires Enabled(s, a)
    ensures Legal(s, [a]) && After(s, [a]) == Apply(s, a)
  {
    Extend(s, [], a);
    assert [] + [a] == [a];
  }

  lemma {:induction false} TwoSteps(s: Sys, a: Action, b: Action)
    requires Enabled(s, a) && Enabled(Apply(s, a), b)
    ensures Legal(s, [a, b]) && After(s, [a, b]) == Apply(Apply(s, a), b)
  {
    OneStep(s, a);
    Extend(s, [a], b);
    assert [a] + [b] == [a, b];
  }

  /** No row came in since the cleanup's query, if one is under way. */
  ghost predicate NothingSince(s: Sys) { s.doomed.Some? ==> s.doomed.value.mark == |s.rcpts| }

  /** Without enqueue steps in between, a run keeps every unfinished recipient's
      content, whatever enqueues are waiting. */
  lemma {:induction false} WorkerKeepsBlobs(s: Sys, run: seq<Action>)
    requires Inv(s) && Legal(s, run) && BlobSafe(s) && NothingSince(s)
    requires forall k :: 0 <= k < |run| ==> !run[k].ByEnqueue()
    ensures BlobSafe(After(s, run)) && NothingSince(After(s, run))
    decreases |run|
  {
    if run == [] {
    } else {
      StepKeepsInv(s, run[0]);
      AloneStepKeepsBlobs(s, run[0]);
      WorkerKeepsBlobs(Apply(s, run[0]), run[1..]);
    }
  }

  lemma {:induction false} AloneStepKeepsBlobs(s: Sys, a: Action)
    requires Inv(s) && Enabled(s, a) && BlobSafe(s) && NothingSince(s) && !a.ByEnqueue()
    ensures BlobSafe(Apply(s, a)) && NothingSince(Apply(s, a))
  {
    if a.Remove? {
      RemoveAlone(s, a);
    } else {
      WorkerStepKeepsBlobs(s, a);
      WorkerStepKeepsStore(s, a);
    }
  }

  lemma {:induction false} RemoveAlone(s: Sys, a: Action)
    requires Inv(s) && a.Remove? && BlobSafe(s) && NothingSince(s)
    ensures BlobSafe(Apply(s, a))
  {
    if s.doomed.Some? {
      forall i: nat | i < |s.rcpts| && HasContent(s, i, s.doomed.value.hash) ensures s.rcpts[i].state.IsTerminal() {}
    }
  }

  // ------------------------------------------------------------------
  // Rate limit over runs
  // ------------------------------------------------------------------

  /** The rows the enqueue at work is still to insert. */
  function PendingRows(s: Sys): seq<Rcpt> {
    if s.insert.None? || s.insert.value.done > |s.insert.value.sp.msg.recipients| then []
    else
      var ins := s.insert.value;
      NewRcpts(ins.outboundId, ins.sp.msg.recipients[ins.done..], ins.now)
  }

  /** The limits hold, also once the enqueue at work is through. */
  ghost predicate LimitsHold(s: Sys) { WindowsRespected(s.outbound, s.rcpts + PendingRows(s)) }

  lemma {:induction false} StepKeepsWindows(s: Sys, a: Action)
    requires Inv(s) && Enabled(s, a) && LimitsHold(s)
    ensures LimitsHold(Apply(s, a))
  {
    if a.Open? {
      OpenKeepsWindows(s, a);
    } else if a.Add? {
      AddKeepsRows(s);
    } else if a.Abort? || a.Crash? {
      assert Apply(s, a).rcpts + [] == s.rcpts;
      FewerRows(s.outbound, s.rcpts, PendingRows(s));
    } else {
      SameRowsKeepWindows(s, a);
    }
  }

  lemma {:induction false} OpenKeepsWindows(s: Sys, a: Action)
    requires Inv(s) && Enabled(s, a) && LimitsHold(s) && a.Open?
    ensures LimitsHold(Apply(s, a))
  {
    assert s.rcpts + PendingRows(s) == s.rcpts;
    if WithinLimits(s.outbound, s.rcpts, a.sp.msg, a.now) {
      var msg := a.sp.msg;
      assert msg.recipients[0..] == msg.recipients;
      InsertKeepsWindows(s.outbound, s.rcpts, msg, NewRow(a.sp, a.now), NewRcpts(|s.outbound|, msg.recipients, a.now));
    }
  }

  lemma {:induction false} AddKeepsRows(s: Sys)
    requires Inv(s) && Enabled(s, Add)
    ensures Apply(s, Add).rcpts + PendingRows(Apply(s, Add)) == s.rcpts + PendingRows(s)
  {
    var ins := s.insert.value;
    var left := ins.sp.msg.recipients[ins.done..];
    assert left[1..] == ins.sp.msg.recipients[ins.done + 1..];
    NewRcptsFirst(s.rcpts, ins.outboundId, left, ins.now);
  }

  lemma {:induction false} NewRcptsFirst(rcpts: seq<Rcpt>, id: nat, addresses: seq<string>, now: int)
    requires addresses != []
    ensures rcpts + NewRcpts(id, addresses, now) == rcpts + [NewRcpt(id, addresses[0], now)] + NewRcpts(id, addresses[1..], now)
  {
  }

  lemma {:induction false} SameRowsKeepWindows(s: Sys, a: Action)
    requires Inv(s) && Enabled(s, a) && LimitsHold(s) && !a.Open? && !a.Add? && !a.Abort? && !a.Crash?
    ensures LimitsHold(Apply(s, a))
  {
    var s' := Apply(s, a);
    assert |s'.rcpts| == |s.rcpts| && s'.insert == s.insert && s'.outbound == s.outbound;
    forall i: nat | i < |s.rcpts| ensures s'.rcpts[i].outboundId == s.rcpts[i].outboundId { StepOnRow(s, a, i); }
    var rows, rows' := s.rcpts + PendingRows(s), s'.rcpts + PendingRows(s);
    assert forall i :: 0 <= i < |rows| ==> rows'[i].outboundId == rows[i].outboundId;
    forall account: int, end: int
      ensures RecipientsInWindow(s.outbound, rows', account, end) <= MAX_RECIPIENTS_PER_WINDOW
    {
      SameRefsSameCount(s.outbound, rows, rows', account, end);
    }
  }

  /** At every moment of every run, under any clock, no account has more than
      200 messages or 500 recipients (bounces apart) in any hour. */
  lemma {:induction false} EveryHourWithinLimits(s: Sys, run: seq<Action>)
    requires Inv(s) && Legal(s, run) && LimitsHold(s)
    ensures LimitsHold(After(s, run)) && WindowsRespected(After(s, run).outbound, After(s, run).rcpts)
    decreases |run|
  {
    if run == [] {
      FewerRows(s.outbound, s.rcpts, PendingRows(s));
    } else {
      StepKeepsWindows(s, run[0]);
      StepKeepsInv(s, run[0]);
      EveryHourWithinLimits(Apply(s, run[0]), run[1..]);
    }
  }
}
