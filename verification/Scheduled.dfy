/** Snooze and nudge timers: the event table (crates/queue/src/scheduled.rs), the
    API that replaces them (crates/jmap/src/api.rs) and the worker pass that fires
    them (crates/queue/src/worker.rs). Event id n is index n - 1. */
module Scheduled {
  import opened Text
  import Timestamps

  datatype Kind = SnoozeResurface | FollowupNudge | Remind

  datatype Status = Pending | Fired | Cancelled

  /** Whose timer, of what kind, for which message id. */
  datatype Timer = Timer(account: int, kind: Kind, payload: string)

  datatype Event = Event(timer: Timer, fireAt: int, status: Status) {
    predicate Runs(t: Timer) { status.Pending? && timer == t }

    predicate IsDue(now: int) { status.Pending? && fireAt <= now }

    function Cancel(): Event { this.(status := Cancelled) }

    /** What the worker makes of an event. `replied` stands for: its message and
        thread load, and the thread has a reply. */
    function Fire(replied: bool): Event {
      this.(status := if timer.kind.FollowupNudge? && replied then Cancelled else Fired)
    }
  }

  type Table = seq<Event>

  predicate Distinct(ids: seq<nat>) { forall i, j :: 0 <= i < j < |ids| ==> ids[i] != ids[j] }

  /** A query's answer: exactly the rows that qualify, each once, in any order. */
  predicate Lists(events: Table, timer: Timer, found: seq<nat>) {
    && (forall i :: 0 <= i < |events| && events[i].Runs(timer) ==> i in found)
    && (forall i :: i in found ==> 0 <= i < |events| && events[i].Runs(timer))
    && Distinct(found)
  }

  predicate Loads(events: Table, now: int, loaded: seq<nat>) {
    && (forall i :: 0 <= i < |events| && events[i].IsDue(now) ==> i in loaded)
    && (forall i :: i in loaded ==> 0 <= i < |events| && events[i].IsDue(now))
    && Distinct(loaded)
  }

  /** At most one pending event per account, kind and payload. */
  ghost predicate OnePending(events: Table) {
    forall i, j :: 0 <= i < j < |events| && events[i].status.Pending? && events[j].status.Pending? ==>
      events[i].timer != events[j].timer
  }

  // ------------------------------------------------------------------
  // The stored table
  // ------------------------------------------------------------------

  class EventStore {
    var events: Table

    constructor ()
      ensures events == []
    {
      events := [];
    }

    method DueScheduledEvents(now: int) returns (due: seq<nat>)
      ensures Loads(events, now, due)
      ensures forall i :: 0 <= i < |events| ==> (i in due <==> events[i].status.Pending? && events[i].fireAt <= now)
    {
      due := [];
      for i := 0 to |events|
        invariant forall k :: k in due <==> 0 <= k < i && events[k].IsDue(now)
        invariant Distinct(due)
      {
        if events[i].IsDue(now) { due := due + [i]; }
      }
    }

    /** `pending_events_for_account`, filtered by message. */
    method PendingEvents(timer: Timer) returns (found: seq<nat>)
      ensures Lists(events, timer, found)
      ensures forall i :: 0 <= i < |events| ==> (i in found <==> events[i].status.Pending? && events[i].timer == timer)
    {
      found := [];
      for i := 0 to |events|
        invariant forall k :: k in found <==> 0 <= k < i && events[k].Runs(timer)
        invariant Distinct(found)
      {
        if events[i].Runs(timer) { found := found + [i]; }
      }
    }

    /** A `snoozeUntil` or `nudgeAt` patch with nothing in between: the timers of this
        message are cancelled, no other row changes, and a value starts a new one. */
    method Patch(timer: Timer, fireAt: Option<int>)
      modifies this
      ensures |events| == |old(events)| + (if fireAt.Some? then 1 else 0)
      ensures forall i :: 0 <= i < |old(events)| ==>
        events[i] == if old(events)[i].status.Pending? && old(events)[i].timer == timer
                     then old(events)[i].(status := Cancelled) else old(events)[i]
      ensures fireAt.Some? ==> events[|old(events)|] == Event(timer, fireAt.value, Pending)
      ensures old(OnePending(events)) ==> OnePending(events)
    {
      var found := PendingEvents(timer);
      for n := 0 to |found|
        invariant |events| == |old(events)|
        invariant forall i :: 0 <= i < |events| && i in found[..n] ==> events[i] == old(events)[i].Cancel()
        invariant forall i :: 0 <= i < |events| && i !in found[..n] ==> events[i] == old(events)[i]
      {
        var i := found[n];
        assert i in found && i !in found[..n];
        events := events[i := events[i].Cancel()];
        assert found[..n + 1] == found[..n] + [i];
      }
      assert found[..|found|] == found;
      if fireAt.Some? {
        events := events + [Event(timer, fireAt.value, Pending)];
      }
    }

    /** A worker pass with nothing in between: afterwards nothing due is pending,
        every event due before has its verdict, and the others are as they were. */
    method FireDueScheduledEvents(now: int, replied: nat -> bool)
      modifies this
      ensures |events| == |old(events)|
      ensures forall i :: 0 <= i < |events| ==>
        events[i] == if old(events)[i].status.Pending? && old(events)[i].fireAt <= now
                     then old(events)[i].(status := if old(events)[i].timer.kind.FollowupNudge? && replied(i) then Cancelled else Fired)
                     else old(events)[i]
      ensures forall i :: 0 <= i < |events| && events[i].status.Pending? ==> events[i].fireAt > now
    {
      var due := DueScheduledEvents(now);
      for n := 0 to |due|
        invariant |events| == |old(events)|
        invariant forall i :: 0 <= i < |events| && i in due[..n] ==> events[i] == old(events)[i].Fire(replied(i))
        invariant forall i :: 0 <= i < |events| && i !in due[..n] ==> events[i] == old(events)[i]
      {
        var i := due[n];
        assert i in due && i !in due[..n];
        events := events[i := events[i].Fire(replied(i))];
        assert due[..n + 1] == due[..n] + [i];
      }
      assert due[..|due|] == due;
    }
  }

  // ------------------------------------------------------------------
  // Runs: every statement of patches and of the worker's pass is a step
  // ------------------------------------------------------------------

  /** A patch at work: `todo` holds the events it listed and has not yet cancelled. */
  datatype Job = Job(timer: Timer, fireAt: Option<int>, todo: seq<nat>)

  /** `due` holds what the current pass loaded and has not yet marked. */
  datatype State = State(events: Table, due: seq<nat>, jobs: map<nat, Job>)

  const EMPTY := State([], [], map[])

  datatype Action =
    | Begin(job: nat, timer: Timer, fireAt: Option<int>, found: seq<nat>)
    | Cancel(job: nat)
    | Finish(job: nat)
    | Load(now: int, loaded: seq<nat>)
    | Mark(replied: bool)
    | Crash

  predicate Enabled(s: State, a: Action) {
    match a
    case Begin(job, timer, _, found) => job !in s.jobs && Lists(s.events, timer, found)
    case Cancel(job) => job in s.jobs && s.jobs[job].todo != [] && s.jobs[job].todo[0] < |s.events|
    case Finish(job) => job in s.jobs && s.jobs[job].todo == []
    case Load(now, loaded) => s.due == [] && Loads(s.events, now, loaded)
    case Mark(_) => s.due != [] && s.due[0] < |s.events|
    case Crash => true
  }

  /** Marks go by id and do not look at the row again. */
  function Apply(s: State, a: Action): State
    requires Enabled(s, a)
  {
    match a
    case Begin(job, timer, fireAt, found) => s.(jobs := s.jobs[job := Job(timer, fireAt, found)])
    case Cancel(job) =>
      var todo := s.jobs[job].todo;
      s.(events := s.events[todo[0] := s.events[todo[0]].Cancel()], jobs := s.jobs[job := s.jobs[job].(todo := todo[1..])])
    case Finish(job) => s.(events := s.events + Started(s.jobs[job]), jobs := s.jobs - {job})
    case Load(_, loaded) => s.(due := loaded)
    case Mark(replied) => s.(events := s.events[s.due[0] := s.events[s.due[0]].Fire(replied)], due := s.due[1..])
    case Crash => s.(due := [], jobs := map[])
  }

  /** The row a patch inserts; a null value only cancels. */
  function Started(job: Job): Table {
    if job.fireAt.Some? then [Event(job.timer, job.fireAt.value, Pending)] else []
  }

  predicate Legal(s: State, run: seq<Action>)
    decreases |run|
  {
    run == [] || (Enabled(s, run[0]) && Legal(Apply(s, run[0]), run[1..]))
  }

  function After(s: State, run: seq<Action>): State
    requires Legal(s, run)
    decreases |run|
  {
    if run == [] then s else After(Apply(s, run[0]), run[1..])
  }

  lemma {:induction false} Concat(s: State, first: seq<Action>, rest: seq<Action>)
    requires Legal(s, first) && Legal(After(s, first), rest)
    ensures Legal(s, first + rest) && After(s, first + rest) == After(After(s, first), rest)
    decreases |first|
  {
    if first == [] {
      assert first + rest == rest;
    } else {
      assert (first + rest)[0] == first[0] && (first + rest)[1..] == first[1..] + rest;
      Concat(Apply(s, first[0]), first[1..], rest);
    }
  }

  /** An event keeps its identity, and leaves pending at most once. */
  predicate MayBecome(e: Event, f: Event) {
    f == e.(status := f.status) && (!e.status.Pending? ==> !f.status.Pending?)
  }

  ghost predicate Successor(before: Table, after: Table) {
    |before| <= |after| && forall i :: 0 <= i < |before| ==> MayBecome(before[i], after[i])
  }

  lemma {:induction false} StepKeeps(s: State, a: Action)
    requires Enabled(s, a)
    ensures Successor(s.events, Apply(s, a).events)
  {
  }

  /** In every run, however patches and passes overlap, no event is lost and none
      returns to pending. */
  lemma {:induction false} RunKeeps(s: State, run: seq<Action>)
    requires Legal(s, run)
    ensures Successor(s.events, After(s, run).events)
    decreases |run|
  {
    if run == [] {
    } else {
      StepKeeps(s, run[0]);
      RunKeeps(Apply(s, run[0]), run[1..]);
    }
  }

  /** A cancellation cancels, a mark fires, unless it is a nudge for a thread with a reply,
      and the end of a patch starts its timer; nothing else changes the table. */
  lemma {:induction false} StepExactly(s: State, a: Action)
    requires Enabled(s, a)
    ensures var events := Apply(s, a).events;
      match a
      case Cancel(job) => var i := s.jobs[job].todo[0]; events == s.events[i := Event(s.events[i].timer, s.events[i].fireAt, Cancelled)]
      case Mark(replied) =>
        var e := s.events[s.due[0]];
        var status := if e.timer.kind == FollowupNudge && replied then Cancelled else Fired;
        events == s.events[s.due[0] := Event(e.timer, e.fireAt, status)]
      case Finish(job) =>
        var j := s.jobs[job];
        if j.fireAt.Some? then events == s.events + [Event(j.timer, j.fireAt.value, Pending)] else events == s.events
      case _ => events == s.events
  {
  }

  predicate WithinPass(run: seq<Action>) { forall i :: 0 <= i < |run| ==> !run[i].Load? && !run[i].Crash? }

  /** Whatever patches do during a pass, once it is through no event that was due when
      it loaded is pending. */
  lemma {:induction false} PassClearsDue(s: State, run: seq<Action>, i: nat)
    requires Legal(s, run) && WithinPass(run) && After(s, run).due == []
    requires i in s.due && i < |s.events|
    ensures i < |After(s, run).events| && !After(s, run).events[i].status.Pending?
    decreases |run|
  {
    var next := Apply(s, run[0]);
    StepKeeps(s, run[0]);
    if i in next.due {
      PassClearsDue(next, run[1..], i);
    } else {
      RunKeeps(next, run[1..]);
    }
  }

  // ------------------------------------------------------------------
  // When fired and cancelled are final
  // ------------------------------------------------------------------

  /** Whatever is loaded for a mark can still be marked without harm. */
  ghost predicate HeldOk(s: State) {
    && Distinct(s.due) && (forall i :: i in s.due ==> 0 <= i < |s.events| && s.events[i].status.Pending?)
    && forall j :: j in s.jobs ==> JobOk(s.events, s.jobs[j].todo)
  }

  ghost predicate JobOk(events: Table, todo: seq<nat>) {
    Distinct(todo) && forall i :: i in todo ==> 0 <= i < |events| && !events[i].status.Fired?
  }

  /** The worker's pass and a patch have the same event in hand. */
  ghost predicate Overlaps(s: State) { exists j, i :: SharedBy(s, j, i) }

  predicate SharedBy(s: State, j: nat, i: nat) { j in s.jobs && i in s.jobs[j].todo && i in s.due }

  ghost predicate NeverOverlaps(s: State, run: seq<Action>)
    requires Legal(s, run)
    decreases |run|
  {
    run == [] || (!Overlaps(s) && NeverOverlaps(Apply(s, run[0]), run[1..]))
  }

  ghost predicate Final(before: Table, after: Table) {
    |before| <= |after| && forall i :: 0 <= i < |before| && !before[i].status.Pending? ==> after[i] == before[i]
  }

  /** No step of the run changes an event that was fired or cancelled. */
  ghost predicate AlwaysFinal(s: State, run: seq<Action>)
    requires Legal(s, run)
    decreases |run|
  {
    run == [] || (Final(s.events, Apply(s, run[0]).events) && AlwaysFinal(Apply(s, run[0]), run[1..]))
  }

  lemma {:induction false} TailOk(events: Table, todo: seq<nat>)
    requires JobOk(events, todo) && todo != []
    ensures JobOk(events, todo[1..]) && todo[0] !in todo[1..] && forall i :: i in todo[1..] ==> i in todo
  {
    var rest := todo[1..];
    assert todo == [todo[0]] + rest;
    assert forall i :: i in rest ==> i in todo;
    forall i, j | 0 <= i < j < |rest| ensures rest[i] != rest[j] {
      assert rest[i] == todo[i + 1] && rest[j] == todo[j + 1];
    }
    forall k | 0 <= k < |rest| ensures rest[k] != todo[0] { assert rest[k] == todo[k + 1]; }
  }

  lemma {:induction false} FinalStep(s: State, a: Action)
    requires Enabled(s, a) && HeldOk(s) && !Overlaps(s)
    ensures HeldOk(Apply(s, a)) && Final(s.events, Apply(s, a).events)
  {
    match a
    case Cancel(job) =>
      TailOk(s.events, s.jobs[job].todo);
      assert !SharedBy(s, job, s.jobs[job].todo[0]);
    case Mark(_) =>
      TailOk(s.events, s.due);
      forall j | j in s.jobs ensures s.due[0] !in s.jobs[j].todo {
        assert !SharedBy(s, j, s.due[0]);
      }
    case _ =>
  }

  /** While no event is in hand twice, fired and cancelled are final in every run. */
  lemma {:induction false} FinalWithoutOverlap(s: State, run: seq<Action>)
    requires Legal(s, run) && HeldOk(s) && NeverOverlaps(s, run)
    ensures HeldOk(After(s, run)) && AlwaysFinal(s, run)
    decreases |run|
  {
    if run == [] {
    } else {
      FinalStep(s, run[0]);
      FinalWithoutOverlap(Apply(s, run[0]), run[1..]);
    }
  }

  /** Only what is at work goes on. */
  predicate Quiet(run: seq<Action>) { forall k :: 0 <= k < |run| ==> run[k].Cancel? || run[k].Finish? || run[k].Mark? }

  /** However the pass and the patches at work go on, fired and cancelled are final. */
  ghost predicate EndsFinal(s: State) { forall run :: Legal(s, run) && Quiet(run) ==> AlwaysFinal(s, run) }

  lemma {:induction false} QuietNeverOverlaps(s: State, run: seq<Action>)
    requires Legal(s, run) && Quiet(run) && !Overlaps(s)
    ensures NeverOverlaps(s, run)
    decreases |run|
  {
    if run == [] {
    } else {
      var next := Apply(s, run[0]);
      if j, i :| SharedBy(next, j, i) {
        assert SharedBy(s, j, i);
      }
      QuietNeverOverlaps(next, run[1..]);
    }
  }

  function Marks(n: nat): seq<Action> { if n == 0 then [] else [Mark(false)] + Marks(n - 1) }

  function Cancels(job: nat, n: nat): seq<Action> { if n == 0 then [] else [Cancel(job)] + Cancels(job, n - 1) }

  lemma {:induction false} QuietSteps(job: nat, n: nat)
    ensures Quiet(Marks(n)) && Quiet(Cancels(job, n))
  {
    if n == 0 {
    } else {
      QuietSteps(job, n - 1);
      QuietConcat([Mark(false)], Marks(n - 1));
      QuietConcat([Cancel(job)], Cancels(job, n - 1));
    }
  }

  lemma {:induction false} QuietConcat(first: seq<Action>, rest: seq<Action>)
    requires Quiet(first) && Quiet(rest)
    ensures Quiet(first + rest)
  {
  }

  /** The pass goes on as far as its k-th event, which it fires. */
  lemma {:induction false} MarksFire(s: State, k: nat)
    requires k < |s.due| && forall i :: 0 <= i < |s.due| ==> s.due[i] < |s.events|
    ensures Legal(s, Marks(k + 1)) && s.due[k] < |After(s, Marks(k + 1)).events|
    ensures After(s, Marks(k + 1)).events[s.due[k]].status == Fired
    decreases k
  {
    var next := Apply(s, Mark(false));
    assert Marks(k + 1)[1..] == Marks(k);
    if k == 0 {
    } else {
      MarksFire(next, k - 1);
    }
  }

  /** A patch goes on and cancels the first n events it listed. */
  lemma {:induction false} CancelsReach(s: State, job: nat, n: nat)
    requires job in s.jobs && n <= |s.jobs[job].todo| && forall i :: 0 <= i < n ==> s.jobs[job].todo[i] < |s.events|
    ensures Legal(s, Cancels(job, n))
    ensures CancelledIn(s, job, n, After(s, Cancels(job, n)))
    decreases n
  {
    var todo := s.jobs[job].todo;
    if n == 0 {
      NoneCancelled(s, job);
    } else {
      var next := CancelOne(s, job);
      assert Cancels(job, n)[1..] == Cancels(job, n - 1);
      CancelsReach(next, job, n - 1);
      NextStep(s, Cancels(job, n), next);
      OneMoreCancelled(s, job, n, next, After(next, Cancels(job, n - 1)));
    }
  }

  lemma {:induction false} NoneCancelled(s: State, job: nat)
    requires job in s.jobs
    ensures CancelledIn(s, job, 0, s)
  {
    assert s.jobs[job].todo[0..] == s.jobs[job].todo && s.jobs[job := s.jobs[job]] == s.jobs;
  }

  lemma {:induction false} CancelOne(s: State, job: nat) returns (next: State)
    requires Enabled(s, Cancel(job))
    ensures next == Apply(s, Cancel(job)) && job in next.jobs && next.jobs[job].todo == s.jobs[job].todo[1..] && |next.events| == |s.events|
  {
    next := Apply(s, Cancel(job));
  }

  lemma {:induction false} OneMoreCancelled(s: State, job: nat, n: nat, next: State, t: State)
    requires Enabled(s, Cancel(job)) && 1 <= n <= |s.jobs[job].todo| && next == Apply(s, Cancel(job))
    requires CancelledIn(next, job, n - 1, t)
    ensures CancelledIn(s, job, n, t)
  {
    var todo := s.jobs[job].todo;
    assert todo[1..][n - 1..] == todo[n..];
    assert todo[..n] == [todo[0]] + todo[1..][..n - 1];
  }

  ghost predicate CancelledIn(s: State, job: nat, n: nat, t: State)
    requires job in s.jobs && n <= |s.jobs[job].todo|
  {
    && t.due == s.due && |t.events| == |s.events| && t.jobs == s.jobs[job := s.jobs[job].(todo := s.jobs[job].todo[n..])]
    && forall i :: 0 <= i < |s.events| ==> t.events[i] == if i in s.jobs[job].todo[..n] then s.events[i].Cancel() else s.events[i]
  }

  lemma {:induction false} FinalAcross(s: State, first: seq<Action>, rest: seq<Action>)
    requires Legal(s, first) && Legal(After(s, first), rest) && Legal(s, first + rest) && AlwaysFinal(s, first + rest)
    ensures Final(After(s, first).events, After(After(s, first), rest).events)
    decreases |first|
  {
    if first == [] {
      assert first + rest == rest;
      FinalThroughout(s, rest);
    } else {
      assert (first + rest)[0] == first[0] && (first + rest)[1..] == first[1..] + rest;
      FinalAcross(Apply(s, first[0]), first[1..], rest);
    }
  }

  lemma {:induction false} FinalThroughout(s: State, run: seq<Action>)
    requires Legal(s, run) && AlwaysFinal(s, run)
    ensures Final(s.events, After(s, run).events)
    decreases |run|
  {
    if run == [] {
    } else {
      FinalThroughout(Apply(s, run[0]), run[1..]);
    }
  }

  /** An event in hand twice: the patch cancels it and then the pass fires it. */
  lemma {:induction false} OverlapUndoesCancel(s: State, j: nat, i: nat) returns (first: seq<Action>, rest: seq<Action>)
    requires HeldOk(s) && SharedBy(s, j, i)
    ensures Legal(s, first) && Legal(After(s, first), rest) && Legal(s, first + rest) && Quiet(first + rest)
    ensures i < |After(s, first).events| && After(s, first).events[i].status == Cancelled
    ensures i < |After(s, first + rest).events| && After(s, first + rest).events[i].status == Fired
    ensures After(s, first + rest) == After(After(s, first), rest)
  {
    var n := Find(s.jobs[j].todo, i, |s.events|);
    var m := Find(s.due, i, |s.events|);
    first, rest := Cancels(j, n + 1), Marks(m + 1);
    CancelsReach(s, j, n + 1);
    MarksFire(After(s, first), m);
    Concat(s, first, rest);
    QuietSteps(j, n + 1);
    QuietSteps(j, m + 1);
    QuietConcat(first, rest);
  }

  lemma {:induction false} Find(ids: seq<nat>, i: nat, bound: nat) returns (n: nat)
    requires i in ids && forall k :: k in ids ==> k < bound
    ensures n < |ids| && ids[n] == i && i in ids[..n + 1]
    ensures forall k :: 0 <= k < |ids| ==> ids[k] < bound
  {
    n :| n < |ids| && ids[n] == i;
    assert ids[..n + 1][n] == i;
    assert forall k :: 0 <= k < |ids| ==> ids[k] in ids;
  }

  /** Fired and cancelled are final, however the work at hand goes on, exactly if the
      pass and the patches have no event in common. */
  lemma {:induction false} FinalExactly(s: State)
    requires HeldOk(s)
    ensures EndsFinal(s) <==> !Overlaps(s)
  {
    if j, i :| SharedBy(s, j, i) {
      var first, rest := OverlapUndoesCancel(s, j, i);
      if AlwaysFinal(s, first + rest) { FinalAcross(s, first, rest); }
    } else {
      forall run | Legal(s, run) && Quiet(run) ensures AlwaysFinal(s, run) {
        QuietNeverOverlaps(s, run);
        FinalWithoutOverlap(s, run);
      }
    }
  }

  /** A patch that nothing comes between, as a run: what `EventStore.Patch` does. */
  lemma {:induction false} PatchAlone(events: Table, timer: Timer, fireAt: Option<int>, found: seq<nat>)
    requires Lists(events, timer, found)
    ensures Legal(State(events, [], map[]), PatchRun(timer, fireAt, found))
    ensures var t := After(State(events, [], map[]), PatchRun(timer, fireAt, found));
      && t.due == [] && t.jobs == map[] && |t.events| == |events| + |Started(Job(timer, fireAt, []))|
      && (forall i :: 0 <= i < |events| ==> t.events[i] == if events[i].Runs(timer) then events[i].Cancel() else events[i])
      && t.events[|events|..] == Started(Job(timer, fireAt, []))
  {
    var s := State(events, [], map[]);
    var begin := Begin(0, timer, fireAt, found);
    var s1 := Apply(s, begin);
    assert Legal(s1, []) && [begin][1..] == [];
    NextStep(s, [begin], s1);
    assert forall k :: 0 <= k < |found| ==> found[k] in found;
    CancelsReach(s1, 0, |found|);
    assert found[..|found|] == found && found[|found|..] == [];
    Concat(s, [begin], Cancels(0, |found|));
    var s2 := After(s1, Cancels(0, |found|));
    var s3 := Apply(s2, Finish(0));
    assert Legal(s3, []) && [Finish(0)][1..] == [];
    NextStep(s2, [Finish(0)], s3);
    Concat(s, [begin] + Cancels(0, |found|), [Finish(0)]);
  }

  function PatchRun(timer: Timer, fireAt: Option<int>, found: seq<nat>): seq<Action> {
    [Begin(0, timer, fireAt, found)] + Cancels(0, |found|) + [Finish(0)]
  }

  // ------------------------------------------------------------------
  // When there is one timer at most
  // ------------------------------------------------------------------

  /** Two patches at work that both start the same timer. */
  ghost predicate TwoStarts(s: State) { exists a, b :: BothStart(s, a, b) }

  predicate BothStart(s: State, a: nat, b: nat) {
    a in s.jobs && b in s.jobs && a != b && s.jobs[a].timer == s.jobs[b].timer && s.jobs[a].fireAt.Some? && s.jobs[b].fireAt.Some?
  }

  ghost predicate NeverTwoStarts(s: State, run: seq<Action>)
    requires Legal(s, run)
    decreases |run|
  {
    run == [] || (!TwoStarts(s) && NeverTwoStarts(Apply(s, run[0]), run[1..]))
  }

  /** One pending event each, and a patch that will start a timer has the pending ones
      in hand. */
  ghost predicate OneTimer(s: State) {
    OnePending(s.events) && forall j :: j in s.jobs && s.jobs[j].fireAt.Some? ==> InHand(s.events, s.jobs[j])
  }

  ghost predicate InHand(events: Table, job: Job) {
    forall i :: 0 <= i < |events| && events[i].Runs(job.timer) ==> i in job.todo
  }

  lemma {:induction false} OneTimerStep(s: State, a: Action)
    requires Enabled(s, a) && OneTimer(s) && !TwoStarts(s)
    ensures OneTimer(Apply(s, a))
  {
    match a
    case Cancel(job) => CancelKeepsOneTimer(s, job);
    case Finish(job) => FinishKeepsOneTimer(s, job);
    case _ =>
  }

  lemma {:induction false} CancelKeepsOneTimer(s: State, job: nat)
    requires Enabled(s, Cancel(job)) && OneTimer(s)
    ensures OneTimer(Apply(s, Cancel(job)))
  {
    var t, todo := Apply(s, Cancel(job)), s.jobs[job].todo;
    forall j | j in t.jobs && t.jobs[j].fireAt.Some? ensures InHand(t.events, t.jobs[j]) {
      assert InHand(s.events, s.jobs[j]);
      forall i | 0 <= i < |t.events| && t.events[i].Runs(t.jobs[j].timer) ensures i in t.jobs[j].todo {
        assert i in s.jobs[j].todo && i != todo[0];
        assert todo == [todo[0]] + todo[1..];
      }
    }
  }

  lemma {:induction false} FinishKeepsOneTimer(s: State, job: nat)
    requires Enabled(s, Finish(job)) && OneTimer(s) && !TwoStarts(s)
    ensures OneTimer(Apply(s, Finish(job)))
  {
    var t := Apply(s, Finish(job));
    forall j | j in t.jobs && t.jobs[j].fireAt.Some? ensures InHand(t.events, t.jobs[j]) {
      assert InHand(s.events, s.jobs[j]);
      assert !BothStart(s, j, job);
    }
  }

  /** While no two patches that start the same timer overlap, there is at most one
      pending event per account, kind and payload, in every run. */
  lemma {:induction false} OneTimerWithoutOverlap(s: State, run: seq<Action>)
    requires Legal(s, run) && OneTimer(s) && NeverTwoStarts(s, run)
    ensures OneTimer(After(s, run))
    decreases |run|
  {
    if run == [] {
    } else {
      OneTimerStep(s, run[0]);
      OneTimerWithoutOverlap(Apply(s, run[0]), run[1..]);
    }
  }

  /** However the pass and the patches at work go on, there is one timer at most. */
  ghost predicate EndsWithOne(s: State) {
    forall run :: Legal(s, run) && Quiet(run) ==> OnePending(After(s, run).events)
  }

  lemma {:induction false} QuietNeverTwoStarts(s: State, run: seq<Action>)
    requires Legal(s, run) && Quiet(run) && !TwoStarts(s)
    ensures NeverTwoStarts(s, run)
    decreases |run|
  {
    if run == [] {
    } else {
      var next := Apply(s, run[0]);
      if a, b :| BothStart(next, a, b) {
        assert BothStart(s, a, b);
      }
      QuietNeverTwoStarts(next, run[1..]);
    }
  }

  /** Two such patches: both cancel what they listed and then both insert. */
  lemma {:induction false} OverlapStartsTwo(s: State, a: nat, b: nat) returns (run: seq<Action>)
    requires HeldOk(s) && BothStart(s, a, b)
    ensures Legal(s, run) && Quiet(run) && !OnePending(After(s, run).events)
  {
    var first := CancelAll(s, a);
    var t := After(s, first);
    var second := CancelAll(t, b);
    var u := After(t, second);
    Concat(s, first, second);
    QuietConcat(first, second);
    FinishBoth(u, a, b);
    Concat(s, first + second, [Finish(a), Finish(b)]);
    QuietConcat(first + second, [Finish(a), Finish(b)]);
    run := first + second + [Finish(a), Finish(b)];
  }

  /** A patch cancels all it listed; the others go on as they were. */
  lemma {:induction false} CancelAll(s: State, job: nat) returns (run: seq<Action>)
    requires job in s.jobs && forall i :: i in s.jobs[job].todo ==> 0 <= i < |s.events|
    ensures Legal(s, run) && Quiet(run) && |After(s, run).events| == |s.events|
    ensures After(s, run).jobs == s.jobs[job := s.jobs[job].(todo := [])]
  {
    var t;
    run, t := CancelRun(s, job);
    NothingLeftToDo(s, job, t);
  }

  lemma {:induction false} CancelRun(s: State, job: nat) returns (run: seq<Action>, t: State)
    requires job in s.jobs && forall i :: i in s.jobs[job].todo ==> 0 <= i < |s.events|
    ensures Legal(s, run) && Quiet(run) && t == After(s, run) && CancelledIn(s, job, |s.jobs[job].todo|, t)
  {
    var todo, n := s.jobs[job].todo, |s.jobs[job].todo|;
    assert forall k :: 0 <= k < n ==> todo[k] in todo;
    CancelsReach(s, job, n);
    QuietSteps(job, n);
    run, t := Cancels(job, n), After(s, Cancels(job, n));
  }

  lemma {:induction false} NothingLeftToDo(s: State, job: nat, t: State)
    requires job in s.jobs && CancelledIn(s, job, |s.jobs[job].todo|, t)
    ensures t.jobs == s.jobs[job := s.jobs[job].(todo := [])]
  {
    assert s.jobs[job].todo[|s.jobs[job].todo|..] == [];
  }

  lemma {:induction false} FinishBoth(s: State, a: nat, b: nat)
    requires BothStart(s, a, b) && s.jobs[a].todo == [] && s.jobs[b].todo == []
    ensures Legal(s, [Finish(a), Finish(b)]) && Quiet([Finish(a), Finish(b)])
    ensures !OnePending(After(s, [Finish(a), Finish(b)]).events)
  {
    var run := [Finish(a), Finish(b)];
    var t := Apply(s, Finish(a));
    var u := Apply(t, Finish(b));
    assert run[1..] == [Finish(b)] && run[1..][1..] == [];
    assert After(t, [Finish(b)]) == After(u, []);
    var n := |s.events|;
    assert u.events[n].Runs(s.jobs[a].timer) && u.events[n + 1].Runs(s.jobs[b].timer);
  }

  /** One timer at most is left, however the work at hand goes on, exactly if no two
      patches at work start the same timer. */
  lemma {:induction false} OneTimerExactly(s: State)
    requires HeldOk(s) && OneTimer(s)
    ensures EndsWithOne(s) <==> !TwoStarts(s)
  {
    if a, b :| BothStart(s, a, b) {
      var run := OverlapStartsTwo(s, a, b);
    } else {
      forall run | Legal(s, run) && Quiet(run) ensures OnePending(After(s, run).events) {
        QuietNeverTwoStarts(s, run);
        OneTimerWithoutOverlap(s, run);
      }
    }
  }

  // ------------------------------------------------------------------
  // Both overlaps are reached from the empty table
  // ------------------------------------------------------------------

  /** A timer that is due is loaded by the pass and listed by a patch. */
  function OverlapRun(timer: Timer): seq<Action> {
    [Begin(0, timer, Some(0), []), Finish(0), Load(0, [0]), Begin(0, timer, None, [0])]
  }

  lemma {:induction false} OverlapIsReached(timer: Timer)
    ensures Legal(EMPTY, OverlapRun(timer))
    ensures After(EMPTY, OverlapRun(timer)) == State([Event(timer, 0, Pending)], [0], map[0 := Job(timer, None, [0])])
    ensures HeldOk(After(EMPTY, OverlapRun(timer))) && SharedBy(After(EMPTY, OverlapRun(timer)), 0, 0)
  {
    var run, s2 := OverlapRun(timer), State([Event(timer, 0, Pending)], [], map[]);
    StartAlone(EMPTY, timer);
    var s3 := Apply(s2, run[2]);
    var s4 := Apply(s3, run[3]);
    FourSteps(EMPTY, Apply(EMPTY, run[0]), s2, s3, s4, run);
  }

  /** A patch that finds nothing to cancel. */
  lemma {:induction false} StartAlone(s: State, timer: Timer)
    requires s.due == [] && s.jobs == map[] && Lists(s.events, timer, [])
    ensures Enabled(s, Begin(0, timer, Some(0), [])) && Enabled(Apply(s, Begin(0, timer, Some(0), [])), Finish(0))
    ensures Apply(Apply(s, Begin(0, timer, Some(0), [])), Finish(0)) == State(s.events + [Event(timer, 0, Pending)], [], map[])
  {
  }

  lemma {:induction false} FourSteps(s0: State, s1: State, s2: State, s3: State, s4: State, run: seq<Action>)
    requires |run| == 4
    requires Enabled(s0, run[0]) && s1 == Apply(s0, run[0]) && Enabled(s1, run[1]) && s2 == Apply(s1, run[1])
    requires Enabled(s2, run[2]) && s3 == Apply(s2, run[2]) && Enabled(s3, run[3]) && s4 == Apply(s3, run[3])
    ensures Legal(s0, run) && After(s0, run) == s4
  {
    NextStep(s3, run[3..], s4);
    NextStep(s2, run[2..], s3);
    NextStep(s1, run[1..], s2);
    NextStep(s0, run, s1);
  }

  lemma {:induction false} NextStep(s: State, run: seq<Action>, next: State)
    requires run != [] && Enabled(s, run[0]) && next == Apply(s, run[0]) && Legal(next, run[1..])
    ensures Legal(s, run) && After(s, run) == After(next, run[1..])
  {
  }

  /** From the empty table a timer can be cancelled and end as fired. */
  lemma {:induction false} CancelledThenFired(timer: Timer) returns (first: seq<Action>, rest: seq<Action>)
    ensures Legal(EMPTY, first) && Legal(EMPTY, first + rest)
    ensures |After(EMPTY, first).events| > 0 && After(EMPTY, first).events[0].status == Cancelled
    ensures |After(EMPTY, first + rest).events| > 0 && After(EMPTY, first + rest).events[0].status == Fired
  {
    OverlapIsReached(timer);
    var start := OverlapRun(timer);
    var more;
    more, rest := OverlapUndoesCancel(After(EMPTY, start), 0, 0);
    Concat(EMPTY, start, more);
    first := start + more;
    Concat(EMPTY, first, rest);
  }

  /** The other way round: the pass fires it and then the patch cancels it. */
  lemma {:induction false} FiredThenCancelled(timer: Timer) returns (first: seq<Action>, rest: seq<Action>)
    ensures Legal(EMPTY, first) && Legal(EMPTY, first + rest)
    ensures |After(EMPTY, first).events| > 0 && After(EMPTY, first).events[0].status == Fired
    ensures |After(EMPTY, first + rest).events| > 0 && After(EMPTY, first + rest).events[0].status == Cancelled
  {
    OverlapIsReached(timer);
    var start := OverlapRun(timer);
    var s := After(EMPTY, start);
    var m := Find(s.due, 0, |s.events|);
    MarksFire(s, m);
    Concat(EMPTY, start, Marks(m + 1));
    first := start + Marks(m + 1);
    var t := After(EMPTY, first);
    MarksKeepJobs(s, m + 1);
    RunKeeps(s, Marks(m + 1));
    var n := Find(t.jobs[0].todo, 0, |t.events|);
    CancelsReach(t, 0, n + 1);
    Concat(EMPTY, first, Cancels(0, n + 1));
    rest := Cancels(0, n + 1);
  }

  lemma {:induction false} MarksKeepJobs(s: State, n: nat)
    requires Legal(s, Marks(n))
    ensures After(s, Marks(n)).jobs == s.jobs
    decreases n
  {
    if n == 0 {
    } else {
      assert Marks(n)[1..] == Marks(n - 1);
      MarksKeepJobs(Apply(s, Mark(false)), n - 1);
    }
  }

  /** From the empty table two overlapping patches leave two timers. */
  lemma {:induction false} TwoTimers(timer: Timer) returns (run: seq<Action>)
    ensures Legal(EMPTY, run) && !OnePending(After(EMPTY, run).events)
  {
    var x, y := Begin(0, timer, Some(0), []), Begin(1, timer, Some(0), []);
    var s := Apply(EMPTY, x);
    var t := Apply(s, y);
    run := [x, y];
    assert run[1..] == [y] && run[1..][1..] == [];
    assert After(s, [y]) == After(t, []);
    assert BothStart(t, 0, 1) && HeldOk(t);
    var more := OverlapStartsTwo(t, 0, 1);
    Concat(EMPTY, run, more);
    run := run + more;
  }

  // ------------------------------------------------------------------
  // One message, several spellings
  // ------------------------------------------------------------------

  function Number(s: string): (n: Option<int>) {
    if s == [] then None
    else
      var d := s[|s| - 1];
      if !('0' <= d <= '9') then None
      else if |s| == 1 then Some(d as int - '0' as int)
      else
        var rest := Number(s[..|s| - 1]);
        if rest.None? then None else Some(rest.value * 10 + d as int - '0' as int)
  }

  /** `strip_prefix('m')` and `parse::<i64>`: a sign and leading zeros are allowed. */
  function MessageRow(payload: string): Option<int> {
    if |payload| < 2 || payload[0] != 'm' then None
    else if payload[1] == '+' then InRange(Number(payload[2..]))
    else if payload[1] == '-' then
      var n := Number(payload[2..]);
      if n.None? then None else InRange(Some(-n.value))
    else InRange(Number(payload[1..]))
  }

  lemma {:induction false} DecimalLast(init: string, d: char)
    ensures Timestamps.Decimal(init + [d]) <==> Timestamps.Decimal(init) && '0' <= d <= '9'
  {
    var s := init + [d];
    assert s[|init|] == d && forall i :: 0 <= i < |init| ==> s[i] == init[i];
  }

  lemma {:induction false} NumberExactly(s: string)
    ensures Number(s).Some? <==> s != [] && Timestamps.Decimal(s)
    ensures Number(s).Some? ==> Number(s).value == Timestamps.Value(s)
  {
    if s == [] {
    } else {
      var init, d := s[..|s| - 1], s[|s| - 1];
      assert s == init + [d];
      DecimalLast(init, d);
      if init != [] { NumberExactly(init); }
    }
  }

  /** The decimal text of a number, with a minus sign if it is negative. */
  function Written(n: int): string { if n >= 0 then Timestamps.Digits(n) else ['-'] + Timestamps.Digits(-n) }

  lemma {:induction false} RowOfDigits(digits: string)
    requires digits != [] && Timestamps.Decimal(digits)
    ensures MessageRow(['m'] + digits) == InRange(Some(Timestamps.Value(digits)))
    ensures MessageRow(['m'] + (['-'] + digits)) == InRange(Some(-Timestamps.Value(digits)))
  {
    NumberExactly(digits);
    AfterSigns(['m'], digits);
    AfterSigns(['m', '-'], digits);
    assert ['m'] + (['-'] + digits) == ['m', '-'] + digits;
  }

  lemma {:induction false} AfterSigns(a: string, b: string)
    requires b != []
    ensures (a + b)[|a|..] == b && (a + b)[|a|] == b[0] && forall i :: 0 <= i < |a| ==> (a + b)[i] == a[i]
  {
  }

  /** The message id of every row number is read back. */
  lemma {:induction false} WrittenRow(n: int)
    requires -0x8000_0000_0000_0000 <= n < 0x8000_0000_0000_0000
    ensures MessageRow(['m'] + Written(n)) == Some(n)
  {
    var m := if n >= 0 then n else -n;
    Timestamps.DigitsRead(m);
    RowOfText(Timestamps.Digits(m), n, Written(n));
  }

  lemma {:induction false} RowOfText(digits: string, n: int, text: string)
    requires digits != [] && Timestamps.Decimal(digits) && Timestamps.Value(digits) == (if n >= 0 then n else -n)
    requires text == (if n >= 0 then digits else ['-'] + digits) && -0x8000_0000_0000_0000 <= n < 0x8000_0000_0000_0000
    ensures MessageRow(['m'] + text) == Some(n)
  {
    RowOfDigits(digits);
  }

  function InRange(n: Option<int>): Option<int> {
    if n.Some? && -0x8000_0000_0000_0000 <= n.value < 0x8000_0000_0000_0000 then n else None
  }

  /** At most one pending event per account, kind and message. */
  ghost predicate OnePerMessage(events: Table) {
    forall i, j :: 0 <= i < j < |events| && events[i].status.Pending? && events[j].status.Pending? ==>
      !SameMessage(events[i].timer, events[j].timer)
  }

  predicate SameMessage(t: Timer, u: Timer) {
    t.account == u.account && t.kind == u.kind && MessageRow(t.payload).Some? && MessageRow(t.payload) == MessageRow(u.payload)
  }

  ghost predicate Uses(run: seq<Action>, ids: set<string>) {
    forall i :: 0 <= i < |run| && run[i].Begin? ==> run[i].timer.payload in ids
  }

  ghost predicate OneSpelling(ids: set<string>) {
    forall p, q :: p in ids && q in ids && p != q ==> MessageRow(p).None? || MessageRow(p) != MessageRow(q)
  }

  /** Every run that uses these ids, and in which no two patches start the same timer
      at once, keeps one pending event per message. */
  ghost predicate KeepsOnePerMessage(ids: set<string>) {
    forall run :: Legal(EMPTY, run) && Uses(run, ids) && NeverTwoStarts(EMPTY, run) ==> OnePerMessage(After(EMPTY, run).events)
  }

  /** The rule holds for messages, and not just for id strings, exactly when no two
      ids in use spell the same message, as "m1" and "m+1" do. */
  lemma {:induction false} OnePerMessageExactly(ids: set<string>)
    ensures KeepsOnePerMessage(ids) <==> OneSpelling(ids)
  {
    if OneSpelling(ids) {
      forall run | Legal(EMPTY, run) && Uses(run, ids) && NeverTwoStarts(EMPTY, run) ensures OnePerMessage(After(EMPTY, run).events) {
        OneTimerWithoutOverlap(EMPTY, run);
        PayloadsUsed(EMPTY, run, ids);
      }
    }
    if KeepsOnePerMessage(ids) {
      forall p, q | p in ids && q in ids && p != q ensures MessageRow(p).None? || MessageRow(p) != MessageRow(q) {
        TwoPending(p, q);
        var run := TwoPatches(p, q);
        assert Uses(run, ids);
        var events := After(EMPTY, run).events;
        assert OnePerMessage(events) && events[0].status.Pending? && events[1].status.Pending?;
      }
    }
  }

  ghost predicate PayloadsIn(s: State, ids: set<string>) {
    && (forall i :: 0 <= i < |s.events| ==> s.events[i].timer.payload in ids)
    && forall j :: j in s.jobs ==> s.jobs[j].timer.payload in ids
  }

  lemma {:induction false} PayloadsUsed(s: State, run: seq<Action>, ids: set<string>)
    requires Legal(s, run) && Uses(run, ids) && PayloadsIn(s, ids)
    ensures PayloadsIn(After(s, run), ids)
    decreases |run|
  {
    if run == [] {
    } else {
      assert run[0].Begin? ==> run[0].timer.payload in ids;
      PayloadsUsed(Apply(s, run[0]), run[1..], ids);
    }
  }

  function Snooze(p: string): Timer { Timer(1, SnoozeResurface, p) }

  function TwoPatches(p: string, q: string): seq<Action> {
    [Begin(0, Snooze(p), Some(0), []), Finish(0), Begin(0, Snooze(q), Some(0), []), Finish(0)]
  }

  lemma {:induction false} TwoPending(p: string, q: string)
    requires p != q
    ensures Legal(EMPTY, TwoPatches(p, q)) && NeverTwoStarts(EMPTY, TwoPatches(p, q))
    ensures After(EMPTY, TwoPatches(p, q)).events == [Event(Snooze(p), 0, Pending), Event(Snooze(q), 0, Pending)]
  {
    var run := TwoPatches(p, q);
    var s1, s2 := Apply(EMPTY, run[0]), State([Event(Snooze(p), 0, Pending)], [], map[]);
    StartAlone(EMPTY, Snooze(p));
    StartAlone(s2, Snooze(q));
    var s3 := Apply(s2, run[2]);
    var s4 := Apply(s3, run[3]);
    FourSteps(EMPTY, s1, s2, s3, s4, run);
    OneJobNext(s3, run[3..], s4);
    OneJobNext(s2, run[2..], s3);
    OneJobNext(s1, run[1..], s2);
    OneJobNext(EMPTY, run, s1);
  }

  lemma {:induction false} OneJobNext(s: State, run: seq<Action>, next: State)
    requires run != [] && Enabled(s, run[0]) && next == Apply(s, run[0]) && Legal(next, run[1..]) && NeverTwoStarts(next, run[1..])
    requires forall j :: j in s.jobs ==> j == 0
    ensures Legal(s, run) && NeverTwoStarts(s, run)
  {
  }

  /** Such spellings exist. */
  lemma {:induction false} TwoSpellings()
    ensures MessageRow("m1") == MessageRow("m+1") == Some(1)
    ensures !OneSpelling({"m1", "m+1"})
  {
    assert "m1"[1..] == "1" && "m+1"[2..] == "1";
    assert MessageRow("m1") == MessageRow("m+1");
    assert "m1" != "m+1" by { assert |"m1"| != |"m+1"|; }
  }
}
