/** The lock-free connection table of src/lib/spine.c as interleaved steps. Every flow runs
    spine_connection_start once and, if that returned a connection, spine_connection_free
    once; between any two steps of one flow any number of steps of others may happen. */
module ConnectionSteps {
  import opened Options

  /** A flow is named by a number, the address of its socket. */
  type Flow = nat

  /** The private state of a slot: never allocated, allocated for a flow, or freed. */
  datatype Memory = Unset | Allocated(user: Flow) | Freed(user: Flow)

  /** `struct spine_connection`, with index 0 meaning free. */
  datatype Slot = Slot(index: nat, impl: Option<Flow>, state: Memory)

  /** How far a flow has come in its start and its free. */
  datatype Phase =
    | NotStarted
    | Scanning(p: nat)
    | Claimed(p: nat)
    | Filled(p: nat)
    | Ready(p: nat)
    | Live(p: nat)
    | Releasing(p: nat)
    | Announced(p: nat)
    | Gone
    | Refused
    | Leaked(p: nat)

  /** The table, the phases, and who won the compare-and-swap on each slot. */
  datatype State = State(slots: seq<Slot>, phases: map<Flow, Phase>, owner: seq<Option<Flow>>)

  datatype Action =
    | Begin(f: Flow)
    | CompareAndSwap(f: Flow)
    | Fill(f: Flow)
    | Allocate(f: Flow, succeeds: bool)
    | SendCreate(f: Flow)
    | Free(f: Flow)
    | SendRelease(f: Flow)
    | ClearIndex(f: Flow)

  function PhaseOf(s: State, f: Flow): Phase {
    if f in s.phases then s.phases[f] else NotStarted
  }

  function Initial(max: nat): State {
    State(seq(max, _ => Slot(0, None, Unset)), map[], seq(max, _ => None))
  }

  /** The slot a flow is between claiming and clearing. */
  function Holding(ph: Phase): Option<nat> {
    match ph
    case Claimed(p) => Some(p)
    case Filled(p) => Some(p)
    case Ready(p) => Some(p)
    case Live(p) => Some(p)
    case Releasing(p) => Some(p)
    case Announced(p) => Some(p)
    case Leaked(p) => Some(p)
    case _ => None
  }

  function Move(s: State, f: Flow, ph: Phase): State { s.(phases := s.phases[f := ph]) }

  function Write(s: State, p: nat, slot: Slot): State
    requires p < |s.slots|
  {
    s.(slots := s.slots[p := slot])
  }

  /** One turn of the scan: past the last slot the start returns NULL; a slot whose index
      is 0 is claimed; and a claim of the last slot also returns NULL, because the bounds
      check that follows the scan takes it for a failed scan. */
  function Scan(s: State, f: Flow, p: nat): State
    requires |s.owner| == |s.slots|
  {
    if p >= |s.slots| then Move(s, f, Refused)
    else if s.slots[p].index != 0 then Move(s, f, Scanning(p + 1))
    else
      Move(Write(s, p, s.slots[p].(index := p + 1)), f,
           if p + 1 >= |s.slots| then Leaked(p) else Claimed(p))
        .(owner := s.owner[p := Some(f)])
  }

  /** What a step does; a step that is not the flow's next one does nothing. */
  function Apply(s: State, a: Action): (s': State)
    requires Inv(s)
    ensures |s'.slots| == |s.slots|
  {
    assert FlowOk(s, a.f);
    match (a, PhaseOf(s, a.f))
    case (Begin(f), NotStarted) => Move(s, f, Scanning(0))
    case (CompareAndSwap(f), Scanning(p)) => Scan(s, f, p)
    case (Fill(f), Claimed(p)) => Move(Write(s, p, s.slots[p].(impl := Some(f))), f, Filled(p))
    case (Allocate(f, succeeds), Filled(p)) =>
      if succeeds then Move(Write(s, p, s.slots[p].(state := Allocated(f))), f, Ready(p))
      else Move(Write(s, p, s.slots[p].(state := Unset)), f, Leaked(p))
    case (SendCreate(f), Ready(p)) => Move(s, f, Live(p))
    case (Free(f), Live(p)) =>
      if s.slots[p].index != p + 1 then Move(s, f, Gone)
      else Move(Write(s, p, s.slots[p].(state := Freed(f))), f, Releasing(p))
    case (SendRelease(f), Releasing(p)) => Move(s, f, Announced(p))
    case (ClearIndex(f), Announced(p)) =>
      Move(Write(s, p, s.slots[p].(index := 0)), f, Gone).(owner := s.owner[p := None])
    case _ => s
  }

  // ------------------------------------------------------------ the invariant

  /** What the slot of a flow contains in each phase. */
  predicate Contents(slot: Slot, f: Flow, ph: Phase) {
    match ph
    case Filled(_) => slot.impl == Some(f)
    case Ready(_) => slot.impl == Some(f) && slot.state == Allocated(f)
    case Live(_) => slot.impl == Some(f) && slot.state == Allocated(f)
    case Releasing(_) => slot.impl == Some(f)
    case Announced(_) => slot.impl == Some(f)
    case _ => true
  }

  /** A flow's phase and the table agree. */
  ghost predicate FlowOk(s: State, f: Flow) {
    var ph := PhaseOf(s, f);
    var held := Holding(ph);
    && |s.owner| == |s.slots|
    && (held.Some? ==>
        && held.value < |s.slots|
        && s.owner[held.value] == Some(f)
        && (!ph.Leaked? ==> held.value + 1 < |s.slots|)
        && Contents(s.slots[held.value], f, ph))
  }

  ghost predicate SlotOk(s: State, p: nat)
    requires p < |s.slots| == |s.owner|
  {
    && s.slots[p].index == (if s.owner[p].None? then 0 else p + 1)
    && (s.owner[p].Some? ==> Holding(PhaseOf(s, s.owner[p].value)) == Some(p))
  }

  ghost predicate Inv(s: State) {
    && |s.owner| == |s.slots|
    && (forall p :: 0 <= p < |s.slots| ==> SlotOk(s, p))
    && (forall f: Flow :: FlowOk(s, f))
  }

  lemma InitialInv(max: nat)
    ensures Inv(Initial(max))
  {
  }

  /** Every step of every flow keeps the table and the phases in agreement. */
  lemma ApplyKeeps(s: State, a: Action)
    requires Inv(s)
    ensures Inv(Apply(s, a))
  {
    var s', ph := Apply(s, a), PhaseOf(s, a.f);
    assert FlowOk(s, a.f);
    assert ph.Scanning? && ph.p < |s.slots| ==> SlotOk(s, ph.p);
    forall p | 0 <= p < |s'.slots| ensures SlotOk(s', p) {
      assert SlotOk(s, p);
    }
    forall g: Flow ensures FlowOk(s', g) {
      assert FlowOk(s, g);
    }
  }

  // ------------------------------------------------------------ runs

  ghost function Run(s: State, steps: seq<Action>): (r: State)
    requires Inv(s)
    ensures Inv(r) && |r.slots| == |s.slots|
    decreases |steps|
  {
    if steps == [] then s
    else
      var before := Run(s, steps[..|steps| - 1]);
      ApplyKeeps(before, steps[|steps| - 1]);
      Apply(before, steps[|steps| - 1])
  }

  /** The state after any steps of a table of max slots, all of them free at first. */
  ghost function Reachable(max: nat, steps: seq<Action>): (r: State)
    ensures Inv(r) && |r.slots| == max
  {
    InitialInv(max);
    Run(Initial(max), steps)
  }

  /** spine_connection_lookup: the position of the slot that answers to an identifier. */
  function Lookup(s: State, sid: nat): Option<nat> {
    if sid == 0 || sid > |s.slots| then None
    else if s.slots[sid - 1].index != sid then None
    else Some(sid - 1)
  }

  /** A slot's index is 0 or one more than its position, in every reachable state, and it
      is 0 exactly while nobody owns the slot. */
  lemma IndexIsPosition(max: nat, steps: seq<Action>, p: nat)
    requires p < max
    ensures var r := Reachable(max, steps);
      && (r.slots[p].index == 0 || r.slots[p].index == p + 1)
      && (r.slots[p].index == 0 <==> forall f: Flow :: Holding(PhaseOf(r, f)) != Some(p))
  {
    var r := Reachable(max, steps);
    assert SlotOk(r, p);
    if r.owner[p].Some? {
      assert Holding(PhaseOf(r, r.owner[p].value)) == Some(p);
    } else {
      forall f: Flow ensures Holding(PhaseOf(r, f)) != Some(p) {
        assert FlowOk(r, f);
      }
    }
  }

  /** No two flows ever hold the same slot at the same time. */
  lemma HeldSlotsAreDistinct(max: nat, steps: seq<Action>, f: Flow, g: Flow)
    requires f != g
    ensures var r := Reachable(max, steps);
      var held := Holding(PhaseOf(r, f)); held.Some? ==> Holding(PhaseOf(r, g)) != held
  {
    var r := Reachable(max, steps);
    assert FlowOk(r, f) && FlowOk(r, g);
  }

  /** A step changes a slot only for the flow that owns it, or that claims it with this
      very step. */
  lemma OnlyOwnersWrite(s: State, a: Action, p: nat)
    requires Inv(s) && p < |s.slots| && Apply(s, a).slots[p] != s.slots[p]
    ensures s.owner[p] == Some(a.f) || (s.owner[p] == None && a.CompareAndSwap?)
    ensures s.owner[p] == None ==> Apply(s, a).owner[p] == Some(a.f)
  {
    assert FlowOk(s, a.f) && SlotOk(s, p);
  }

  /** A connection returned by a start is found under its identifier, with its socket, in
      every state until the step that frees it: no step of another flow can hide it. */
  lemma {:induction false} FoundUntilFreed(s: State, steps: seq<Action>, f: Flow, p: nat)
    requires Inv(s) && PhaseOf(s, f) == Live(p)
    requires forall i :: 0 <= i < |steps| ==> steps[i] != Free(f)
    ensures var r := Run(s, steps);
      && PhaseOf(r, f) == Live(p) && p < |r.slots|
      && Lookup(r, p + 1) == Some(p)
      && r.slots[p].impl == Some(f) && r.slots[p].state == Allocated(f)
    decreases |steps|
  {
    if steps != [] {
      FoundUntilFreed(s, steps[..|steps| - 1], f, p);
    }
    var r := Run(s, steps);
    assert FlowOk(r, f) && SlotOk(r, p);
  }

  /** A start that returned NULL after claiming a slot, because it was the last one or
      because memory ran out, keeps the slot for ever: no later step frees it. */
  lemma {:induction false} LeakIsPermanent(s: State, steps: seq<Action>, f: Flow, p: nat)
    requires Inv(s) && PhaseOf(s, f) == Leaked(p)
    ensures var r := Run(s, steps);
      PhaseOf(r, f) == Leaked(p) && p < |r.slots| && r.slots[p].index == p + 1
    decreases |steps|
  {
    if steps != [] {
      LeakIsPermanent(s, steps[..|steps| - 1], f, p);
    }
    var r := Run(s, steps);
    assert FlowOk(r, f) && SlotOk(r, p);
  }

  lemma {:induction false} RunsJoin(s: State, steps: seq<Action>, more: seq<Action>)
    requires Inv(s)
    ensures Run(s, steps + more) == Run(Run(s, steps), more)
    decreases |more|
  {
    if more == [] {
      assert steps + more == steps;
    } else {
      assert (steps + more)[..|steps + more| - 1] == steps + more[..|more| - 1];
      RunsJoin(s, steps, more[..|more| - 1]);
    }
  }

  /** The last slot never serves anyone: in every reachable state in which it is taken, the
      flow that took it was given NULL, and it keeps the slot in every later state. */
  lemma LastSlotLeaks(max: nat, steps: seq<Action>, more: seq<Action>) returns (f: Flow)
    requires max > 0 && Reachable(max, steps).slots[max - 1].index != 0
    ensures PhaseOf(Reachable(max, steps), f) == Leaked(max - 1)
    ensures PhaseOf(Reachable(max, steps + more), f) == Leaked(max - 1)
    ensures Reachable(max, steps + more).slots[max - 1].index == max
  {
    var r := Reachable(max, steps);
    assert SlotOk(r, max - 1);
    f := r.owner[max - 1].value;
    assert FlowOk(r, f);
    RunsJoin(Initial(max), steps, more);
    LeakIsPermanent(r, more, f, max - 1);
  }

  /** The flows whose start has returned a connection not yet being freed. */
  ghost function LiveFlows(s: State): set<Flow> { set f | f in s.phases && s.phases[f].Live? }

  /** At no time are more than max - 1 connections live. */
  lemma CapacityIsOneLess(max: nat, steps: seq<Action>)
    requires max > 0
    ensures |LiveFlows(Reachable(max, steps))| <= max - 1
  {
    var r := Reachable(max, steps);
    forall f | f in LiveFlows(r)
      ensures r.phases[f].p < max - 1 && r.owner[r.phases[f].p] == Some(f)
    {
      assert FlowOk(r, f);
    }
    DistinctPositions(r, LiveFlows(r), max - 1);
  }

  lemma {:induction false} DistinctPositions(s: State, flows: set<Flow>, n: nat)
    requires n <= |s.owner|
    requires forall f :: f in flows ==> f in s.phases && s.phases[f].Live?
    requires forall f :: f in flows ==> s.phases[f].p < n && s.owner[s.phases[f].p] == Some(f)
    ensures |flows| <= n
    decreases n
  {
    if f :| f in flows && s.phases[f].p == n - 1 {
      DistinctPositions(s, flows - {f}, n - 1);
    } else if n > 0 {
      DistinctPositions(s, flows, n - 1);
    } else {
      assert flows == {};
    }
  }

  // ------------------------------------------------------------ the capacity is reached

  /** The flows 0 to n - 1. */
  ghost function Below(n: nat): (fs: set<Flow>)
    ensures |fs| == n && forall f: Flow :: f in fs <==> f < n
  {
    if n == 0 then {} else Below(n - 1) + {n - 1}
  }

  /** Flows 0 to n - 1 are live, each in the slot of its number; all else is free. */
  ghost predicate Filling(s: State, n: nat) {
    && n <= |s.slots| == |s.owner|
    && (forall p :: 0 <= p < |s.slots| ==> s.slots[p].index == if p < n then p + 1 else 0)
    && (forall f: Flow :: f in s.phases <==> f < n)
    && (forall f: Flow :: f < n ==> s.phases[f] == Live(f))
  }

  function Scans(f: Flow, n: nat): seq<Action> {
    seq(n, _ => CompareAndSwap(f))
  }

  /** All steps of one start that finds slot f free, the slots before it being taken. */
  function StartOf(f: Flow): seq<Action> {
    [Begin(f)] + Scans(f, f) + [CompareAndSwap(f), Fill(f), Allocate(f, true), SendCreate(f)]
  }

  lemma RunOne(s: State, a: Action)
    requires Inv(s)
    ensures Run(s, [a]) == Apply(s, a)
  {
    assert [a][..0] == [];
    assert Run(s, []) == s;
  }

  /** A scan passes the taken slots one by one. */
  lemma {:induction false} ScanPasses(s: State, f: Flow, n: nat)
    requires Inv(s) && PhaseOf(s, f) == Scanning(0) && n <= |s.slots|
    requires forall p :: 0 <= p < n ==> s.slots[p].index != 0
    ensures Run(s, Scans(f, n)) == Move(s, f, Scanning(n))
    decreases n
  {
    if n == 0 {
      assert s.phases == s.phases[f := Scanning(0)];
    } else {
      ScanPasses(s, f, n - 1);
      assert Scans(f, n)[..n - 1] == Scans(f, n - 1);
      assert s.phases[f := Scanning(n - 1)][f := Scanning(n)] == s.phases[f := Scanning(n)];
    }
  }

  /** The claim, the fill, the allocation and the message of a start. */
  lemma ClaimIs(s: State, f: Flow, p: nat)
    requires Inv(s) && PhaseOf(s, f) == Scanning(p) && p + 1 < |s.slots| && s.slots[p].index == 0
    ensures var r := Apply(s, CompareAndSwap(f));
      && r.slots == s.slots[p := s.slots[p].(index := p + 1)] && r.phases == s.phases[f := Claimed(p)]
  {
  }

  lemma FillIs(s: State, f: Flow, p: nat)
    requires Inv(s) && PhaseOf(s, f) == Claimed(p)
    ensures p < |s.slots|
    ensures Apply(s, Fill(f)) == Move(Write(s, p, s.slots[p].(impl := Some(f))), f, Filled(p))
  {
    assert FlowOk(s, f);
  }

  lemma AllocateIs(s: State, f: Flow, p: nat)
    requires Inv(s) && PhaseOf(s, f) == Filled(p)
    ensures p < |s.slots|
    ensures Apply(s, Allocate(f, true)) == Move(Write(s, p, s.slots[p].(state := Allocated(f))), f, Ready(p))
  {
    assert FlowOk(s, f);
  }

  lemma SendIs(s: State, f: Flow, p: nat)
    requires Inv(s) && PhaseOf(s, f) == Ready(p)
    ensures Apply(s, SendCreate(f)) == Move(s, f, Live(p))
  {
  }

  lemma ServeIs(s: State, f: Flow, p: nat)
    requires Inv(s) && PhaseOf(s, f) == Claimed(p)
    ensures p < |s.slots|
    ensures var r := Run(s, [Fill(f), Allocate(f, true), SendCreate(f)]);
      && r.slots == s.slots[p := Slot(s.slots[p].index, Some(f), Allocated(f))]
      && r.phases == s.phases[f := Live(p)]
  {
    RunThree(s, Fill(f), Allocate(f, true), SendCreate(f));
    FillIs(s, f, p);
    AllocateIs(Apply(s, Fill(f)), f, p);
    SendIs(Apply(Apply(s, Fill(f)), Allocate(f, true)), f, p);
    Overwritten(s.phases, f, Filled(p), Ready(p));
    Overwritten(s.phases, f, Ready(p), Live(p));
  }

  lemma Overwritten(phases: map<Flow, Phase>, f: Flow, ph: Phase, ph': Phase)
    ensures phases[f := ph][f := ph'] == phases[f := ph']
  {
  }

  lemma RunThree(s: State, a: Action, b: Action, c: Action)
    requires Inv(s)
    ensures Inv(Apply(s, a)) && Inv(Apply(Apply(s, a), b))
    ensures Run(s, [a, b, c]) == Apply(Apply(Apply(s, a), b), c)
  {
    ApplyKeeps(s, a);
    ApplyKeeps(Apply(s, a), b);
    RunOne(s, a);
    assert [a, b][..1] == [a] && [a, b, c][..2] == [a, b];
    assert Run(s, [a, b]) == Apply(Run(s, [a]), b);
  }

  lemma ClaimAndServe(s: State, f: Flow, p: nat)
    requires Inv(s) && PhaseOf(s, f) == Scanning(p) && p + 1 < |s.slots| && s.slots[p].index == 0
    ensures var r := Run(s, [CompareAndSwap(f), Fill(f), Allocate(f, true), SendCreate(f)]);
      && r.slots == s.slots[p := Slot(p + 1, Some(f), Allocated(f))] && r.phases == s.phases[f := Live(p)]
  {
    ClaimIs(s, f, p);
    ApplyKeeps(s, CompareAndSwap(f));
    RunOne(s, CompareAndSwap(f));
    ServeIs(Apply(s, CompareAndSwap(f)), f, p);
    RunsJoin(s, [CompareAndSwap(f)], [Fill(f), Allocate(f, true), SendCreate(f)]);
    assert [CompareAndSwap(f)] + [Fill(f), Allocate(f, true), SendCreate(f)]
      == [CompareAndSwap(f), Fill(f), Allocate(f, true), SendCreate(f)];
    Overwritten(s.phases, f, Claimed(p), Live(p));
  }

  /** A whole start that passes p taken slots and claims a free one. */
  lemma StartServes(s: State, f: Flow, p: nat)
    requires Inv(s) && PhaseOf(s, f) == NotStarted && p + 1 < |s.slots| && s.slots[p].index == 0
    requires forall q :: 0 <= q < p ==> s.slots[q].index != 0
    ensures var r := Run(s, [Begin(f)] + Scans(f, p) + [CompareAndSwap(f), Fill(f), Allocate(f, true), SendCreate(f)]);
      && r.slots == s.slots[p := Slot(p + 1, Some(f), Allocated(f))] && r.phases == s.phases[f := Live(p)]
  {
    ScanIs(s, f, p);
    ClaimAndServe(Run(s, [Begin(f)] + Scans(f, p)), f, p);
    RunsJoin(s, [Begin(f)] + Scans(f, p), [CompareAndSwap(f), Fill(f), Allocate(f, true), SendCreate(f)]);
    Overwritten(s.phases, f, Scanning(p), Live(p));
  }

  lemma ScanIs(s: State, f: Flow, p: nat)
    requires Inv(s) && PhaseOf(s, f) == NotStarted && p <= |s.slots|
    requires forall q :: 0 <= q < p ==> s.slots[q].index != 0
    ensures Run(s, [Begin(f)] + Scans(f, p)) == Move(s, f, Scanning(p))
  {
    RunOne(s, Begin(f));
    ApplyKeeps(s, Begin(f));
    ScanPasses(Move(s, f, Scanning(0)), f, p);
    RunsJoin(s, [Begin(f)], Scans(f, p));
    Overwritten(s.phases, f, Scanning(0), Scanning(p));
  }

  lemma StartFills(s: State, f: Flow)
    requires Inv(s) && Filling(s, f) && f + 1 < |s.slots|
    ensures Filling(Run(s, StartOf(f)), f + 1)
  {
    StartServes(s, f, f);
    FillsOneMore(s, Run(s, StartOf(f)), f);
  }

  lemma FillsOneMore(s: State, r: State, f: Flow)
    requires Filling(s, f) && f + 1 < |s.slots| && |r.owner| == |s.owner|
    requires r.slots == s.slots[f := Slot(f + 1, Some(f), Allocated(f))] && r.phases == s.phases[f := Live(f)]
    ensures Filling(r, f + 1)
  {
  }

  function StartsOf(n: nat): seq<Action> {
    if n == 0 then [] else StartsOf(n - 1) + StartOf(n - 1)
  }

  lemma {:induction false} StartsFill(max: nat, n: nat)
    requires n < max
    ensures Filling(Reachable(max, StartsOf(n)), n)
  {
    if n > 0 {
      StartsFill(max, n - 1);
      RunsJoin(Initial(max), StartsOf(n - 1), StartOf(n - 1));
      StartFills(Reachable(max, StartsOf(n - 1)), n - 1);
    }
  }

  /** And max - 1 can be: the usable capacity is exactly one less than the number of slots. */
  lemma CapacityIsReached(max: nat)
    requires max > 0
    ensures |LiveFlows(Reachable(max, StartsOf(max - 1)))| == max - 1
  {
    StartsFill(max, max - 1);
    var r := Reachable(max, StartsOf(max - 1));
    assert LiveFlows(r) == Below(max - 1);
  }
}
