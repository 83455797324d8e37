/** The adaptor registry: one anchor for each adaptor id, with the active instance,
    its claim count, and the chain of instances that are stopping.  Every section
    under the lock is one atomic step. */
module Registry {
  import opened Basics

  /** A started adaptor; every start makes a new one. */
  datatype Instance = Instance(id: string, serial: nat)

  datatype Claim = Claim(instance: Instance, count: int)

  datatype Anchor = Anchor(active: Option<Instance>, count: int, stopping: seq<Claim>)

  type Anchors = map<string, Anchor>

  // ---- one locked section each

  /** The anchor after an instance, or none, becomes the active one: what was active
      heads the stopping chain and is still to be released. */
  function Activated(anchors: Anchors, id: string, instance: Option<Instance>): Anchors {
    if id !in anchors && instance == None then anchors
    else
      var a := if id in anchors then anchors[id] else Anchor(None, 0, []);
      var stopping := if a.active == None then a.stopping else [Claim(a.active.value, a.count)] + a.stopping;
      anchors[id := Anchor(instance, if instance == None then 0 else 1, stopping)]
  }

  function Referenced(anchors: Anchors, id: string): Anchors {
    if id in anchors && anchors[id].active.Some? then anchors[id := anchors[id].(count := anchors[id].count + 1)]
    else anchors
  }

  /** Where the chain holds the instance. */
  function Find(stopping: seq<Claim>, instance: Instance): (i: nat)
    ensures i <= |stopping|
    ensures i < |stopping| ==> stopping[i].instance == instance
    ensures forall j | 0 <= j < i :: stopping[j].instance != instance
  {
    if stopping == [] || stopping[0].instance == instance then 0 else 1 + Find(stopping[1..], instance)
  }

  /** The anchor after one claim on the instance is given up, and whether that was
      the last one. */
  function Released(a: Anchor, instance: Instance): (Anchor, bool) {
    if a.active == Some(instance) then
      if a.count - 1 <= 0 then (a.(active := None, count := 0), true) else (a.(count := a.count - 1), false)
    else
      var i := Find(a.stopping, instance);
      if i == |a.stopping| then (a, false)
      else if a.stopping[i].count - 1 <= 0 then (a.(stopping := a.stopping[..i] + a.stopping[i + 1..]), true)
      else (a.(stopping := a.stopping[i := Claim(instance, a.stopping[i].count - 1)]), false)
  }

  /** The number of instances, negative when none of them is active. */
  function RelatedCount(anchors: Anchors, id: string): int {
    if id !in anchors then 0
    else if anchors[id].active.Some? then |anchors[id].stopping| + 1
    else -|anchors[id].stopping|
  }

  // ---- what an anchor holds

  /** The claims recorded for an instance in a stopping chain. */
  function Recorded(stopping: seq<Claim>, x: Instance): int {
    if stopping == [] then 0
    else (if stopping[0].instance == x then stopping[0].count else 0) + Recorded(stopping[1..], x)
  }

  function CountIn(a: Anchor, x: Instance): int {
    (if a.active == Some(x) then a.count else 0) + Recorded(a.stopping, x)
  }

  function CountOf(anchors: Anchors, x: Instance): int {
    if x.id in anchors then CountIn(anchors[x.id], x) else 0
  }

  /** Every instance of the anchor is there once, under its own id, and has a claim. */
  ghost predicate WellFormed(a: Anchor, id: string) {
    && (a.active.Some? ==> a.active.value.id == id && a.count > 0)
    && (a.active == None ==> a.count == 0)
    && (forall i | 0 <= i < |a.stopping| ::
          a.stopping[i].instance.id == id && a.stopping[i].count > 0 && a.active != Some(a.stopping[i].instance))
    && (forall i, j | 0 <= i < j < |a.stopping| :: a.stopping[i].instance != a.stopping[j].instance)
  }

  lemma {:induction false} RecordedAppend(s: seq<Claim>, t: seq<Claim>, x: Instance)
    ensures Recorded(s + t, x) == Recorded(s, x) + Recorded(t, x)
  {
    if s == [] {
      assert s + t == t;
    } else {
      assert (s + t)[1..] == s[1..] + t;
      RecordedAppend(s[1..], t, x);
    }
  }

  lemma RecordedSplit(s: seq<Claim>, i: nat, c: Claim, x: Instance)
    requires i < |s|
    ensures Recorded(s, x) == Recorded(s[..i] + s[i + 1..], x) + if s[i].instance == x then s[i].count else 0
    ensures Recorded(s[i := c], x) == Recorded(s[..i] + s[i + 1..], x) + if c.instance == x then c.count else 0
  {
    var rest := s[i + 1..];
    assert s == s[..i] + ([s[i]] + rest) && s[i := c] == s[..i] + ([c] + rest);
    RecordedAppend(s[..i], [s[i]] + rest, x);
    RecordedAppend(s[..i], [c] + rest, x);
    RecordedAppend(s[..i], rest, x);
  }

  /** An instance has a recorded claim exactly when the chain holds it. */
  lemma {:induction false} RecordedWhenFound(s: seq<Claim>, x: Instance)
    requires forall i | 0 <= i < |s| :: s[i].count > 0
    ensures Recorded(s, x) >= 0
    ensures Recorded(s, x) > 0 <==> Find(s, x) < |s|
  {
    if s != [] {
      RecordedWhenFound(s[1..], x);
    }
  }

  /** With no instance twice, the recorded claims are those of one entry. */
  lemma {:induction false} RecordedIsEntry(s: seq<Claim>, i: nat)
    requires i < |s| && forall j, k | 0 <= j < k < |s| :: s[j].instance != s[k].instance
    ensures Recorded(s, s[i].instance) == s[i].count
  {
    var x := s[i].instance;
    RecordedSplit(s, i, s[i], x);
    RecordedAppend(s[..i], s[i + 1..], x);
    NotRecorded(s[..i], x);
    NotRecorded(s[i + 1..], x);
  }

  lemma {:induction false} NotRecorded(s: seq<Claim>, x: Instance)
    requires forall i | 0 <= i < |s| :: s[i].instance != x
    ensures Recorded(s, x) == 0
  {
    if s != [] {
      NotRecorded(s[1..], x);
    }
  }

  /** A release takes one claim, from that instance only, and removes the instance
      exactly when it was the last one. */
  lemma ReleasedTakesOne(a: Anchor, id: string, x: Instance, y: Instance)
    requires WellFormed(a, id) && CountIn(a, x) > 0
    ensures CountIn(Released(a, x).0, y) == CountIn(a, y) - if y == x then 1 else 0
    ensures Released(a, x).1 <==> CountIn(a, x) == 1
  {
    RecordedWhenFound(a.stopping, x);
    var i := Find(a.stopping, x);
    if a.active == Some(x) {
      NotRecorded(a.stopping, x);
    } else {
      RecordedIsEntry(a.stopping, i);
      RecordedSplit(a.stopping, i, Claim(x, a.stopping[i].count - 1), y);
    }
  }

  /** A release of an instance that the anchor does not hold changes nothing. */
  lemma ReleasedUnclaimed(a: Anchor, x: Instance)
    requires a.active != Some(x) && forall c | c in a.stopping :: c.instance != x
    ensures Released(a, x) == (a, false)
  {
    assert forall i | 0 <= i < |a.stopping| :: a.stopping[i] in a.stopping;
  }

  lemma ReleasedIsWellFormed(a: Anchor, id: string, x: Instance)
    requires WellFormed(a, id)
    ensures WellFormed(Released(a, x).0, id)
    ensures Released(a, x).0.active == if a.active == Some(x) && Released(a, x).1 then None else a.active
  {
  }

  // ---- all interleavings

  /** `refs` are the references handed out and not yet given back, `pending` the
      instances whose stop has not yet released its claim. */
  datatype State = State(anchors: Anchors, refs: multiset<Instance>, pending: set<Instance>,
                         started: set<Instance>, destroyed: seq<Instance>)

  datatype Step =
    | Activate(id: string, next: Option<Instance>)
    | Reference(id: string)
    | Release(instance: Instance)
    | FinishStop(instance: Instance)

  predicate Active(anchors: Anchors, x: Instance) {
    x.id in anchors && anchors[x.id].active == Some(x)
  }

  function ActiveOf(s: State, id: string): set<Instance> {
    if id in s.anchors && s.anchors[id].active.Some? then {s.anchors[id].active.value} else {}
  }

  /** What the callers keep to: a start is a new instance, a reference is given back
      by its holder, and a stop releases what it stopped. */
  predicate Allowed(s: State, step: Step) {
    match step
    case Activate(id, next) => next.Some? ==> next.value.id == id && next.value !in s.started
    case Reference(_) => true
    case Release(x) => x in s.refs
    case FinishStop(x) => x in s.pending
  }

  function GiveUp(s: State, x: Instance): State {
    if x.id !in s.anchors then s
    else
      var (a, last) := Released(s.anchors[x.id], x);
      s.(anchors := s.anchors[x.id := a], destroyed := if last then s.destroyed + [x] else s.destroyed)
  }

  function Next(s: State, step: Step): State {
    match step
    case Activate(id, next) =>
      s.(anchors := Activated(s.anchors, id, next),
         pending := s.pending + ActiveOf(s, id),
         started := s.started + if next.Some? then {next.value} else {})
    case Reference(id) =>
      s.(anchors := Referenced(s.anchors, id), refs := s.refs + multiset(ActiveOf(s, id)))
    case Release(x) => GiveUp(s, x).(refs := s.refs - multiset{x})
    case FinishStop(x) => GiveUp(s, x).(pending := s.pending - {x})
  }

  /** The claims there are on an instance: its references, and one more while it is
      active or its stop is pending. */
  function Claims(s: State, x: Instance): nat {
    s.refs[x] + if Active(s.anchors, x) || x in s.pending then 1 else 0
  }

  /** An instance's recorded count is its claims; once started it has claims until it
      is destroyed, and none after. */
  ghost predicate InstanceInv(s: State, x: Instance) {
    && CountOf(s.anchors, x) == Claims(s, x)
    && (x in s.pending ==> !Active(s.anchors, x))
    && (x in s.started <==> Claims(s, x) > 0 || x in s.destroyed)
    && (x in s.destroyed ==> Claims(s, x) == 0)
  }

  ghost predicate Inv(s: State) {
    && (forall id | id in s.anchors :: WellFormed(s.anchors[id], id))
    && (forall x :: InstanceInv(s, x))
    && (forall i, j | 0 <= i < j < |s.destroyed| :: s.destroyed[i] != s.destroyed[j])
  }

  const START := State(map[], multiset{}, {}, {}, [])

  ghost predicate Reaches(s: State, steps: seq<Step>, s': State)
    decreases steps
  {
    if steps == [] then s' == s
    else Allowed(s, steps[0]) && Reaches(Next(s, steps[0]), steps[1..], s')
  }

  /** `s'` is `s` after one claim on `x`, a reference or a pending stop, is given up. */
  ghost predicate GivenUp(s: State, x: Instance, s': State) {
    || (x in s.refs && s' == GiveUp(s, x).(refs := s.refs - multiset{x}))
    || (x in s.pending && s' == GiveUp(s, x).(pending := s.pending - {x}))
  }

  lemma GiveUpCounts(s: State, x: Instance, y: Instance)
    requires x.id in s.anchors ==> WellFormed(s.anchors[x.id], x.id)
    requires CountOf(s.anchors, x) > 0
    ensures CountOf(GiveUp(s, x).anchors, y) == CountOf(s.anchors, y) - if y == x then 1 else 0
    ensures Active(GiveUp(s, x).anchors, y) <==> Active(s.anchors, y) && !(y == x && CountOf(s.anchors, x) == 1)
    ensures GiveUp(s, x).destroyed == if CountOf(s.anchors, x) == 1 then s.destroyed + [x] else s.destroyed
  {
    hide Released, WellFormed, Recorded, CountIn;
    ReleasedTakesOne(s.anchors[x.id], x.id, x, y);
    ReleasedIsWellFormed(s.anchors[x.id], x.id, x);
  }

  lemma GivenUpInstance(s: State, x: Instance, s': State, y: Instance)
    requires x.id in s.anchors ==> WellFormed(s.anchors[x.id], x.id)
    requires InstanceInv(s, x) && InstanceInv(s, y) && GivenUp(s, x, s')
    ensures InstanceInv(s', y)
    ensures s'.destroyed == if Claims(s, x) == 1 then s.destroyed + [x] else s.destroyed
    ensures x !in s.destroyed
  {
    hide WellFormed, CountOf, Active;
    GiveUpCounts(s, x, y);
  }

  lemma GivenUpKeepsInv(s: State, x: Instance, s': State)
    requires Inv(s) && GivenUp(s, x, s')
    ensures Inv(s')
  {
    hide InstanceInv, WellFormed, GiveUp;
    forall y
      ensures InstanceInv(s', y)
    {
      assert InstanceInv(s, x) && InstanceInv(s, y);
      GivenUpInstance(s, x, s', y);
    }
    assert InstanceInv(s, x);
    GivenUpInstance(s, x, s', x);
    GiveUpIsWellFormed(s, x);
  }

  lemma GiveUpIsWellFormed(s: State, x: Instance)
    requires forall id | id in s.anchors :: WellFormed(s.anchors[id], id)
    ensures forall id | id in GiveUp(s, x).anchors :: WellFormed(GiveUp(s, x).anchors[id], id)
  {
    hide WellFormed, Released;
    if x.id in s.anchors {
      ReleasedIsWellFormed(s.anchors[x.id], x.id, x);
    }
  }

  lemma ActivatedInstance(s: State, id: string, next: Option<Instance>, y: Instance)
    requires Allowed(s, Activate(id, next)) && InstanceInv(s, y)
    requires id in s.anchors ==> WellFormed(s.anchors[id], id)
    requires next.Some? ==> InstanceInv(s, next.value)
    requires ActiveOf(s, id) != {} ==> InstanceInv(s, s.anchors[id].active.value)
    ensures InstanceInv(Next(s, Activate(id, next)), y)
  {
  }

  lemma ActivatedIsWellFormed(anchors: Anchors, id: string, next: Option<Instance>)
    requires id in anchors ==> WellFormed(anchors[id], id)
    requires next.Some? ==> next.value.id == id && CountOf(anchors, next.value) == 0
    ensures id in Activated(anchors, id, next) ==> WellFormed(Activated(anchors, id, next)[id], id)
  {
    if next.Some? && id in anchors {
      RecordedWhenFound(anchors[id].stopping, next.value);
    }
  }

  lemma StepKeepsInv(s: State, step: Step)
    requires Inv(s) && Allowed(s, step)
    ensures Inv(Next(s, step))
  {
    hide InstanceInv, WellFormed, GiveUp;
    match step {
      case Activate(id, next) =>
        assert next.Some? ==> InstanceInv(s, next.value);
        NewHasNoCount(s, id, next);
        ActivatedIsWellFormed(s.anchors, id, next);
        forall y
          ensures InstanceInv(Next(s, step), y)
        {
          assert InstanceInv(s, y) && forall z :: InstanceInv(s, z);
          ActivatedInstance(s, id, next, y);
        }
      case Reference(id) => ReferenceKeepsInv(s, id);
      case Release(x) => GivenUpKeepsInv(s, x, Next(s, step));
      case FinishStop(x) => GivenUpKeepsInv(s, x, Next(s, step));
    }
  }

  lemma NewHasNoCount(s: State, id: string, next: Option<Instance>)
    requires Allowed(s, Activate(id, next)) && (next.Some? ==> InstanceInv(s, next.value))
    ensures next.Some? ==> CountOf(s.anchors, next.value) == 0
  {
  }

  lemma ReferenceKeepsInv(s: State, id: string)
    requires Inv(s)
    ensures Inv(Next(s, Reference(id)))
  {
    forall y
      ensures InstanceInv(Next(s, Reference(id)), y)
    {
      assert InstanceInv(s, y);
    }
  }

  lemma {:induction false} RunKeepsInv(s: State, steps: seq<Step>, s': State)
    requires Inv(s) && Reaches(s, steps, s')
    ensures Inv(s')
    decreases steps
  {
    if steps != [] {
      StepKeepsInv(s, steps[0]);
      RunKeepsInv(Next(s, steps[0]), steps[1..], s');
    }
  }

  /** Over every interleaving from an empty registry: the count of an instance is
      what it is referenced plus one while it is active or about to be released, it
      is in the chain exactly once while that is not 0, and it was destroyed exactly
      when that has become 0. */
  lemma {:induction false} LiveExactlyWhileClaimed(steps: seq<Step>, s: State, x: Instance)
    requires Reaches(START, steps, s)
    ensures CountOf(s.anchors, x) == Claims(s, x)
    ensures Claims(s, x) > 0
      <==> x.id in s.anchors
           && (s.anchors[x.id].active == Some(x)
               || Find(s.anchors[x.id].stopping, x) < |s.anchors[x.id].stopping|)
    ensures x.id in s.anchors ==> WellFormed(s.anchors[x.id], x.id)
    ensures x in s.started ==> (x in s.destroyed <==> Claims(s, x) == 0)
    ensures forall i, j | 0 <= i < |s.destroyed| && 0 <= j < |s.destroyed| && s.destroyed[i] == s.destroyed[j] :: i == j
  {
    RunKeepsInv(START, steps, s);
    assert InstanceInv(s, x);
    if x.id in s.anchors {
      RecordedWhenFound(s.anchors[x.id].stopping, x);
    }
  }

  /** An instance that is stopped while a reference to it is out lives on in the chain
      until that reference comes back. */
  lemma HeldOutlivesStop(x: Instance) returns (stopped: State, gone: State)
    ensures Reaches(START, [Activate(x.id, Some(x)), Reference(x.id), Activate(x.id, None), FinishStop(x)], stopped)
    ensures !Active(stopped.anchors, x) && CountOf(stopped.anchors, x) == 1 && x !in stopped.destroyed
    ensures Reaches(stopped, [Release(x)], gone) && gone.destroyed == [x]
  {
    var started := Next(START, Activate(x.id, Some(x)));
    var held := Next(started, Reference(x.id));
    var stopping := Next(held, Activate(x.id, None));
    stopped := Next(stopping, FinishStop(x));
    gone := Next(stopped, Release(x));
    assert started.anchors == map[x.id := Anchor(Some(x), 1, [])];
    assert held.anchors == map[x.id := Anchor(Some(x), 2, [])];
    assert [Claim(x, 2)] + [] == [Claim(x, 2)];
    assert held.anchors[x.id].stopping == [];
    assert stopping.anchors[x.id] == Anchor(None, 0, [Claim(x, 2)]);
    assert stopping.anchors == map[x.id := Anchor(None, 0, [Claim(x, 2)])];
    ChainOfOne(x, 2);
    ChainOfOne(x, 1);
    assert stopped.anchors == map[x.id := Anchor(None, 0, [Claim(x, 1)])];
    ReachOne(stopped, Release(x));
    ReachOne(stopping, FinishStop(x));
    ReachMore(held, Activate(x.id, None), [FinishStop(x)], stopped);
    ReachMore(started, Reference(x.id), [Activate(x.id, None), FinishStop(x)], stopped);
    ReachMore(START, Activate(x.id, Some(x)), [Reference(x.id), Activate(x.id, None), FinishStop(x)], stopped);
  }

  lemma ChainOfOne(x: Instance, n: nat)
    requires n > 0
    ensures Released(Anchor(None, 0, [Claim(x, n)]), x)
      == (Anchor(None, 0, if n == 1 then [] else [Claim(x, n - 1)]), n == 1)
    ensures Recorded([Claim(x, n)], x) == n
  {
    assert Find([Claim(x, n)], x) == 0 && [Claim(x, n)][1..] == [];
    assert [Claim(x, n)][0 := Claim(x, n - 1)] == [Claim(x, n - 1)];
    assert [Claim(x, n)][..0] + [Claim(x, n)][1..] == [];
  }

  lemma ReachOne(s: State, step: Step)
    requires Allowed(s, step)
    ensures Reaches(s, [step], Next(s, step))
  {
    hide Allowed, Next;
    assert [step][1..] == [];
  }

  lemma ReachMore(s: State, step: Step, steps: seq<Step>, s': State)
    requires Allowed(s, step) && Reaches(Next(s, step), steps, s')
    ensures Reaches(s, [step] + steps, s')
  {
    hide Allowed, Next;
    assert ([step] + steps)[1..] == steps;
  }

  /** What is handed out, active or about to be released has not been destroyed. */
  lemma {:induction false} ClaimedIsUsable(steps: seq<Step>, s: State, x: Instance)
    requires Reaches(START, steps, s)
    requires x in s.refs || x in s.pending || Active(s.anchors, x)
    ensures x !in s.destroyed && x in s.started
  {
    RunKeepsInv(START, steps, s);
    assert InstanceInv(s, x);
  }

  /** One step destroys at most one instance: the one whose last claim it takes. */
  lemma StepDestroys(s: State, step: Step)
    requires Inv(s) && Allowed(s, step)
    ensures Next(s, step).destroyed
      == if (step.Release? || step.FinishStop?) && Claims(s, step.instance) == 1 then s.destroyed + [step.instance]
         else s.destroyed
  {
    if step.Release? || step.FinishStop? {
      assert InstanceInv(s, step.instance);
      GivenUpInstance(s, step.instance, Next(s, step), step.instance);
    }
  }

  /** A destroyed instance is out of reach for good. */
  lemma {:induction false} DestroyedStays(s: State, steps: seq<Step>, s': State, x: Instance)
    requires Inv(s) && Reaches(s, steps, s') && x in s.destroyed
    ensures x in s'.destroyed && CountOf(s'.anchors, x) == 0 && !Active(s'.anchors, x)
    decreases steps
  {
    if steps == [] {
      assert InstanceInv(s, x);
    } else {
      StepKeepsInv(s, steps[0]);
      StepDestroys(s, steps[0]);
      DestroyedStays(Next(s, steps[0]), steps[1..], s', x);
    }
  }

  /** Stopping an id that has no active instance changes nothing. */
  lemma StopAgain(s: State, id: string)
    requires Inv(s) && ActiveOf(s, id) == {}
    ensures Next(s, Activate(id, None)) == s
  {
    if id in s.anchors {
      assert s.anchors[id := s.anchors[id]] == s.anchors;
    }
  }

  // ---- how many instances of an id there are

  ghost function Entries(stopping: seq<Claim>): set<Instance> {
    set i | 0 <= i < |stopping| :: stopping[i].instance
  }

  lemma {:induction false} EntriesCount(stopping: seq<Claim>)
    requires forall i, j | 0 <= i < j < |stopping| :: stopping[i].instance != stopping[j].instance
    ensures |Entries(stopping)| == |stopping|
  {
    if stopping != [] {
      var rest := stopping[..|stopping| - 1];
      var last := stopping[|stopping| - 1].instance;
      EntriesCount(rest);
      assert Entries(stopping) == Entries(rest) + {last};
      assert last !in Entries(rest);
    }
  }

  /** The instances of an id that are started and not destroyed. */
  ghost function Running(s: State, id: string): set<Instance> {
    set x | x in s.started && x.id == id && x !in s.destroyed
  }

  /** The related instance count is the number of running instances, negative when
      none is active. */
  lemma {:induction false} RelatedCountIsRunning(steps: seq<Step>, s: State, id: string)
    requires Reaches(START, steps, s)
    ensures RelatedCount(s.anchors, id) == |Running(s, id)| * if ActiveOf(s, id) == {} then -1 else 1
  {
    RunKeepsInv(START, steps, s);
    var stopping := if id in s.anchors then s.anchors[id].stopping else [];
    EntriesCount(stopping);
    forall x
      ensures x in Running(s, id) <==> x in ActiveOf(s, id) + Entries(stopping)
    {
      assert InstanceInv(s, x);
      LiveExactlyWhileClaimed(steps, s, x);
      FindIsEntry(stopping, x);
    }
    assert Running(s, id) == ActiveOf(s, id) + Entries(stopping);
    assert ActiveOf(s, id) !! Entries(stopping);
  }

  lemma FindIsEntry(stopping: seq<Claim>, x: Instance)
    ensures Find(stopping, x) < |stopping| <==> x in Entries(stopping)
  {
    if x in Entries(stopping) {
      var i :| 0 <= i < |stopping| && stopping[i].instance == x;
    }
  }

  // ---- the calls

  /** Activating and then releasing what was active, on the anchors alone. */
  ghost function Replaced(anchors: Anchors, id: string, next: Option<Instance>): Anchors {
    var mid := Activated(anchors, id, next);
    if id in anchors && anchors[id].active.Some? && anchors[id].active.value.id in mid then
      mid[anchors[id].active.value.id := Released(mid[anchors[id].active.value.id], anchors[id].active.value).0]
    else mid
  }

  lemma ReplacedCounts(anchors: Anchors, id: string, next: Option<Instance>, y: Instance)
    requires id in anchors ==> WellFormed(anchors[id], id)
    requires next.Some? ==> next.value.id == id && CountOf(anchors, next.value) == 0
    ensures CountOf(Replaced(anchors, id, next), y)
      == CountOf(anchors, y) + (if next == Some(y) then 1 else 0)
         - (if id in anchors && anchors[id].active == Some(y) then 1 else 0)
    ensures id in anchors || next.Some? ==> id in Replaced(anchors, id, next) && Replaced(anchors, id, next)[id].active == next
  {
    ActivatedIsWellFormed(anchors, id, next);
    if id in anchors && anchors[id].active.Some? {
      var x := anchors[id].active.value;
      var mid := Activated(anchors, id, next)[id];
      RecordedWhenFound(anchors[id].stopping, x);
      assert mid.stopping[1..] == anchors[id].stopping;
      assert CountIn(mid, x) > 0;
      ReleasedTakesOne(mid, id, x, y);
      ReleasedIsWellFormed(mid, id, x);
    }
  }

  class Environment {
    var anchors: Anchors
    var destroyed: seq<Instance>

    constructor ()
      ensures anchors == map[] && destroyed == []
    {
      anchors, destroyed := map[], [];
    }

    /** The locked section of set_instance_active.  It throws for a stop of an id
        that was never started. */
    method SetActiveLocked(id: string, adaptor: Option<Instance>) returns (ok: bool, stopping: Option<Instance>)
      modifies this`anchors
      ensures ok <==> id in old(anchors) || adaptor.Some?
      ensures anchors == Activated(old(anchors), id, adaptor)
      ensures stopping == if id in old(anchors) then old(anchors)[id].active else None
    {
      stopping := None;
      var anchor: Anchor;
      if id !in anchors {
        if adaptor == None {
          return false, None;
        }
        anchor := Anchor(None, 0, []);
      } else {
        anchor := anchors[id];
        if anchor.active.Some? {
          stopping := anchor.active;
          anchor := anchor.(stopping := [Claim(anchor.active.value, anchor.count)] + anchor.stopping);
        }
      }
      anchor := anchor.(active := adaptor, count := if adaptor.Some? then 1 else 0);
      anchors := anchors[id := anchor];
      ok := true;
    }

    /** Both sections with no other thread in between. */
    method SetActive(id: string, adaptor: Option<Instance>) returns (ok: bool)
      requires id in anchors ==> WellFormed(anchors[id], id)
      requires adaptor.Some? ==> adaptor.value.id == id && CountOf(anchors, adaptor.value) == 0
      modifies this
      ensures ok <==> id in old(anchors) || adaptor.Some?
      ensures ok ==> id in anchors && anchors[id].active == adaptor
      ensures forall y :: CountOf(anchors, y) == CountOf(old(anchors), y)
                          + (if adaptor == Some(y) then 1 else 0)
                          - (if id in old(anchors) && old(anchors)[id].active == Some(y) then 1 else 0)
    {
      hide CountOf, WellFormed, Activated, Released;
      forall y
        ensures CountOf(Replaced(anchors, id, adaptor), y)
          == CountOf(anchors, y) + (if adaptor == Some(y) then 1 else 0)
             - (if id in anchors && anchors[id].active == Some(y) then 1 else 0)
      {
        ReplacedCounts(anchors, id, adaptor, y);
      }
      ReplacedCounts(anchors, id, adaptor, Instance(id, 0));
      var stopping: Option<Instance>;
      ok, stopping := SetActiveLocked(id, adaptor);
      if stopping.Some? {
        Release(stopping.value);
      }
      assert anchors == Replaced(old(anchors), id, adaptor);
    }

    method GetReference(id: string) returns (instance: Option<Instance>)
      modifies this`anchors
      ensures anchors == Referenced(old(anchors), id)
      ensures instance == if id in anchors then anchors[id].active else None
    {
      instance := None;
      if id in anchors {
        instance := anchors[id].active;
        if instance.Some? {
          anchors := anchors[id := anchors[id].(count := anchors[id].count + 1)];
        }
      }
    }

    /** Walk the chain to the instance's anchor, take one from its count, and unlink
        and destroy the instance when nothing is left. */
    method Release(instance: Instance)
      modifies this
      ensures State(anchors, multiset{}, {}, {}, destroyed)
        == GiveUp(State(old(anchors), multiset{}, {}, {}, old(destroyed)), instance)
    {
      if instance.id !in anchors {
        return;
      }
      var anchor := anchors[instance.id];
      var destroy := false;
      if anchor.active == Some(instance) {
        anchor := anchor.(count := anchor.count - 1);
        if anchor.count <= 0 {
          destroy := true;
          anchor := anchor.(count := 0, active := None);
        }
      } else {
        var i := 0;
        while i < |anchor.stopping| && anchor.stopping[i].instance != instance
          invariant 0 <= i <= |anchor.stopping|
          invariant forall j | 0 <= j < i :: anchor.stopping[j].instance != instance
        {
          i := i + 1;
        }
        if i < |anchor.stopping| {
          var count := anchor.stopping[i].count - 1;
          if count <= 0 {
            destroy := true;
            anchor := anchor.(stopping := anchor.stopping[..i] + anchor.stopping[i + 1..]);
          } else {
            anchor := anchor.(stopping := anchor.stopping[i := Claim(instance, count)]);
          }
        }
      }
      anchors := anchors[instance.id := anchor];
      if destroy {
        destroyed := destroyed + [instance];
      }
    }

    method RelatedInstanceCount(id: string) returns (result: int)
      ensures result == RelatedCount(anchors, id)
    {
      result := 0;
      if id in anchors {
        for i := 0 to |anchors[id].stopping|
          invariant result == i
        {
          result := result + 1;
        }
        if anchors[id].active.Some? {
          result := result + 1;
        } else {
          result := -result;
        }
      }
    }
  }
}
