/** The query loop over a plan's cursors, against the full scan it stands for. */
module IndexQuery {
  import opened Basics
  import opened Criteria
  import opened Planner
  import opened PlanMeaning

  type Store = map<string, Object>

  // ---- index_applies

  function CompareTo(v: Value, wanted: string): int {
    match v
    case Scalar(s) => if s == wanted then 0 else if Less(s, wanted) then -1 else 1
    case List(ss) => if wanted in ss then 0 else -1
  }

  /** The look-ahead's own reading of an entry. */
  predicate Applies(e: Entry, o: Object) {
    if e.property in o then
      var c := CompareTo(o[e.property], e.value);
      match e.op
      case Eq => c == 0
      case Ne => c != 0
      case Lt => c < 0
      case Le => c <= 0
      case Gt => c > 0
      case Ge => c >= 0
    else e.op == Ne
  }

  /** For `Eq` the look-ahead and the residual test read an entry alike. */
  lemma EqAppliesIsHolds(e: Entry, o: Object)
    requires e.op == Eq
    ensures Applies(e, o) <==> Holds(e, o)
  {
    EqHolds(e, o);
    if e.property in o && o[e.property].Scalar? {
      assert o[e.property].Items()[0] == o[e.property].text;
    }
  }

  /** For a string the look-ahead reads every operator as the residual test reads it
      with its operands exchanged. */
  lemma AppliesIsExchanged(e: Entry, o: Object)
    requires e.property in o && o[e.property].Scalar?
    ensures Applies(e, o) <==> Holds(e.(op := Exchanged(e.op)), o)
  {
    var item := o[e.property].text;
    assert o[e.property].Items() == [item] && item in [item];
    assert forall x | x in o[e.property].Items() :: x == item;
    LessTotal(e.value, item);
    if Less(e.value, item) {
      LessAsymmetric(e.value, item);
    }
    if Less(item, e.value) {
      LessAsymmetric(item, e.value);
    }
  }

  /** A list is equal to its items and below every other string. */
  lemma AppliesToList(e: Entry, o: Object)
    requires e.property in o && o[e.property].List?
    ensures Applies(e, o) <==>
      if e.value in o[e.property].items then e.op == Eq || e.op == Le || e.op == Ge
      else e.op == Ne || e.op == Lt || e.op == Le
  {
  }

  /** The look-ahead and the residual test read an entry alike, on all objects,
      exactly when its operator is `Eq`. */
  lemma AppliesExactlyWhen(e: Entry)
    ensures (forall o: Object :: Applies(e, o) <==> Holds(e, o)) <==> e.op == Eq
  {
    if e.op == Eq {
      forall o: Object
        ensures Applies(e, o) <==> Holds(e, o)
      {
        EqAppliesIsHolds(e, o);
      }
    } else if e.op == Ne {
      assert Applies(e, map[]) && !Holds(e, map[]);
    } else {
      var above := e.value + "a";
      var o: Object := map[e.property := Scalar(above)];
      LessAppended(e.value);
      LessAsymmetric(e.value, above);
      AppliesIsExchanged(e, o);
      assert o[e.property].Items() == [above] && above in [above];
      assert Holds(e, o) <==> e.op == Lt || e.op == Le;
      assert Applies(e, o) <==> e.op == Gt || e.op == Ge;
    }
  }

  // ---- the loop

  predicate Resolved(list: seq<Cursor>, store: Store) {
    forall c, k | c in list && k in c.contents :: k in store
  }

  predicate AppliesLater(list: seq<Cursor>, i: nat, o: Object)
  {
    exists j | i < j < |list| :: Applies(list[j].entry, o)
  }

  predicate Passes(list: seq<Cursor>, i: nat, f: Filter, o: Object)
    requires i < |list|
  {
    (list[i].innerJoin || Walk(f, o)) && !AppliesLater(list, i, o)
  }

  predicate Hands(list: seq<Cursor>, i: nat, f: Filter, store: Store, k: string)
    requires i < |list|
  {
    k in store && Passes(list, i, f, store[k])
  }

  /** What cursor `i` hands to the callback from position `at` on. */
  function FromCursor(list: seq<Cursor>, i: nat, at: nat, f: Filter, store: Store): seq<string>
    requires i < |list| && at <= |list[i].contents|
    decreases |list[i].contents| - at
  {
    if at == |list[i].contents| then []
    else if Hands(list, i, f, store, list[i].contents[at]) then
      [list[i].contents[at]] + FromCursor(list, i, at + 1, f, store)
    else FromCursor(list, i, at + 1, f, store)
  }

  function Emitted(list: seq<Cursor>, i: nat, f: Filter, store: Store): seq<string>
    requires i <= |list|
    decreases |list| - i
  {
    if i == |list| then [] else FromCursor(list, i, 0, f, store) + Emitted(list, i + 1, f, store)
  }

  function Answer(env: Env, f: Filter, store: Store): Option<seq<string>>
  {
    var p := PlanOf(env, f);
    if p.Failed? || p.cursors == [] then None else Some(Emitted(p.cursors, 0, f, store))
  }

  lemma FromCursorStep(list: seq<Cursor>, i: nat, at: nat, f: Filter, store: Store)
    requires i < |list| && at <= |list[i].contents|
    ensures FromCursor(list, i, at, f, store)
      == if at == |list[i].contents| then []
         else (if Hands(list, i, f, store, list[i].contents[at]) then [list[i].contents[at]] else [])
              + FromCursor(list, i, at + 1, f, store)
  {
    hide Hands;
  }

  lemma EmittedStep(list: seq<Cursor>, i: nat, f: Filter, store: Store)
    requires i <= |list|
    ensures Emitted(list, i, f, store)
      == if i == |list| then [] else FromCursor(list, i, 0, f, store) + Emitted(list, i + 1, f, store)
  {
    hide FromCursor;
  }

  lemma Regrouped(out: seq<string>, keys: seq<string>, rest: seq<string>)
    ensures out + (keys + rest) == out + keys + rest && [] + rest == rest && out + [] == out
  {
  }

  method IsDuplicate(list: seq<Cursor>, index: nat, found: Object) returns (r: bool)
    ensures r == AppliesLater(list, index, found)
  {
    var i := index + 1;
    while i < |list|
      invariant index < i
      invariant forall j | index < j < i && j < |list| :: !Applies(list[j].entry, found)
    {
      if Applies(list[i].entry, found) {
        return true;
      }
      i := i + 1;
    }
    r := false;
  }

  /** Drain one cursor. */
  method Drain(list: seq<Cursor>, index: nat, f: Filter, store: Store) returns (out: seq<string>)
    requires index < |list| && Resolved(list, store)
    ensures out == FromCursor(list, index, 0, f, store)
  {
    hide FromCursor, Hands, Resolved;
    out := [];
    var cursor := list[index];
    var at := 0;
    Regrouped([], [], FromCursor(list, index, 0, f, store));
    while at < |cursor.contents|
      invariant 0 <= at <= |cursor.contents|
      invariant FromCursor(list, index, 0, f, store) == out + FromCursor(list, index, at, f, store)
    {
      var key := cursor.contents[at];
      FromCursorStep(list, index, at, f, store);
      var hands := IsHanded(list, index, f, store, key);
      at := at + 1;
      ghost var rest := FromCursor(list, index, at, f, store);
      Regrouped(out, if hands then [key] else [], rest);
      Regrouped([], [], rest);
      if hands {
        out := out + [key];
      }
    }
    FromCursorStep(list, index, at, f, store);
    Regrouped(out, [], []);
  }

  /** The residual test, unless the cursor is an inner join, then the look-ahead
      for a later cursor that will deliver the object instead. */
  method IsHanded(list: seq<Cursor>, index: nat, f: Filter, store: Store, key: string) returns (r: bool)
    requires index < |list| && Resolved(list, store) && key in list[index].contents
    ensures r == Hands(list, index, f, store, key)
  {
    assert list[index] in list;
    if !list[index].innerJoin {
      var passes := TestObject(f, store[key]);
      if !passes {
        return false;
      }
    }
    var duplicate := IsDuplicate(list, index, store[key]);
    r := !duplicate;
  }

  /** The keys handed to the callback, in order; None when the call throws. */
  method Query(env: Env, f: Filter, store: Store) returns (r: Option<seq<string>>)
    requires PlanOf(env, f).Planned? ==> Resolved(PlanOf(env, f).cursors, store)
    ensures r == Answer(env, f, store)
  {
    hide PlanOf, FromCursor, Emitted, Resolved;
    var plan := CursorList(env, f);
    if plan.Failed? || |plan.cursors| == 0 {
      return None;
    }
    var list := plan.cursors;
    var out: seq<string> := [];
    var index := 0;
    Regrouped([], [], Emitted(list, 0, f, store));
    while index < |list|
      invariant 0 <= index <= |list|
      invariant Emitted(list, 0, f, store) == out + Emitted(list, index, f, store)
    {
      EmittedStep(list, index, f, store);
      var keys := Drain(list, index, f, store);
      Regrouped(out, keys, Emitted(list, index + 1, f, store));
      out := out + keys;
      index := index + 1;
    }
    EmittedStep(list, index, f, store);
    Regrouped(out, [], []);
    r := Some(out);
  }

  // ---- what the loop delivers

  predicate Distinct(s: seq<string>) {
    forall i, j | 0 <= i < j < |s| :: s[i] != s[j]
  }

  /** Each cursor holds exactly the stored objects its entry holds of, once each. */
  ghost predicate Exact(list: seq<Cursor>, store: Store) {
    forall c | c in list ::
      && c.entry.op == Eq && Distinct(c.contents)
      && forall k :: k in c.contents <==> k in store && Holds(c.entry, store[k])
  }

  predicate IsLastHolder(list: seq<Cursor>, i: nat, o: Object) {
    i < |list| && Holds(list[i].entry, o) && forall j | i < j < |list| :: !Holds(list[j].entry, o)
  }

  ghost predicate Delivers(list: seq<Cursor>, i: nat, f: Filter, o: Object)
    requires i < |list|
  {
    IsLastHolder(list, i, o) && (list[i].innerJoin || Walk(f, o))
  }

  ghost predicate DeliveredFrom(list: seq<Cursor>, i: nat, f: Filter, o: Object) {
    exists j: nat | i <= j < |list| :: Delivers(list, j, f, o)
  }

  lemma {:induction false} FromCursorMembers(list: seq<Cursor>, i: nat, at: nat, f: Filter, store: Store)
    requires i < |list| && at <= |list[i].contents|
    ensures forall k :: (k in FromCursor(list, i, at, f, store)
                         <==> k in store && k in list[i].contents[at..] && Passes(list, i, f, store[k]))
    decreases |list[i].contents| - at
  {
    assert list[i] in list;
    if at < |list[i].contents| {
      FromCursorMembers(list, i, at + 1, f, store);
      assert list[i].contents[at..] == [list[i].contents[at]] + list[i].contents[at + 1..];
    }
  }

  lemma {:induction false} FromCursorDistinct(list: seq<Cursor>, i: nat, at: nat, f: Filter, store: Store)
    requires i < |list| && at <= |list[i].contents| && Distinct(list[i].contents)
    ensures Distinct(FromCursor(list, i, at, f, store))
    decreases |list[i].contents| - at
  {
    if at < |list[i].contents| {
      FromCursorDistinct(list, i, at + 1, f, store);
      FromCursorMembers(list, i, at + 1, f, store);
      var k := list[i].contents[at];
      assert k !in list[i].contents[at + 1..];
    }
  }

  lemma LastHolderPasses(list: seq<Cursor>, i: nat, f: Filter, store: Store, k: string)
    requires i < |list| && Exact(list, store) && k in store
    ensures k in list[i].contents && Passes(list, i, f, store[k]) <==> Delivers(list, i, f, store[k])
  {
    assert list[i] in list;
    forall j | i < j < |list|
      ensures Applies(list[j].entry, store[k]) <==> Holds(list[j].entry, store[k])
    {
      assert list[j] in list;
      EqAppliesIsHolds(list[j].entry, store[k]);
    }
  }

  lemma DistinctConcat(a: seq<string>, b: seq<string>)
    requires Distinct(a) && Distinct(b) && forall k | k in a :: k !in b
    ensures Distinct(a + b)
  {
    var s := a + b;
    forall i, j | 0 <= i < j < |s|
      ensures s[i] != s[j]
    {
      if i < |a| <= j {
        assert a[i] in a && b[j - |a|] in b;
      }
    }
  }

  lemma {:induction false} EmittedMembers(list: seq<Cursor>, i: nat, f: Filter, store: Store)
    requires i <= |list| && Exact(list, store)
    ensures forall k :: k in Emitted(list, i, f, store) <==> k in store && DeliveredFrom(list, i, f, store[k])
    decreases |list| - i
  {
    if i < |list| {
      EmittedMembers(list, i + 1, f, store);
      FromCursorMembers(list, i, 0, f, store);
      assert list[i].contents[0..] == list[i].contents;
      forall k | k in store
        ensures k in FromCursor(list, i, 0, f, store) <==> Delivers(list, i, f, store[k])
      {
        LastHolderPasses(list, i, f, store, k);
      }
    }
  }

  /** The loop emits an object once, from the last cursor that holds it, if that
      cursor is an inner join or the object passes the residual test. */
  lemma {:induction false} EmittedExactly(list: seq<Cursor>, i: nat, f: Filter, store: Store)
    requires i <= |list| && Exact(list, store)
    ensures Distinct(Emitted(list, i, f, store))
    ensures forall k :: k in Emitted(list, i, f, store) <==> k in store && DeliveredFrom(list, i, f, store[k])
    decreases |list| - i
  {
    EmittedMembers(list, i, f, store);
    if i < |list| {
      assert list[i] in list;
      EmittedExactly(list, i + 1, f, store);
      FromCursorDistinct(list, i, 0, f, store);
      FromCursorMembers(list, i, 0, f, store);
      forall k | k in FromCursor(list, i, 0, f, store)
        ensures k !in Emitted(list, i + 1, f, store)
      {
        LastHolderPasses(list, i, f, store, k);
        assert !DeliveredFrom(list, i + 1, f, store[k]);
      }
      DistinctConcat(FromCursor(list, i, 0, f, store), Emitted(list, i + 1, f, store));
    }
  }

  lemma {:induction false} SomeLastHolder(list: seq<Cursor>, o: Object, i: nat) returns (last: nat)
    requires i < |list| && Holds(list[i].entry, o)
    ensures last < |list| && IsLastHolder(list, last, o)
    decreases |list| - i
  {
    last := i;
    if j :| i < j < |list| && Holds(list[j].entry, o) {
      last := SomeLastHolder(list, o, j);
    }
  }

  /** When inner joins hold only objects that pass, the loop emits the union of
      the cursors filtered by the criteria, each object once. */
  lemma {:induction false} UnionFiltered(list: seq<Cursor>, f: Filter, store: Store)
    requires Exact(list, store)
    requires forall c, k | c in list && c.innerJoin && k in c.contents :: k in store && Walk(f, store[k])
    ensures var r := Emitted(list, 0, f, store);
      && Distinct(r)
      && forall k :: k in r <==> k in store && Walk(f, store[k]) && exists c | c in list :: k in c.contents
  {
    EmittedExactly(list, 0, f, store);
    var r := Emitted(list, 0, f, store);
    forall k
      ensures k in r <==> k in store && Walk(f, store[k]) && exists c | c in list :: k in c.contents
    {
      if k in r {
        var j :| 0 <= j < |list| && Delivers(list, j, f, store[k]);
        assert list[j] in list;
      }
      if c :| c in list && k in c.contents {
        var i :| 0 <= i < |list| && list[i] == c;
        if Walk(f, store[k]) {
          var last := SomeLastHolder(list, store[k], i);
          assert Delivers(list, last, f, store[k]);
        }
      }
    }
  }

  // ---- the planned query against the full scan

  /** Opening a cursor for an entry of the filter yields exactly the stored
      objects the entry holds of. */
  ghost predicate Faithful(env: Env, f: Filter, store: Store) {
    forall e | e in Entries(f) && e.property in env.indexed ::
      && Distinct(env.contents(e))
      && forall k :: k in env.contents(e) <==> k in store && Holds(e, store[k])
  }

  ghost predicate Askable(env: Env, f: Filter, store: Store) {
    && f.Node? && Monotone(f) && EqOnly(f) && Faithful(env, f, store)
    && PlanOf(env, f).Planned? && PlanOf(env, f).cursors != []
  }

  lemma {:induction false} PlanIsExact(env: Env, f: Filter, store: Store)
    requires EqOnly(f) && Faithful(env, f, store) && PlanOf(env, f).Planned?
    ensures Exact(PlanOf(env, f).cursors, store) && Exact(DroppedOf(env, f), store)
    ensures Resolved(PlanOf(env, f).cursors, store)
  {
    CursorsFromEnv(env, f);
  }

  /** No object that the walk rejects for want of a property comes last from an
      inner join, which is not tested again. */
  ghost predicate MissingIsTested(env: Env, f: Filter, store: Store)
    requires PlanOf(env, f).Planned?
  {
    var list := PlanOf(env, f).cursors;
    forall k, j: nat | k in store && MeetsMissing(f, store[k]) && j < |list| && IsLastHolder(list, j, store[k]) ::
      !list[j].innerJoin
  }

  /** Every match held by a cursor that a merge left out is also held by one
      that it kept. */
  ghost predicate DropsAreCovered(env: Env, f: Filter, store: Store)
    requires PlanOf(env, f).Planned?
  {
    forall d, k | d in DroppedOf(env, f) && k in d.contents && k in store && Walk(f, store[k]) ::
      exists c | c in PlanOf(env, f).cursors :: k in c.contents
  }

  ghost predicate SameAsScan(r: seq<string>, f: Filter, store: Store) {
    forall k :: k in r <==> k in store && Walk(f, store[k])
  }

  lemma MatchIsHeld(env: Env, f: Filter, store: Store, k: string)
    requires Askable(env, f, store) && k in store && Walk(f, store[k])
    ensures (exists c | c in PlanOf(env, f).cursors :: k in c.contents)
      || (exists d | d in DroppedOf(env, f) :: k in d.contents)
  {
    var v := Truths(store[k]);
    WalkIsEval(f, store[k]);
    PlanIsExact(env, f, store);
    PlanCovers(env, f, v);
    if Covers(PlanOf(env, f).cursors, v) {
      var c :| c in PlanOf(env, f).cursors && c.entry in v;
      assert k in c.contents;
    } else {
      var d :| d in DroppedOf(env, f) && d.entry in v;
      assert k in d.contents;
    }
  }

  /** The main result: over a monotone filter of `Eq` entries the planned query
      delivers each object at most once, and it delivers what the full scan
      delivers exactly when no match was held only by dropped cursors and no
      object lacking a property arrived last from an inner join. */
  lemma {:induction false} QueryIsScanExactlyWhen(env: Env, f: Filter, store: Store)
    requires Askable(env, f, store)
    ensures Answer(env, f, store).Some? && Distinct(Answer(env, f, store).value)
    ensures SameAsScan(Answer(env, f, store).value, f, store)
      <==> MissingIsTested(env, f, store) && DropsAreCovered(env, f, store)
  {
    PlanIsExact(env, f, store);
    EmittedExactly(PlanOf(env, f).cursors, 0, f, store);
    if SameAsScan(Answer(env, f, store).value, f, store) {
      ScanNeedsTests(env, f, store);
      ScanNeedsCover(env, f, store);
    }
    if MissingIsTested(env, f, store) && DropsAreCovered(env, f, store) {
      forall k
        ensures k in Answer(env, f, store).value <==> k in store && Walk(f, store[k])
      {
        if k in Answer(env, f, store).value {
          DeliveredMatches(env, f, store, k);
        } else if k in store && Walk(f, store[k]) {
          MatchesDelivered(env, f, store, k);
        }
      }
    }
  }

  lemma ScanNeedsTests(env: Env, f: Filter, store: Store)
    requires Askable(env, f, store) && SameAsScan(Answer(env, f, store).value, f, store)
    ensures MissingIsTested(env, f, store)
  {
    var list := PlanOf(env, f).cursors;
    PlanIsExact(env, f, store);
    EmittedMembers(list, 0, f, store);
    forall k, j: nat | k in store && MeetsMissing(f, store[k]) && j < |list| && IsLastHolder(list, j, store[k])
      ensures !list[j].innerJoin
    {
      WalkIsEval(f, store[k]);
      assert list[j].innerJoin ==> Delivers(list, j, f, store[k]);
    }
  }

  lemma ScanNeedsCover(env: Env, f: Filter, store: Store)
    requires Askable(env, f, store) && SameAsScan(Answer(env, f, store).value, f, store)
    ensures DropsAreCovered(env, f, store)
  {
    var list := PlanOf(env, f).cursors;
    PlanIsExact(env, f, store);
    EmittedMembers(list, 0, f, store);
    forall d, k | d in DroppedOf(env, f) && k in d.contents && k in store && Walk(f, store[k])
      ensures exists c | c in list :: k in c.contents
    {
      assert k in Emitted(list, 0, f, store);
      var j: nat :| 0 <= j < |list| && Delivers(list, j, f, store[k]);
      assert list[j] in list;
    }
  }

  lemma {:induction false} MatchesDelivered(env: Env, f: Filter, store: Store, k: string)
    requires Askable(env, f, store) && DropsAreCovered(env, f, store) && k in store && Walk(f, store[k])
    ensures k in Answer(env, f, store).value
  {
    hide PlanOf, Walk, Emitted;
    var list := PlanOf(env, f).cursors;
    PlanIsExact(env, f, store);
    EmittedMembers(list, 0, f, store);
    MatchIsHeld(env, f, store, k);
    var c :| c in list && k in c.contents;
    var i :| 0 <= i < |list| && list[i] == c;
    var last := SomeLastHolder(list, store[k], i);
    assert Delivers(list, last, f, store[k]);
  }

  lemma {:induction false} DeliveredMatches(env: Env, f: Filter, store: Store, k: string)
    requires Askable(env, f, store) && MissingIsTested(env, f, store)
    requires k in Emitted(PlanOf(env, f).cursors, 0, f, store)
    ensures k in store && Walk(f, store[k])
  {
    var list := PlanOf(env, f).cursors;
    PlanIsExact(env, f, store);
    EmittedExactly(list, 0, f, store);
    var j :| 0 <= j < |list| && Delivers(list, j, f, store[k]);
    if list[j].innerJoin {
      assert list[j] in list;
      InnerJoinIsSound(env, f, list[j], Truths(store[k]));
      WalkIsEval(f, store[k]);
    }
  }

  /** In the expected case, when merges kept every cursor and every object
      defines the filter's properties, query and scan agree. */
  lemma {:induction false} QueryIsScan(env: Env, f: Filter, store: Store)
    requires Askable(env, f, store)
    requires DroppedOf(env, f) == []
    requires forall k, e | k in store && e in Entries(f) :: e.property in store[k]
    ensures Answer(env, f, store).Some?
    ensures Distinct(Answer(env, f, store).value) && SameAsScan(Answer(env, f, store).value, f, store)
  {
    QueryIsScanExactlyWhen(env, f, store);
    forall k | k in store
      ensures !MeetsMissing(f, store[k])
    {
      DefinedNeverMissing(f, store[k]);
    }
  }

  // ---- the two ways it goes wrong

  const A1 := Entry("a", Eq, "1")
  const B2 := Entry("b", Eq, "2")
  const B2_ONLY := Node(B2, Accept, Reject)
  const A1_OR_B2 := Node(A1, Accept, B2_ONLY)

  const KEY_A := "A"
  const KEY_B := "B"
  const OBJECT_A: Object := map["a" := Scalar("1"), "b" := Scalar("0")]
  const OBJECT_B: Object := map["a" := Scalar("0"), "b" := Scalar("2")]
  const OBJECT_ONLY_B: Object := map["b" := Scalar("2")]

  lemma ExampleObjects()
    ensures Holds(A1, OBJECT_A) && !Holds(B2, OBJECT_A) && Walk(A1_OR_B2, OBJECT_A)
    ensures !Holds(A1, OBJECT_B) && Holds(B2, OBJECT_B)
    ensures !Holds(A1, OBJECT_ONLY_B) && Holds(B2, OBJECT_ONLY_B) && !Walk(A1_OR_B2, OBJECT_ONLY_B)
  {
    assert Scalar("1").Items() == ["1"] && Scalar("0").Items() == ["0"] && Scalar("2").Items() == ["2"];
    assert "1" in ["1"] && "2" in ["2"] && "1"[0] != "0"[0] && "2"[0] != "0"[0];
    EqHolds(A1, OBJECT_A);
    EqHolds(A1, OBJECT_B);
    EqHolds(B2, OBJECT_A);
    EqHolds(B2, OBJECT_B);
    EqHolds(B2, OBJECT_ONLY_B);
  }

  lemma ExampleFilter(env: Env)
    requires env.indexed == {"a", "b"} && env.opens(A1) && env.opens(B2)
    requires env.count(A1).Some? && env.count(B2).Some?
    ensures Entries(A1_OR_B2) == {A1, B2} && Monotone(A1_OR_B2)
    ensures PlanOf(env, A1_OR_B2) == Planned(
      if env.count(A1).value > env.count(B2).value then [Open(env, A1), Open(env, B2)] else [Open(env, B2)])
    ensures env.count(A1).value > env.count(B2).value ==> DroppedOf(env, A1_OR_B2) == []
  {
    var a, b := [Open(env, A1)], [Open(env, B2)];
    assert Entries(B2_ONLY) == {B2};
    assert Implies(Reject, Accept) && Implies(B2_ONLY, Accept);
    assert Monotone(Accept) && Monotone(Reject) && Monotone(B2_ONLY);
    assert PlanOf(env, B2_ONLY) == Planned(b);
    assert MergeFold(a, b) == Insert(Open(env, A1), b);
    if env.count(A1).value > env.count(B2).value {
      assert Open(env, B2) in b && Larger(Open(env, A1), b);
      assert LostOf(a, b) == [];
      assert DroppedOf(env, B2_ONLY) == [];
    } else {
      assert Insert(Open(env, A1), b) == b;
    }
  }

  function ExampleEnv(countA: nat): Env {
    Env({"a", "b"}, e => true, e => if e == A1 then [KEY_A] else [KEY_B], e => if e == A1 then Some(countA) else Some(1))
  }

  function ExampleStore(o: Object): Store {
    map[KEY_A := OBJECT_A, KEY_B := o]
  }

  lemma ExampleIsAskable(countA: nat, o: Object)
    requires o == OBJECT_B || o == OBJECT_ONLY_B
    ensures Askable(ExampleEnv(countA), A1_OR_B2, ExampleStore(o))
  {
    ExampleObjects();
    ExampleFilter(ExampleEnv(countA));
    assert EqOnly(A1_OR_B2);
  }

  /** `a=1 OR b=2` with one match each: the merge drops the cursor of `a`, which
      is no larger than that of `b`, and its match is never delivered although
      every object defines both properties. */
  lemma MergeLosesMatch()
    ensures Askable(ExampleEnv(1), A1_OR_B2, ExampleStore(OBJECT_B))
    ensures forall k, e | k in ExampleStore(OBJECT_B) && e in Entries(A1_OR_B2) :: e.property in ExampleStore(OBJECT_B)[k]
    ensures Walk(A1_OR_B2, ExampleStore(OBJECT_B)[KEY_A])
    ensures KEY_A !in Answer(ExampleEnv(1), A1_OR_B2, ExampleStore(OBJECT_B)).value
  {
    var env, store := ExampleEnv(1), ExampleStore(OBJECT_B);
    ExampleIsAskable(1, OBJECT_B);
    ExampleObjects();
    ExampleFilter(env);
    PlanIsExact(env, A1_OR_B2, store);
    EmittedMembers([Open(env, B2)], 0, A1_OR_B2, store);
  }

  /** `a=1 OR b=2` where every cursor is kept and one object has only `b`: the
      scan rejects it at the absent `a`, the inner join of `b` delivers it. */
  lemma MissingPropertyDelivered()
    ensures Askable(ExampleEnv(2), A1_OR_B2, ExampleStore(OBJECT_ONLY_B))
    ensures DroppedOf(ExampleEnv(2), A1_OR_B2) == []
    ensures !Walk(A1_OR_B2, ExampleStore(OBJECT_ONLY_B)[KEY_B])
    ensures KEY_B in Answer(ExampleEnv(2), A1_OR_B2, ExampleStore(OBJECT_ONLY_B)).value
  {
    var env, store := ExampleEnv(2), ExampleStore(OBJECT_ONLY_B);
    ExampleIsAskable(2, OBJECT_ONLY_B);
    ExampleObjects();
    ExampleFilter(env);
    PlanIsExact(env, A1_OR_B2, store);
    var list := [Open(env, A1), Open(env, B2)];
    EmittedMembers(list, 0, A1_OR_B2, store);
    assert Delivers(list, 1, A1_OR_B2, store[KEY_B]);
  }
}
