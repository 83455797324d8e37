/** What a plan means: when there is one, which objects its cursors cover, and
    which cursors need no residual test. */
module PlanMeaning {
  import opened Basics
  import opened Criteria
  import opened Planner

  // ---- when the planner succeeds

  /** The entry has an index, and the store can say how much it holds. */
  predicate CountedEntry(env: Env, e: Entry) {
    e.property in env.indexed && env.count(e).Some?
  }

  /** The plan, if there is one, has a cursor. */
  predicate HasCursor(env: Env, f: Filter) {
    if !f.Node? then false
    else if f.onFalse.Node? then HasCursor(env, f.onFalse)
    else if f.onTrue.Node? then CountedEntry(env, f.entry) || HasCursor(env, f.onTrue)
    else f.entry.property in env.indexed
  }

  /** The plan, if there is one, has no cursor without a count. */
  predicate AllCounted(env: Env, f: Filter) {
    f.Node? ==>
      if f.onFalse.Node? then true
      else if f.onTrue.Node? then CountedEntry(env, f.entry) || AllCounted(env, f.onTrue)
      else f.entry.property in env.indexed ==> env.count(f.entry).Some?
  }

  /** Every cursor can be opened, and wherever the tree reads as an OR its left side
      offers a cursor, neither side one without a count.  An entry joined with what
      follows it offers its own cursor if that has a count. */
  predicate Plannable(env: Env, f: Filter) {
    if !f.Node? then f.Reject?
    else if f.entry.property in env.indexed && !env.opens(f.entry) then false
    else if f.onFalse.Node? then
      && Plannable(env, f.onFalse) && AllCounted(env, f.onFalse)
      && (f.onTrue.Node? ==> Plannable(env, f.onTrue))
      && (CountedEntry(env, f.entry) || (f.onTrue.Node? && HasCursor(env, f.onTrue) && AllCounted(env, f.onTrue)))
    else if f.onTrue.Node? then Plannable(env, f.onTrue)
    else f.onTrue.Accept? && f.onFalse.Reject?
  }

  lemma OuterMembers(list: seq<Cursor>)
    ensures Known(list) ==> Known(Outer(list))
    ensures forall c | c in Outer(list) :: !c.innerJoin && exists d | d in list :: d.(innerJoin := false) == c
    ensures forall d | d in list :: d.(innerJoin := false) in Outer(list)
  {
    var r := Outer(list);
    forall c | c in r
      ensures !c.innerJoin && exists d | d in list :: d.(innerJoin := false) == c
    {
      var i :| 0 <= i < |r| && r[i] == c;
      assert list[i] in list;
    }
    forall d | d in list
      ensures d.(innerJoin := false) in r
    {
      var i :| 0 <= i < |list| && list[i] == d;
      assert r[i] in r;
    }
  }

  lemma {:induction false} FoldNonEmpty(a: seq<Cursor>, b: seq<Cursor>)
    ensures MergeFold(a, b) == [] <==> b == []
  {
    MergeExact(a, b);
    if b == [] {
      NothingLarger(a);
      assert |multiset(MergeFold(a, b))| == 0;
    } else {
      assert b[0] in multiset(MergeFold(a, b));
    }
  }

  lemma {:induction false} NothingLarger(a: seq<Cursor>)
    ensures KeptOf(a, []) == []
  {
    if a != [] {
      NothingLarger(a[1..]);
    }
  }

  lemma {:induction false} TotalExactlyWhen(list: seq<Cursor>)
    ensures TotalCount(list).Some? <==> list != [] && Known(list)
  {
    if list != [] {
      TotalExactlyWhen(list[1..]);
      assert list == [list[0]] + list[1..];
    }
  }

  /** A join offers a cursor, or counts, exactly when its first list has a total or its
      second list does so. */
  lemma JoinOffers(own: seq<Cursor>, t: seq<Cursor>)
    ensures TotalCount(own).Some? ==> JoinOf(own, t) != [] && Known(JoinOf(own, t))
    ensures TotalCount(own).None? ==> (JoinOf(own, t) != [] <==> t != []) && (Known(JoinOf(own, t)) <==> Known(t))
  {
    hide TotalCount;
    TotalExactlyWhen(own);
    TotalExactlyWhen(t);
    KnownOuter(own);
    KnownOuter(t);
  }

  lemma KnownOuter(list: seq<Cursor>)
    ensures Known(Outer(list)) <==> Known(list)
    ensures Outer(list) != [] <==> list != []
  {
    OuterMembers(list);
    if Known(Outer(list)) {
      forall c | c in list
        ensures c.count.Some?
      {
        assert c.(innerJoin := false) in Outer(list);
      }
    }
  }

  lemma MergeOffers(a: seq<Cursor>, b: seq<Cursor>)
    requires MergeOf(a, b).Planned?
    ensures Known(MergeFold(a, b)) && (MergeFold(a, b) != [] <==> b != [])
  {
    MergedMembers(a, b);
    FoldNonEmpty(a, b);
  }

  /** The planner succeeds exactly on the plannable trees.  It throws, or hands on a
      NULL list, on every other one. */
  lemma {:induction false} PlannedExactly(env: Env, f: Filter)
    ensures PlanOf(env, f).Planned? <==> Plannable(env, f)
    ensures PlanOf(env, f).Planned? ==> (PlanOf(env, f).cursors != [] <==> HasCursor(env, f))
    ensures PlanOf(env, f).Planned? ==> (Known(PlanOf(env, f).cursors) <==> AllCounted(env, f))
  {
    hide TotalCount, MergeFold, JoinOf;
    if f.Node? {
      var own := Own(env, f.entry);
      assert own != [] ==> own[0] in own;
      TotalExactlyWhen(own);
      var list := own;
      if f.onTrue.Node? {
        PlannedExactly(env, f.onTrue);
        if PlanOf(env, f.onTrue).Planned? {
          list := JoinOf(own, PlanOf(env, f.onTrue).cursors);
          JoinOffers(own, PlanOf(env, f.onTrue).cursors);
        }
      }
      if f.onFalse.Node? {
        PlannedExactly(env, f.onFalse);
        if PlanOf(env, f.onFalse).Planned? && MergeOf(list, PlanOf(env, f.onFalse).cursors).Planned? {
          MergeOffers(list, PlanOf(env, f.onFalse).cursors);
        }
      }
    }
  }

  /** Indexing every property gives every plan a cursor, and where all cursors open and
      have counts it gives every monotone filter a plan. */
  lemma {:induction false} IndexedIsPlannable(env: Env, f: Filter)
    requires f.Node? && Monotone(f) && forall e | e in Entries(f) :: e.property in env.indexed
    ensures HasCursor(env, f)
    ensures Counted(env, f) && Opening(env, f) ==> Plannable(env, f) && AllCounted(env, f)
    ensures Plannable(env, f) ==> Opening(env, f)
  {
    if f.onTrue.Node? {
      IndexedIsPlannable(env, f.onTrue);
    }
    if f.onFalse.Node? {
      IndexedIsPlannable(env, f.onFalse);
    }
  }

  ghost predicate Counted(env: Env, f: Filter) {
    forall e | e in Entries(f) && e.property in env.indexed :: env.count(e).Some?
  }

  ghost predicate Opening(env: Env, f: Filter) {
    forall e | e in Entries(f) && e.property in env.indexed :: env.opens(e)
  }

  /** Where all cursors open and have counts the planner needs an index on the left of
      every OR. */
  predicate LeftIndexed(env: Env, f: Filter) {
    f.Node? ==>
      && LeftIndexed(env, f.onTrue) && LeftIndexed(env, f.onFalse)
      && (f.onFalse.Node? ==> f.entry.property in env.indexed || (f.onTrue.Node? && HasCursor(env, f.onTrue)))
  }

  lemma {:induction false} CountedExactlyWhen(env: Env, f: Filter)
    requires f.Node? && Monotone(f) && Counted(env, f) && Opening(env, f)
    ensures AllCounted(env, f) && (Plannable(env, f) <==> LeftIndexed(env, f))
  {
    if f.onTrue.Node? {
      CountedExactlyWhen(env, f.onTrue);
    }
    if f.onFalse.Node? {
      CountedExactlyWhen(env, f.onFalse);
    }
  }

  // ---- what sargable means

  /** The filter may hold when `v` is the set of entries that hold, as far as an index
      can tell: anything may hold behind an `ne`, which no index answers. */
  ghost predicate MayHold(f: Filter, v: iset<Entry>) {
    match f
    case Accept => true
    case Reject => false
    case Node(e, t, n) => e.op == Ne || (e in v && MayHold(t, v)) || MayHold(n, v)
  }

  lemma {:induction false} MayHoldGrows(f: Filter, v: iset<Entry>, w: iset<Entry>)
    requires MayHold(f, v) && forall e | e in Entries(f) && e in v :: e in w
    ensures MayHold(f, w)
  {
    if f.Node? {
      if MayHold(f.onTrue, v) {
        MayHoldGrows(f.onTrue, v, w);
      }
      if MayHold(f.onFalse, v) {
        MayHoldGrows(f.onFalse, v, w);
      }
    }
  }

  lemma {:induction false} MayHoldIsEval(f: Filter, v: iset<Entry>)
    requires Monotone(f) && forall e | e in Entries(f) :: e.op != Ne
    ensures MayHold(f, v) <==> Eval(f, v)
  {
    if f.Node? {
      MayHoldIsEval(f.onTrue, v);
      MayHoldIsEval(f.onFalse, v);
      MonotoneNode(f, v);
    }
  }

  /** An entry of the filter that has an index is among those that hold. */
  ghost predicate IsSeen(env: Env, f: Filter, v: iset<Entry>) {
    exists e | e in Entries(f) && e in v :: e.property in env.indexed
  }

  ghost function Unindexed(env: Env): iset<Entry> {
    iset e: Entry | e.property !in env.indexed
  }

  /** Indexes help exactly where the entries without an index are not enough. */
  lemma {:induction false} SargableByUnindexed(env: Env, f: Filter)
    requires f.Node? && Monotone(f)
    ensures Sargable(env, f) == Some(!MayHold(f, Unindexed(env)))
  {
    if f.onTrue.Node? {
      SargableByUnindexed(env, f.onTrue);
    }
    if f.onFalse.Node? {
      SargableByUnindexed(env, f.onFalse);
    }
  }

  /** A filter is sargable exactly when it cannot hold without an indexed entry of it
      holding: an index then sees every match. */
  lemma {:induction false} SargableExactlyWhen(env: Env, f: Filter)
    requires f.Node? && Monotone(f)
    ensures Sargable(env, f).Some?
    ensures Sargable(env, f) == Some(true)
      <==> forall v: iset<Entry> :: MayHold(f, v) ==> IsSeen(env, f, v)
  {
    hide Sargable;
    SargableByUnindexed(env, f);
    if MayHold(f, Unindexed(env)) {
      assert forall e | e in Entries(f) && e in Unindexed(env) :: e.property !in env.indexed;
    } else {
      forall v: iset<Entry> | MayHold(f, v)
        ensures IsSeen(env, f, v)
      {
        if forall e | e in Entries(f) && e in v :: e.property !in env.indexed {
          MayHoldGrows(f, v, Unindexed(env));
        }
      }
    }
  }

  /** Without `ne` entries: exactly when no match escapes the indexed entries. */
  lemma {:induction false} SargableMeans(env: Env, f: Filter)
    requires f.Node? && Monotone(f) && forall e | e in Entries(f) :: e.op != Ne
    ensures Sargable(env, f) == Some(true)
      <==> forall v: iset<Entry> :: Eval(f, v) ==> IsSeen(env, f, v)
  {
    hide Sargable, Monotone, Eval, MayHold, Entries, IsSeen;
    SargableExactlyWhen(env, f);
    forall v: iset<Entry>
      ensures MayHold(f, v) <==> Eval(f, v)
    {
      MayHoldIsEval(f, v);
    }
  }

  /** Sargable is not enough: `a AND (u OR b)` with only `u` unindexed counts as
      sargable and has no plan, although all its counts are available. */
  lemma SargableWithoutPlan()
    ensures exists env: Env, f: Filter ::
      Monotone(f) && EqOnly(f) && Counted(env, f) && Opening(env, f) && Sargable(env, f) == Some(true) && PlanOf(env, f).Failed?
  {
    var env := Env({"a", "b"}, e => true, e => [], e => Some(0));
    var b := Node(Entry("b", Eq, "3"), Accept, Reject);
    var u := Node(Entry("u", Eq, "2"), Accept, b);
    var f := Node(Entry("a", Eq, "1"), u, Reject);
    assert Monotone(b) && Monotone(u) && Monotone(f);
    assert PlanOf(env, b) == Planned(Own(env, b.entry));
    assert Own(env, u.entry) == [];
    assert PlanOf(env, u).Failed?;
    assert Sargable(env, u) == Some(false);
    assert Sargable(env, f) == Some(true);
    assert PlanOf(env, f).Failed?;
    assert Counted(env, f) && Opening(env, f);
    assert EqOnly(f);
  }

  // ---- what the cursors cover

  /** The cursors that merges left out of the lists that ended up in the plan. */
  function DroppedOf(env: Env, f: Filter): seq<Cursor>
    requires PlanOf(env, f).Planned?
  {
    if !f.Node? || (f.onTrue.Accept? && f.onFalse.Reject?) then []
    else
      var own := Own(env, f.entry);
      if f.onTrue.Node? then
        var t := PlanOf(env, f.onTrue).cursors;
        var below := if JoinTakesFirst(own, t) then [] else DroppedOf(env, f.onTrue);
        if f.onFalse.Node? then
          below + DroppedOf(env, f.onFalse) + LostOf(JoinOf(own, t), PlanOf(env, f.onFalse).cursors)
        else below
      else
        DroppedOf(env, f.onFalse) + LostOf(own, PlanOf(env, f.onFalse).cursors)
  }

  ghost predicate FromEnv(env: Env, f: Filter, c: Cursor) {
    && c.entry in Entries(f) && c.entry.property in env.indexed
    && c.contents == env.contents(c.entry) && c.count == env.count(c.entry)
  }

  lemma MergedMembers(a: seq<Cursor>, b: seq<Cursor>)
    ensures forall c :: c in MergeFold(a, b) <==> c in b || (c in a && Larger(c, b))
    ensures forall c :: c in LostOf(a, b) <==> c in a && !Larger(c, b)
  {
    MergeExact(a, b);
    LostMembers(a, b);
    KeptMembers(a, b);
    assert forall c :: c in MergeFold(a, b) <==> c in multiset(MergeFold(a, b));
    assert forall c :: c in b <==> c in multiset(b);
    assert forall c :: c in KeptOf(a, b) <==> c in multiset(KeptOf(a, b));
  }

  lemma {:induction false} KeptMembers(a: seq<Cursor>, b: seq<Cursor>)
    ensures forall c :: c in KeptOf(a, b) <==> c in a && Larger(c, b)
  {
    if a != [] {
      KeptMembers(a[1..], b);
    }
  }

  lemma {:induction false} CursorsFromEnv(env: Env, f: Filter)
    requires PlanOf(env, f).Planned?
    ensures forall c | c in PlanOf(env, f).cursors :: FromEnv(env, f, c)
    ensures forall c | c in DroppedOf(env, f) :: FromEnv(env, f, c)
  {
    hide TotalCount, MergeFold, LostOf, Outer, Known;
    if f.Node? {
      var own := Own(env, f.entry);
      OuterMembers(own);
      if f.onTrue.Node? {
        CursorsFromEnv(env, f.onTrue);
        OuterMembers(PlanOf(env, f.onTrue).cursors);
      }
      if f.onFalse.Node? {
        CursorsFromEnv(env, f.onFalse);
        if f.onTrue.Node? {
          MergedMembers(JoinOf(own, PlanOf(env, f.onTrue).cursors), PlanOf(env, f.onFalse).cursors);
        } else {
          MergedMembers(own, PlanOf(env, f.onFalse).cursors);
        }
      }
    }
  }

  /** A cursor that still counts as an inner join can only hold matches. */
  lemma {:induction false} InnerJoinIsSound(env: Env, f: Filter, c: Cursor, v: iset<Entry>)
    requires Monotone(f) && PlanOf(env, f).Planned?
    requires c in PlanOf(env, f).cursors && c.innerJoin && c.entry in v
    ensures Eval(f, v)
  {
    var own := Own(env, f.entry);
    if f.onTrue.Node? {
      OuterMembers(own);
      OuterMembers(PlanOf(env, f.onTrue).cursors);
    }
    if f.onFalse.Node? {
      var n := PlanOf(env, f.onFalse).cursors;
      if f.onTrue.Node? {
        MergedMembers(JoinOf(own, PlanOf(env, f.onTrue).cursors), n);
      } else {
        MergedMembers(own, n);
      }
      if c in n {
        InnerJoinIsSound(env, f.onFalse, c, v);
        MonotoneNode(f, v);
      }
    }
  }

  /** Some cursor of the list answers an entry that holds. */
  ghost predicate Covers(list: seq<Cursor>, v: iset<Entry>) {
    exists c | c in list :: c.entry in v
  }

  lemma OuterCovers(list: seq<Cursor>, v: iset<Entry>)
    ensures Covers(Outer(list), v) <==> Covers(list, v)
  {
    OuterMembers(list);
    if Covers(list, v) {
      var c :| c in list && c.entry in v;
      assert c.(innerJoin := false) in Outer(list);
    }
  }

  lemma MergeCovers(a: seq<Cursor>, b: seq<Cursor>, v: iset<Entry>)
    ensures Covers(a, v) || Covers(b, v) <==> Covers(MergeFold(a, b), v) || Covers(LostOf(a, b), v)
  {
    MergedMembers(a, b);
  }

  lemma CoversConcat(a: seq<Cursor>, b: seq<Cursor>, v: iset<Entry>)
    ensures Covers(a + b, v) <==> Covers(a, v) || Covers(b, v)
  {
  }

  /** Every match is answered by a planned cursor or by one a merge left out. */
  lemma {:induction false} PlanCovers(env: Env, f: Filter, v: iset<Entry>)
    requires f.Node? && Monotone(f) && Eval(f, v)
    requires PlanOf(env, f).Planned? && PlanOf(env, f).cursors != []
    ensures Covers(PlanOf(env, f).cursors, v) || Covers(DroppedOf(env, f), v)
  {
    MonotoneNode(f, v);
    var own := Own(env, f.entry);
    assert own != [] ==> own[0] in own;
    if f.onTrue.Node? {
      var t := PlanOf(env, f.onTrue).cursors;
      var below := if JoinTakesFirst(own, t) then [] else DroppedOf(env, f.onTrue);
      var joined := JoinOf(own, t);
      OuterCovers(own, v);
      OuterCovers(t, v);
      if f.entry in v && Eval(f.onTrue, v) && joined != [] && !JoinTakesFirst(own, t) {
        PlanCovers(env, f.onTrue, v);
      }
      if f.onFalse.Node? {
        var n := PlanOf(env, f.onFalse).cursors;
        FoldNonEmpty(joined, n);
        MergeCovers(joined, n, v);
        if Eval(f.onFalse, v) {
          PlanCovers(env, f.onFalse, v);
        }
        CoversConcat(below + DroppedOf(env, f.onFalse), LostOf(joined, n), v);
        CoversConcat(below, DroppedOf(env, f.onFalse), v);
      }
    } else if f.onFalse.Node? {
      var n := PlanOf(env, f.onFalse).cursors;
      FoldNonEmpty(own, n);
      MergeCovers(own, n, v);
      if Eval(f.onFalse, v) {
        PlanCovers(env, f.onFalse, v);
      }
      CoversConcat(DroppedOf(env, f.onFalse), LostOf(own, n), v);
    }
  }
}
