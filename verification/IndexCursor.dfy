/** Cursors over one index database: pairs of value and key in the database's order,
    duplicates of a value side by side. */
module IndexCursor {
  import opened Basics
  import opened Criteria
  import opened LmdbKeys
  import opened IndexStore
  import opened Planner
  import opened PlanMeaning
  import opened IndexQuery
  import opened Retrieve

  /** Order of a database with sorted duplicates. */
  predicate PairLess(a: Pair, b: Pair) {
    Less(a.0, b.0) || (a.0 == b.0 && Less(a.1, b.1))
  }

  predicate Sorted(pairs: seq<Pair>) {
    forall i, j | 0 <= i < j < |pairs| :: PairLess(pairs[i], pairs[j])
  }

  /** The operators whose cursors are modelled. */
  predicate Supported(op: Op) {
    op == Eq || op == Ge
  }

  /** The pair is one that a cursor for the operator stands for. */
  predicate Selected(op: Op, wanted: string, p: Pair) {
    if op == Eq then p.0 == wanted else p.0 == wanted || Less(wanted, p.0)
  }

  /** The first selected pair: MDB_SET for eq, MDB_SET_RANGE for ge. */
  function First(op: Op, wanted: string, pairs: seq<Pair>): (i: nat)
    requires Supported(op)
    ensures i <= |pairs| && (i < |pairs| ==> Selected(op, wanted, pairs[i]))
    ensures forall j | 0 <= j < i :: !Selected(op, wanted, pairs[j])
  {
    if pairs == [] || Selected(op, wanted, pairs[0]) then 0 else 1 + First(op, wanted, pairs[1..])
  }

  /** From one pair to the next: MDB_NEXT_DUP for eq, never on a unique index, and
      MDB_NEXT for ge. */
  function Following(op: Op, unique: bool, pairs: seq<Pair>, at: nat): nat
    requires at < |pairs|
  {
    if op == Eq && (unique || at + 1 == |pairs| || pairs[at + 1].0 != pairs[at].0) then |pairs| else at + 1
  }

  /** The keys of the objects that successive calls return from a position on.  A
      pair without an object ends the sequence. */
  function Drained(op: Op, unique: bool, pairs: seq<Pair>, at: nat, primary: Primary): seq<string>
    requires at <= |pairs|
    decreases |pairs| - at
  {
    if at == |pairs| || pairs[at].1 !in primary then []
    else [pairs[at].1] + Drained(op, unique, pairs, Following(op, unique, pairs, at), primary)
  }

  lemma DrainStep(op: Op, unique: bool, pairs: seq<Pair>, at: nat, primary: Primary)
    requires at <= |pairs|
    ensures Drained(op, unique, pairs, at, primary)
      == if at == |pairs| || pairs[at].1 !in primary then []
         else [pairs[at].1] + Drained(op, unique, pairs, Following(op, unique, pairs, at), primary)
    ensures at < |pairs| ==> at < Following(op, unique, pairs, at) <= |pairs|
  {
  }

  class Cursor {
    const pairs: seq<Pair>
    const op: Op
    const wanted: string
    const unique: bool
    var at: nat  // |pairs| when there is no data

    ghost predicate Valid()
      reads this
    {
      Supported(op) && wanted != "" && at <= |pairs|
    }

    constructor (pairs: seq<Pair>, op: Op, wanted: string, unique: bool)
      requires Supported(op) && wanted != ""
      ensures Valid() && this.pairs == pairs && this.op == op && this.wanted == wanted && this.unique == unique
      ensures at == First(op, wanted, pairs)
    {
      this.pairs, this.op, this.wanted, this.unique := pairs, op, wanted, unique;
      at := 0;
      new;
      Reset();
    }

    method Reset()
      requires Valid()
      modifies this
      ensures Valid() && at == First(op, wanted, pairs)
    {
      at := 0;
      while at < |pairs| && !Selected(op, wanted, pairs[at])
        invariant 0 <= at <= |pairs|
        invariant forall j | 0 <= j < at :: !Selected(op, wanted, pairs[j])
      {
        at := at + 1;
      }
    }

    /** The object behind the current pair, and on to the next pair.  With a pair that
        has no object the call moves on and returns nothing. */
    method NextObject(primary: Primary) returns (r: Option<string>)
      requires Valid()
      modifies this
      ensures Valid() && (old(at) < |pairs| ==> at == Following(op, unique, pairs, old(at)))
      ensures old(at) == |pairs| ==> at == |pairs|
      ensures r == if old(at) < |pairs| && pairs[old(at)].1 in primary then Some(pairs[old(at)].1) else None
    {
      if at == |pairs| {
        return None;
      }
      var key := pairs[at].1;
      at := Following(op, unique, pairs, at);
      r := if key in primary then Some(key) else None;
    }

    /** What the query loop gets from the cursor until nothing is returned. */
    method Drain(primary: Primary) returns (keys: seq<string>)
      requires Valid()
      modifies this
      ensures Valid() && keys == Drained(op, unique, pairs, old(at), primary)
    {
      hide Drained, Following, Supported, First;
      keys := [];
      ghost var all := Drained(op, unique, pairs, at, primary);
      ghost var rest := all;
      DrainStep(op, unique, pairs, at, primary);
      Onwards([], [], all);
      var r := NextObject(primary);
      while r.Some?
        invariant Valid() && all == keys + rest
        invariant rest == if r.Some? then [r.value] + Drained(op, unique, pairs, at, primary) else []
        decreases r.Some?, |pairs| - at
      {
        rest := Drained(op, unique, pairs, at, primary);
        Onwards(keys, [r.value], rest);
        Onwards([], [], rest);
        keys := keys + [r.value];
        DrainStep(op, unique, pairs, at, primary);
        r := NextObject(primary);
      }
      Onwards(keys, [], []);
    }

    /** Whether the cursor's value is stored for the key.  Afterwards the cursor is
        back at its first pair, wherever it was. */
    method Contains(key: string) returns (r: bool)
      requires Valid() && op == Eq
      modifies this
      ensures Valid() && r == ((wanted, key) in pairs) && at == First(op, wanted, pairs)
    {
      r := (wanted, key) in pairs;
      Reset();
    }
  }

  /** Opening a cursor positions it, which throws for an empty value: the store takes
      no key without octets. */
  method OpenCursor(pairs: seq<Pair>, op: Op, wanted: string, unique: bool) returns (c: Cursor?)
    requires Supported(op)
    ensures c == null <==> wanted == ""
    ensures c != null ==> fresh(c) && c.Valid() && c.pairs == pairs && c.op == op && c.wanted == wanted && c.unique == unique
    ensures c != null ==> c.at == First(op, wanted, pairs)
  {
    if wanted == "" {
      return null;
    }
    c := new Cursor(pairs, op, wanted, unique);
  }

  // ---- what a drained cursor has delivered

  /** The keys of the selected pairs from a position on, in order. */
  function SelectedKeys(op: Op, wanted: string, pairs: seq<Pair>, at: nat): seq<string>
    requires at <= |pairs|
    decreases |pairs| - at
  {
    if at == |pairs| then []
    else (if Selected(op, wanted, pairs[at]) then [pairs[at].1] else []) + SelectedKeys(op, wanted, pairs, at + 1)
  }

  lemma {:induction false} SelectedKeysMembers(op: Op, wanted: string, pairs: seq<Pair>, at: nat)
    requires at <= |pairs|
    ensures forall k :: (k in SelectedKeys(op, wanted, pairs, at)
                         <==> exists i | at <= i < |pairs| :: Selected(op, wanted, pairs[i]) && pairs[i].1 == k)
    decreases |pairs| - at
  {
    if at < |pairs| {
      SelectedKeysMembers(op, wanted, pairs, at + 1);
    }
  }

  lemma {:induction false} NoneBeforeFirst(op: Op, wanted: string, pairs: seq<Pair>, at: nat, first: nat)
    requires at <= first <= |pairs| && forall j | at <= j < first :: !Selected(op, wanted, pairs[j])
    ensures SelectedKeys(op, wanted, pairs, at) == SelectedKeys(op, wanted, pairs, first)
    decreases first - at
  {
    if at < first {
      NoneBeforeFirst(op, wanted, pairs, at + 1, first);
    }
  }

  /** The selected pairs stand together: where the cursor moves on it misses none. */
  lemma FollowingMissesNone(op: Op, wanted: string, pairs: seq<Pair>, at: nat)
    requires Supported(op) && Sorted(pairs) && at < |pairs| && Selected(op, wanted, pairs[at])
    ensures var next := Following(op, false, pairs, at);
      && (next < |pairs| ==> Selected(op, wanted, pairs[next]))
      && forall j | at < j < next :: !Selected(op, wanted, pairs[j])
  {
    var next := Following(op, false, pairs, at);
    if op == Eq {
      forall j | at < j < next
        ensures !Selected(op, wanted, pairs[j])
      {
        assert PairLess(pairs[at], pairs[at + 1]) && (at + 1 < j ==> PairLess(pairs[at + 1], pairs[j]));
        if at + 1 < j && pairs[j].0 == wanted {
          LessAsymmetricIf(wanted, pairs[at + 1].0);
        }
      }
    } else if next < |pairs| {
      assert PairLess(pairs[at], pairs[next]);
      if Less(wanted, pairs[at].0) && Less(pairs[at].0, pairs[next].0) {
        LessTransitive(wanted, pairs[at].0, pairs[next].0);
      }
    }
  }

  lemma LessAsymmetricIf(a: string, b: string)
    ensures Less(a, b) ==> !Less(b, a)
  {
    if Less(a, b) {
      LessAsymmetric(a, b);
    }
  }

  lemma SameTails(k: string, a: seq<string>, b: seq<string>)
    ensures [k] + a == [k] + b <==> a == b
  {
    assert ([k] + a)[1..] == a && ([k] + b)[1..] == b;
  }

  lemma {:induction false} DrainedFromSelected(op: Op, wanted: string, pairs: seq<Pair>, at: nat, primary: Primary)
    requires Supported(op) && Sorted(pairs) && at <= |pairs| && (at < |pairs| ==> Selected(op, wanted, pairs[at]))
    ensures Drained(op, false, pairs, at, primary) == SelectedKeys(op, wanted, pairs, at)
      <==> forall k | k in SelectedKeys(op, wanted, pairs, at) :: k in primary
    decreases |pairs| - at
  {
    if at < |pairs| {
      var next := Following(op, false, pairs, at);
      FollowingMissesNone(op, wanted, pairs, at);
      NoneBeforeFirst(op, wanted, pairs, at + 1, next);
      DrainedFromSelected(op, wanted, pairs, next, primary);
      var key, rest := pairs[at].1, SelectedKeys(op, wanted, pairs, next);
      assert SelectedKeys(op, wanted, pairs, at) == [key] + rest;
      if key in primary {
        SameTails(key, Drained(op, false, pairs, next, primary), rest);
      }
    }
  }

  /** A cursor on an index that is not unique delivers exactly the keys of the pairs
      its operator selects, in database order, if and only if none of them is stale. */
  lemma DrainsExactlyWhen(op: Op, wanted: string, pairs: seq<Pair>, primary: Primary)
    requires Supported(op) && Sorted(pairs)
    ensures Drained(op, false, pairs, First(op, wanted, pairs), primary) == SelectedKeys(op, wanted, pairs, 0)
      <==> forall p | p in pairs && Selected(op, wanted, p) :: p.1 in primary
  {
    var first := First(op, wanted, pairs);
    DrainedFromSelected(op, wanted, pairs, first, primary);
    NoneBeforeFirst(op, wanted, pairs, 0, first);
    SelectedKeysMembers(op, wanted, pairs, 0);
    if forall p | p in pairs && Selected(op, wanted, p) :: p.1 in primary {
      assert forall k | k in SelectedKeys(op, wanted, pairs, 0) :: k in primary;
    } else {
      var p :| p in pairs && Selected(op, wanted, p) && p.1 !in primary;
      var i :| 0 <= i < |pairs| && pairs[i] == p;
      assert p.1 in SelectedKeys(op, wanted, pairs, 0);
    }
  }

  /** The first pair at or behind a position whose object is gone, or the end. */
  function Stale(pairs: seq<Pair>, at: nat, primary: Primary): (m: nat)
    requires at <= |pairs|
    ensures at <= m <= |pairs| && (m < |pairs| ==> pairs[m].1 !in primary)
    ensures forall i | at <= i < m :: pairs[i].1 in primary
    decreases |pairs| - at
  {
    if at == |pairs| || pairs[at].1 !in primary then at else Stale(pairs, at + 1, primary)
  }

  /** A ge cursor hands out, pair by pair and in order, the keys from its position on
      up to the first pair whose object is gone. */
  lemma {:induction false} GeDrains(unique: bool, pairs: seq<Pair>, at: nat, primary: Primary)
    requires at <= |pairs|
    ensures var keys := Drained(Ge, unique, pairs, at, primary);
      |keys| == Stale(pairs, at, primary) - at && forall i | 0 <= i < |keys| :: keys[i] == pairs[at + i].1
    decreases |pairs| - at
  {
    if at < |pairs| && pairs[at].1 in primary {
      GeDrains(unique, pairs, at + 1, primary);
      var rest := Drained(Ge, unique, pairs, at + 1, primary);
      assert forall i | 0 < i <= |rest| :: ([pairs[at].1] + rest)[i] == rest[i - 1];
    }
  }

  /** Opened or reset, a ge cursor stands at the first pair whose value is not below the
      wanted one, and an eq cursor at the first that has it. */
  lemma PositionExactly(op: Op, wanted: string, pairs: seq<Pair>, at: nat)
    requires Supported(op) && Sorted(pairs) && at <= |pairs|
    ensures op == Ge ==>
      (at == First(op, wanted, pairs)
       <==> (forall i | 0 <= i < at :: Less(pairs[i].0, wanted)) && (at < |pairs| ==> !Less(pairs[at].0, wanted)))
    ensures op == Eq ==>
      (at == First(op, wanted, pairs)
       <==> (forall i | 0 <= i < at :: pairs[i].0 != wanted) && (at < |pairs| ==> pairs[at].0 == wanted))
  {
    forall i | 0 <= i < |pairs|
      ensures Selected(Ge, wanted, pairs[i]) <==> !Less(pairs[i].0, wanted)
    {
      LessTotal(wanted, pairs[i].0);
      LessAsymmetricIf(wanted, pairs[i].0);
      LessAsymmetricIf(wanted, wanted);
    }
  }

  /** Over sorted pairs whose objects are all there a ge cursor hands out exactly the
      keys stored under the wanted value or a higher one. */
  lemma GeDelivers(unique: bool, wanted: string, pairs: seq<Pair>, at: nat, primary: Primary)
    requires Sorted(pairs) && at <= |pairs| && forall p | p in pairs :: p.1 in primary
    requires (forall i | 0 <= i < at :: Less(pairs[i].0, wanted)) && (at < |pairs| ==> !Less(pairs[at].0, wanted))
    ensures at == First(Ge, wanted, pairs)
    ensures forall k :: k in Drained(Ge, unique, pairs, at, primary) <==> exists p | p in pairs && p.1 == k :: !Less(p.0, wanted)
  {
    hide Drained, First;
    PositionExactly(Ge, wanted, pairs, at);
    GeDrains(unique, pairs, at, primary);
    var keys := Drained(Ge, unique, pairs, at, primary);
    assert Stale(pairs, at, primary) == |pairs|;
    forall k
      ensures k in keys <==> exists p | p in pairs && p.1 == k :: !Less(p.0, wanted)
    {
      if k in keys {
        var i :| 0 <= i < |keys| && keys[i] == k;
        NotBelow(wanted, pairs, at, at + i);
        assert pairs[at + i] in pairs;
      }
      if p :| p in pairs && p.1 == k && !Less(p.0, wanted) {
        var j :| 0 <= j < |pairs| && pairs[j] == p;
        assert keys[j - at] == k;
      }
    }
  }

  lemma NotBelow(wanted: string, pairs: seq<Pair>, at: nat, i: nat)
    requires Sorted(pairs) && at <= i < |pairs| && !Less(pairs[at].0, wanted)
    ensures !Less(pairs[i].0, wanted)
  {
    if at < i && Less(pairs[i].0, wanted) {
      assert PairLess(pairs[at], pairs[i]);
      LessTransitiveIf(pairs[at].0, pairs[i].0, wanted);
    }
  }

  lemma LessTransitiveIf(a: string, b: string, c: string)
    ensures Less(a, b) && Less(b, c) ==> Less(a, c)
  {
    if Less(a, b) && Less(b, c) {
      LessTransitive(a, b, c);
    }
  }

  /** A cursor on a unique index never moves on, so its eq cursor delivers what is
      stored exactly when the value is stored at most once. */
  lemma UniqueDrainsExactlyWhen(wanted: string, pairs: seq<Pair>, primary: Primary)
    requires Sorted(pairs) && forall p | p in pairs && p.0 == wanted :: p.1 in primary
    ensures Drained(Eq, true, pairs, First(Eq, wanted, pairs), primary) == SelectedKeys(Eq, wanted, pairs, 0)
      <==> forall i, j | 0 <= i < j < |pairs| :: !(pairs[i].0 == wanted == pairs[j].0)
  {
    var first := First(Eq, wanted, pairs);
    NoneBeforeFirst(Eq, wanted, pairs, 0, first);
    if first < |pairs| {
      FollowingMissesNone(Eq, wanted, pairs, first);
      var next := Following(Eq, false, pairs, first);
      NoneBeforeFirst(Eq, wanted, pairs, first + 1, next);
      assert pairs[first] in pairs;
      assert Drained(Eq, true, pairs, first, primary) == [pairs[first].1];
      if next < |pairs| {
        assert |SelectedKeys(Eq, wanted, pairs, first)| > 1;
      } else {
        assert SelectedKeys(Eq, wanted, pairs, first) == [pairs[first].1];
      }
    }
  }

  /** The pairs selected from a position on have different keys. */
  predicate OncePerKey(op: Op, wanted: string, pairs: seq<Pair>, at: nat) {
    forall i, j | at <= i < j < |pairs| && Selected(op, wanted, pairs[i]) && Selected(op, wanted, pairs[j]) ::
      pairs[i].1 != pairs[j].1
  }

  /** The selected keys come once each exactly when no key is stored under two of the
      selected values. */
  lemma {:induction false} DistinctExactlyWhen(op: Op, wanted: string, pairs: seq<Pair>, at: nat)
    requires at <= |pairs|
    ensures Distinct(SelectedKeys(op, wanted, pairs, at)) <==> OncePerKey(op, wanted, pairs, at)
    decreases |pairs| - at
  {
    hide Selected;
    if at < |pairs| {
      DistinctExactlyWhen(op, wanted, pairs, at + 1);
      var rest := SelectedKeys(op, wanted, pairs, at + 1);
      SelectedKeysMembers(op, wanted, pairs, at + 1);
      OncePerKeyStep(op, wanted, pairs, at);
      if Selected(op, wanted, pairs[at]) {
        DistinctBehind(pairs[at].1, rest);
      } else {
        assert [] + rest == rest;
      }
    }
  }

  lemma OncePerKeyStep(op: Op, wanted: string, pairs: seq<Pair>, at: nat)
    requires at < |pairs|
    ensures OncePerKey(op, wanted, pairs, at) <==>
      && OncePerKey(op, wanted, pairs, at + 1)
      && (Selected(op, wanted, pairs[at]) ==>
            !exists i | at + 1 <= i < |pairs| :: Selected(op, wanted, pairs[i]) && pairs[i].1 == pairs[at].1)
  {
    hide Selected;
  }

  lemma DistinctBehind(k: string, rest: seq<string>)
    ensures Distinct([k] + rest) <==> Distinct(rest) && k !in rest
  {
    var all := [k] + rest;
    assert forall i | 0 <= i < |rest| :: all[i + 1] == rest[i];
    if k in rest {
      var i :| 0 <= i < |rest| && rest[i] == k;
      assert all[i + 1] == all[0];
    }
  }

  /** For eq that is always so. */
  lemma EqOncePerKey(wanted: string, pairs: seq<Pair>)
    requires Sorted(pairs)
    ensures OncePerKey(Eq, wanted, pairs, 0)
  {
    forall i, j | 0 <= i < j < |pairs| && Selected(Eq, wanted, pairs[i]) && Selected(Eq, wanted, pairs[j])
      ensures pairs[i].1 != pairs[j].1
    {
      assert PairLess(pairs[i], pairs[j]);
      LessAsymmetricIf(pairs[i].1, pairs[j].1);
      LessAsymmetricIf(wanted, wanted);
    }
  }

  /** Over consistent databases, what an eq cursor of a plain index delivers is what
      the planner's theorems take it to hold: the keys stored under the value, each
      once.  No pair is stale there. */
  lemma EqCursorReads(primary: Primary, dbs: Databases, defs: Definitions, objectType: string, index: string,
                      wanted: string, pairs: seq<Pair>)
    requires Consistent(primary, dbs, defs) && index in defs && Sorted(pairs)
    requires forall p :: p in pairs <==> p in Pairs(dbs, DatabaseName(objectType, index))
    ensures var keys := Drained(Eq, false, pairs, First(Eq, wanted, pairs), primary);
      && Distinct(keys)
      && forall k :: k in keys <==> (wanted, k) in Pairs(dbs, DatabaseName(objectType, index))
  {
    forall p | p in pairs
      ensures p.1 in primary
    {
      assert IsOwed(primary, defs[index], index, objectType, p);
    }
    DrainsExactlyWhen(Eq, wanted, pairs, primary);
    EqOncePerKey(wanted, pairs);
    DistinctExactlyWhen(Eq, wanted, pairs, 0);
    SelectedKeysMembers(Eq, wanted, pairs, 0);
    var keys := SelectedKeys(Eq, wanted, pairs, 0);
    forall k
      ensures k in keys <==> (wanted, k) in pairs
    {
      if (wanted, k) in pairs {
        var i :| 0 <= i < |pairs| && pairs[i] == (wanted, k);
      }
    }
  }

  /** The same of a unique index, whose cursor never moves on. */
  lemma UniqueEqCursorReads(primary: Primary, dbs: Databases, defs: Definitions, objectType: string, index: string,
                            wanted: string, pairs: seq<Pair>)
    requires Consistent(primary, dbs, defs) && index in defs && Sorted(pairs)
    requires UniqueHolds(dbs, defs) && defs[index].unique
    requires forall p :: p in pairs <==> p in Pairs(dbs, DatabaseName(objectType, index))
    ensures Drained(Eq, true, pairs, First(Eq, wanted, pairs), primary)
      == Drained(Eq, false, pairs, First(Eq, wanted, pairs), primary)
  {
    forall p | p in pairs
      ensures p.1 in primary
    {
      assert IsOwed(primary, defs[index], index, objectType, p);
    }
    assert OneEach(Pairs(dbs, DatabaseName(objectType, index)));
    forall i, j | 0 <= i < j < |pairs|
      ensures pairs[i].0 != pairs[j].0
    {
      assert PairLess(pairs[i], pairs[j]) && pairs[i] in pairs && pairs[j] in pairs;
      LessAsymmetricIf(pairs[i].0, pairs[j].0);
      LessAsymmetricIf(pairs[i].1, pairs[j].1);
    }
    DrainsExactlyWhen(Eq, wanted, pairs, primary);
    UniqueDrainsExactlyWhen(wanted, pairs, primary);
  }

  /** Over consistent databases a cursor hands out every object at most once exactly
      when no object is stored under two of the values its operator selects. */
  lemma CursorOnceExactlyWhen(primary: Primary, dbs: Databases, defs: Definitions, objectType: string, index: string,
                              op: Op, wanted: string, pairs: seq<Pair>)
    requires Consistent(primary, dbs, defs) && index in defs && Sorted(pairs) && Supported(op)
    requires forall p :: p in pairs <==> p in Pairs(dbs, DatabaseName(objectType, index))
    ensures Distinct(Drained(op, false, pairs, First(op, wanted, pairs), primary))
      <==> forall s, t, k | (s, k) in pairs && (t, k) in pairs && Selected(op, wanted, (s, k)) && Selected(op, wanted, (t, k)) ::
             s == t
  {
    forall p | p in pairs
      ensures p.1 in primary
    {
      assert IsOwed(primary, defs[index], index, objectType, p);
    }
    DrainsExactlyWhen(op, wanted, pairs, primary);
    DistinctExactlyWhen(op, wanted, pairs, 0);
    OncePerKeyMeans(op, wanted, pairs);
  }

  lemma OncePerKeyMeans(op: Op, wanted: string, pairs: seq<Pair>)
    requires Sorted(pairs)
    ensures OncePerKey(op, wanted, pairs, 0)
      <==> forall s, t, k | (s, k) in pairs && (t, k) in pairs && Selected(op, wanted, (s, k)) && Selected(op, wanted, (t, k)) ::
             s == t
  {
    if OncePerKey(op, wanted, pairs, 0) {
      forall s, t, k | (s, k) in pairs && (t, k) in pairs && Selected(op, wanted, (s, k)) && Selected(op, wanted, (t, k))
        ensures s == t
      {
        var i :| 0 <= i < |pairs| && pairs[i] == (s, k);
        var j :| 0 <= j < |pairs| && pairs[j] == (t, k);
      }
    } else {
      var i, j :| 0 <= i < j < |pairs| && Selected(op, wanted, pairs[i]) && Selected(op, wanted, pairs[j])
        && pairs[i].1 == pairs[j].1;
      var k := pairs[i].1;
      assert PairLess(pairs[i], pairs[j]);
      LessAsymmetricIf(k, k);
      assert pairs[i] == (pairs[i].0, k) && pairs[j] == (pairs[j].0, k) && pairs[i] in pairs && pairs[j] in pairs;
      LessAsymmetricIf(pairs[i].0, pairs[j].0);
    }
  }

  /** A ge cursor delivers an object once for every value it has in the range, and
      nothing after it removes the repetition. */
  lemma GeRepeatsObject(key: string, primary: Primary)
    requires key in primary
    ensures Sorted([("5", key), ("7", key)])
    ensures Drained(Ge, false, [("5", key), ("7", key)], First(Ge, "4", [("5", key), ("7", key)]), primary) == [key, key]
  {
    var pairs := [("5", key), ("7", key)];
    assert Less("5", "7") && Less("4", "5");
    assert First(Ge, "4", pairs) == 0;
    assert Drained(Ge, false, pairs, 2, primary) == [];
    assert Drained(Ge, false, pairs, 1, primary) == [key];
  }

  // ---- the query over drained cursors

  /** The pairs of an index database in the order in which the store keeps them. */
  ghost predicate Keeps(order: string -> seq<Pair>, dbs: Databases, defs: Definitions, objectType: string) {
    forall i | i in defs :: Sorted(order(i)) && forall p :: p in order(i) <==> p in Pairs(dbs, DatabaseName(objectType, i))
  }

  function KeysOf(primary: Primary, unique: bool, pairs: seq<Pair>, e: Entry): seq<string> {
    if Supported(e.op) then Drained(e.op, unique, pairs, First(e.op, e.value, pairs), primary) else []
  }

  /** What the planner sees: the indexes that apply to the type, and for an entry what
      its cursor delivers until nothing more is returned. */
  function EnvOf(primary: Primary, defs: Definitions, objectType: string, order: string -> seq<Pair>,
                 count: Entry -> Option<nat>): Env {
    Env((set i | i in defs && TypeApplies(defs[i], objectType)),
        (e: Entry) => e.value != "",
        (e: Entry) => if e.property in defs then KeysOf(primary, defs[e.property].unique, order(e.property), e) else [],
        count)
  }

  /** Over consistent databases drained cursors are what the planner's theorems ask for. */
  lemma DrainedReads(primary: Primary, dbs: Databases, defs: Definitions, objectType: string,
                     order: string -> seq<Pair>, count: Entry -> Option<nat>, f: Filter)
    requires Consistent(primary, dbs, defs) && UniqueHolds(dbs, defs) && EqOnly(f) && Keeps(order, dbs, defs, objectType)
    ensures Reads(EnvOf(primary, defs, objectType, order, count), dbs, defs, objectType, f)
  {
    hide Consistent, UniqueHolds, Drained, First, Sorted, Pairs, DatabaseName, Distinct;
    var env := EnvOf(primary, defs, objectType, order, count);
    forall e | e in Entries(f) && e.property in env.indexed
      ensures Distinct(env.contents(e))
      ensures forall k :: k in env.contents(e) <==> (e.value, k) in Pairs(dbs, DatabaseName(objectType, e.property))
    {
      var i := e.property;
      EqCursorReads(primary, dbs, defs, objectType, i, e.value, order(i));
      if defs[i].unique {
        UniqueEqCursorReads(primary, dbs, defs, objectType, i, e.value, order(i));
      }
    }
  }

  /** The whole way: cursors over the stored pairs, the plan, the query loop and the
      scan.  What the indexes answer, and when they do, is as IndexedRetrieve says. */
  lemma RetrieveThroughCursors(primary: Primary, dbs: Databases, defs: Definitions, objectType: string, f: Filter,
                               order: string -> seq<Pair>, count: Entry -> Option<nat>, keys: seq<string>)
    requires Served(primary, dbs, defs, objectType, f) && UniqueHolds(dbs, defs) && Keeps(order, dbs, defs, objectType)
    requires Ordered(keys) && (forall k :: k in keys <==> k in primary)
    requires objectType != "" && Contiguous(keys, objectType)
    ensures var env, store := EnvOf(primary, defs, objectType, order, count), StoreOf(primary, objectType);
      && (Answer(env, f, store).Some? <==> Plannable(env, f))
      && (Plannable(env, f) ==>
            && Distinct(Answer(env, f, store).value)
            && PlanOf(env, f).Planned?
            && ((forall k :: k in Answer(env, f, store).value
                   <==> k in Scan(keys, Some(objectType), f, primary))
                <==> DropsAreCovered(env, f, store)))
  {
    hide Consistent, UniqueHolds, Keeps, Reads, Answer, Plannable, PlanOf, DropsAreCovered, Distinct, StoreOf, Ordered,
      Contiguous, Scan, EnvOf, Monotone;
    DrainedReads(primary, dbs, defs, objectType, order, count, f);
    IndexedRetrieve(primary, dbs, defs, objectType, f, EnvOf(primary, defs, objectType, order, count), keys);
  }
}
