/** The index planner: which index cursors answer a filter.

    A cursor's count is what the store reports, which may be unavailable and is
    not assumed to be the number of objects it holds. */
module Planner {
  import opened Basics
  import opened Criteria

  datatype Cursor = Cursor(entry: Entry, contents: seq<string>, count: Option<nat>, innerJoin: bool)

  /** What the index databases offer for one object type.  Opening a cursor throws for
      an entry that `opens` refuses. */
  datatype Env =
    Env(indexed: set<string>, opens: Entry -> bool, contents: Entry -> seq<string>, count: Entry -> Option<nat>)

  /** `Failed` covers a thrown error and the NULL list, which no caller survives. */
  datatype Plan = Planned(cursors: seq<Cursor>) | Failed {
    predicate IsFailure() { Failed? }
    function PropagateFailure(): Plan requires Failed? { Failed }
    function Extract(): seq<Cursor> requires Planned? { cursors }
  }

  function Open(env: Env, e: Entry): Cursor {
    Cursor(e, env.contents(e), env.count(e), true)
  }

  // ---- sargability

  /** Whether indexes can help; None when the tree has a shape the source rejects. */
  function Sargable(env: Env, f: Filter): Option<bool> {
    if !f.Node? then None
    else if f.entry.op == Ne then Some(false)
    else
      var own := f.entry.property in env.indexed;
      if f.onTrue.Accept? && f.onFalse.Reject? then Some(own)
      else if f.onTrue.Node? && f.onFalse.Node? then
        match (Sargable(env, f.onTrue), Sargable(env, f.onFalse))
        case (Some(t), Some(n)) => Some((own || t) && n)
        case (_, _) => None
      else if f.onTrue.Node? then
        match Sargable(env, f.onTrue)
        case Some(t) => Some(own || t)
        case None => None
      else if f.onFalse.Node? then
        match Sargable(env, f.onFalse)
        case Some(n) => Some(own && n)
        case None => None
      else None
  }

  // ---- cardinality and join

  function TotalCount(list: seq<Cursor>): Option<nat> {
    if list == [] then None
    else if list[0].count.None? then None
    else if |list| == 1 then list[0].count
    else match TotalCount(list[1..])
      case None => None
      case Some(n) => Some(list[0].count.value + n)
  }

  function SumFrom(list: seq<Cursor>): Option<nat> {
    if list == [] then Some(0) else TotalCount(list)
  }

  method Cardinality(list: seq<Cursor>) returns (r: Option<nat>)
    ensures r == TotalCount(list)
  {
    if |list| == 0 {
      return None;
    }
    var total: nat := 0;
    for i := 0 to |list|
      invariant TotalCount(list) ==
        (match SumFrom(list[i..]) case None => None case Some(n) => Some(total + n))
    {
      assert list[i..][1..] == list[i + 1..];
      if list[i].count.None? {
        return None;
      }
      total := total + list[i].count.value;
    }
    r := Some(total);
  }

  function Outer(list: seq<Cursor>): seq<Cursor> {
    seq(|list|, i requires 0 <= i < |list| => list[i].(innerJoin := false))
  }

  predicate JoinTakesFirst(a: seq<Cursor>, b: seq<Cursor>) {
    TotalCount(a).Some? &&
    (TotalCount(b).None? || TotalCount(a).value <= TotalCount(b).value)
  }

  function JoinOf(a: seq<Cursor>, b: seq<Cursor>): seq<Cursor> {
    Outer(if JoinTakesFirst(a, b) then a else b)
  }

  method Join(a: seq<Cursor>, b: seq<Cursor>) returns (r: seq<Cursor>)
    ensures r == JoinOf(a, b)
  {
    var thisCount := Cardinality(a);
    if thisCount.None? {
      return Outer(b);
    }
    var thatCount := Cardinality(b);
    if thatCount.None? {
      return Outer(a);
    }
    r := Outer(if thisCount.value <= thatCount.value then a else b);
  }

  /** The total of one cursor is its count, and totals add up. */
  lemma {:induction false} TotalAdds(a: seq<Cursor>, b: seq<Cursor>)
    requires a != [] && b != []
    ensures |a| == 1 ==> TotalCount(a) == a[0].count
    ensures TotalCount(a + b)
      == if TotalCount(a).Some? && TotalCount(b).Some? then Some(TotalCount(a).value + TotalCount(b).value) else None
  {
    if |a| == 1 {
      assert (a + b)[1..] == b;
    } else {
      TotalAdds(a[1..], b);
      assert (a + b)[1..] == a[1..] + b;
    }
  }

  lemma {:induction false} OuterTotal(list: seq<Cursor>)
    ensures TotalCount(Outer(list)) == TotalCount(list)
  {
    if list != [] {
      OuterTotal(list[1..]);
      assert Outer(list)[1..] == Outer(list[1..]);
    }
  }

  /** A join keeps one of its lists, the smaller one when both have a total, and the
      one that has a total when only one has. */
  lemma JoinKeepsSmaller(a: seq<Cursor>, b: seq<Cursor>)
    ensures JoinOf(a, b) == Outer(a) || JoinOf(a, b) == Outer(b)
    ensures TotalCount(a).Some? && TotalCount(b).Some? ==>
      && TotalCount(JoinOf(a, b)).Some?
      && TotalCount(JoinOf(a, b)).value <= TotalCount(a).value && TotalCount(JoinOf(a, b)).value <= TotalCount(b).value
    ensures TotalCount(a).Some? || TotalCount(b).Some? ==> TotalCount(JoinOf(a, b)).Some?
    ensures TotalCount(a).Some? && TotalCount(a) == TotalCount(b) ==> JoinOf(a, b) == Outer(a)
    ensures TotalCount(a).None? ==> JoinOf(a, b) == Outer(b)
  {
    OuterTotal(a);
    OuterTotal(b);
  }

  // ---- merge

  predicate Known(list: seq<Cursor>) {
    forall c | c in list :: c.count.Some?
  }

  function Size(c: Cursor): nat {
    if c.count.Some? then c.count.value else 0
  }

  /** Some cursor of the list is smaller than `c`. */
  predicate Larger(c: Cursor, list: seq<Cursor>) {
    exists d | d in list :: Size(c) > Size(d)
  }

  predicate Descending(list: seq<Cursor>) {
    forall i, j | 0 <= i < j < |list| :: Size(list[i]) >= Size(list[j])
  }

  /** Put `c` before the first smaller cursor, or nowhere. */
  function Insert(c: Cursor, list: seq<Cursor>): seq<Cursor> {
    if list == [] then []
    else if Size(c) > Size(list[0]) then [c] + list
    else [list[0]] + Insert(c, list[1..])
  }

  function MergeFold(a: seq<Cursor>, b: seq<Cursor>): seq<Cursor> {
    if a == [] then b else MergeFold(a[1..], Insert(a[0], b))
  }

  function MergeOf(a: seq<Cursor>, b: seq<Cursor>): Plan {
    if a != [] && Known(a) && Known(b) then Planned(MergeFold(a, b)) else Failed
  }

  lemma InsertStep(c: Cursor, list: seq<Cursor>, j: nat)
    requires j <= |list|
    ensures j == |list| ==> Insert(c, list[j..]) == [] && list[j..] == []
    ensures j < |list| ==>
      && list[j..] == [list[j]] + list[j + 1..]
      && Insert(c, list[j..])
         == if Size(c) > Size(list[j]) then [c] + list[j..] else [list[j]] + Insert(c, list[j + 1..])
  {
  }

  lemma PutBehind(merged: seq<Cursor>, one: seq<Cursor>, rest: seq<Cursor>)
    ensures merged + (one + rest) == merged + one + rest && [] + rest == rest && merged + [] == merged
  {
  }

  /** One round of the merge: copy the list, putting `cursor` before the first
      smaller one; its count then drops to 0 so that it is put only once. */
  method InsertCursor(cursor: Cursor, temp: seq<Cursor>) returns (ok: bool, merged: seq<Cursor>)
    requires cursor.count.Some?
    ensures ok <==> Known(temp)
    ensures ok ==> merged == Insert(cursor, temp)
  {
    hide Insert;
    var thisCount := cursor.count.value;
    merged := [];
    ghost var put := false;
    ghost var rest := Insert(cursor, temp);
    assert temp[0..] == temp;
    PutBehind([], [], rest);
    var j := 0;
    while j < |temp|
      invariant 0 <= j <= |temp|
      invariant forall k | 0 <= k < j :: temp[k].count.Some?
      invariant thisCount == if put then 0 else Size(cursor)
      invariant Insert(cursor, temp) == merged + rest
      invariant rest == if put then temp[j..] else Insert(cursor, temp[j..])
    {
      if temp[j].count.None? {
        assert temp[j] in temp;
        return false, [];
      }
      InsertStep(cursor, temp, j);
      if thisCount > temp[j].count.value {
        PutBehind(merged, [cursor], temp[j..]);
        merged := merged + [cursor];
        thisCount, put, rest := 0, true, temp[j..];
      }
      rest := if put then temp[j + 1..] else Insert(cursor, temp[j + 1..]);
      PutBehind(merged, [temp[j]], rest);
      merged := merged + [temp[j]];
      j := j + 1;
    }
    InsertStep(cursor, temp, j);
    PutBehind(merged, [], []);
    ok := true;
  }

  method Merge(thisList: seq<Cursor>, thatList: seq<Cursor>) returns (r: Plan)
    ensures r == MergeOf(thisList, thatList)
  {
    r := Failed;
    var temp := thatList;
    var i := 0;
    while i < |thisList|
      invariant 0 <= i <= |thisList|
      invariant Known(thisList[..i])
      invariant i == 0 ==> r == Failed && temp == thatList
      invariant i > 0 ==> Known(thatList) && r == Planned(temp)
      invariant Known(thatList) ==> Known(temp)
      invariant MergeFold(thisList[i..], temp) == MergeFold(thisList, thatList)
    {
      var cursor := thisList[i];
      assert cursor in thisList;
      if cursor.count.None? {
        return Failed;
      }
      var ok, merged := InsertCursor(cursor, temp);
      if !ok {
        return Failed;
      }
      InsertMembers(cursor, temp);
      assert thisList[i..][0] == cursor && thisList[i..][1..] == thisList[i + 1..];
      assert thisList[..i + 1] == thisList[..i] + [cursor];
      r := Planned(merged);
      temp := merged;
      i := i + 1;
    }
    assert thisList[..i] == thisList;
  }

  function KeptOf(a: seq<Cursor>, b: seq<Cursor>): (r: seq<Cursor>)
  {
    if a == [] then []
    else (if Larger(a[0], b) then [a[0]] else []) + KeptOf(a[1..], b)
  }

  /** The cursors of the first list that a merge leaves out. */
  function LostOf(a: seq<Cursor>, b: seq<Cursor>): (r: seq<Cursor>)
  {
    if a == [] then []
    else (if Larger(a[0], b) then [] else [a[0]]) + LostOf(a[1..], b)
  }

  lemma {:induction false} InsertKeeps(c: Cursor, list: seq<Cursor>)
    ensures multiset(Insert(c, list)) == multiset(list) + if Larger(c, list) then multiset{c} else multiset{}
  {
    if list != [] {
      assert list == [list[0]] + list[1..];
      if Size(c) <= Size(list[0]) {
        InsertKeeps(c, list[1..]);
        assert Larger(c, list) == Larger(c, list[1..]);
      } else {
        assert list[0] in list;
      }
    }
  }

  lemma {:induction false} InsertSorted(c: Cursor, list: seq<Cursor>)
    requires Descending(list)
    ensures Descending(Insert(c, list))
  {
    if list != [] && Size(c) <= Size(list[0]) {
      assert Descending(list[1..]);
      InsertSorted(c, list[1..]);
      InsertMembers(c, list[1..]);
      var rest := Insert(c, list[1..]);
      forall j | 0 <= j < |rest|
        ensures Size(rest[j]) <= Size(list[0])
      {
        assert rest[j] in rest;
        if rest[j] != c {
          var k :| 0 <= k < |list[1..]| && list[1..][k] == rest[j];
          assert list[k + 1] == rest[j];
        }
      }
    }
  }

  lemma {:induction false} InsertMembers(c: Cursor, list: seq<Cursor>)
    ensures forall d :: d in Insert(c, list) <==> d in list || (d == c && Larger(c, list))
  {
    InsertKeeps(c, list);
    assert forall d :: d in Insert(c, list) <==> d in multiset(Insert(c, list));
    assert forall d :: d in list <==> d in multiset(list);
  }

  lemma {:induction false} InsertLarger(x: Cursor, c: Cursor, list: seq<Cursor>)
    ensures Larger(x, Insert(c, list)) == Larger(x, list)
  {
    InsertMembers(c, list);
  }

  lemma {:induction false} KeptSame(a: seq<Cursor>, c: Cursor, b: seq<Cursor>)
    ensures KeptOf(a, Insert(c, b)) == KeptOf(a, b)
  {
    if a != [] {
      InsertLarger(a[0], c, b);
      KeptSame(a[1..], c, b);
    }
  }

  /** What a merge returns: the whole second list and exactly the first list's
      cursors that are larger than some cursor of it, each as often as it was
      there, in descending order when the second list was. */
  lemma MergeExact(a: seq<Cursor>, b: seq<Cursor>)
    ensures multiset(MergeFold(a, b)) == multiset(b) + multiset(KeptOf(a, b))
    ensures multiset(a) == multiset(KeptOf(a, b)) + multiset(LostOf(a, b))
    ensures Descending(b) ==> Descending(MergeFold(a, b))
  {
    MergeContents(a, b);
    KeptOrLost(a, b);
    if Descending(b) {
      MergeSorted(a, b);
    }
  }

  lemma {:induction false} MergeContents(a: seq<Cursor>, b: seq<Cursor>)
    ensures multiset(MergeFold(a, b)) == multiset(b) + multiset(KeptOf(a, b))
  {
    if a != [] {
      InsertKeeps(a[0], b);
      KeptSame(a[1..], a[0], b);
      MergeContents(a[1..], Insert(a[0], b));
    }
  }

  lemma {:induction false} KeptOrLost(a: seq<Cursor>, b: seq<Cursor>)
    ensures multiset(a) == multiset(KeptOf(a, b)) + multiset(LostOf(a, b))
  {
    if a != [] {
      assert a == [a[0]] + a[1..];
      KeptOrLost(a[1..], b);
    }
  }

  lemma {:induction false} MergeSorted(a: seq<Cursor>, b: seq<Cursor>)
    requires Descending(b)
    ensures Descending(MergeFold(a, b))
  {
    if a != [] {
      InsertSorted(a[0], b);
      MergeSorted(a[1..], Insert(a[0], b));
    }
  }

  /** A merge loses nothing exactly when every cursor of the first list is
      larger than some cursor of the second. */
  lemma {:induction false} MergeKeepsAll(a: seq<Cursor>, b: seq<Cursor>)
    ensures multiset(MergeFold(a, b)) == multiset(a) + multiset(b) <==> forall c | c in a :: Larger(c, b)
  {
    MergeExact(a, b);
    LostMembers(a, b);
    var kept, lost := multiset(KeptOf(a, b)), multiset(LostOf(a, b));
    assert multiset(MergeFold(a, b)) + lost == multiset(a) + multiset(b);
    if LostOf(a, b) == [] {
      assert lost == multiset{};
    } else {
      var c := LostOf(a, b)[0];
      assert c in LostOf(a, b) && lost[c] > 0;
      assert multiset(MergeFold(a, b))[c] < (multiset(a) + multiset(b))[c];
    }
  }

  lemma {:induction false} LostMembers(a: seq<Cursor>, b: seq<Cursor>)
    ensures forall c :: c in LostOf(a, b) <==> c in a && !Larger(c, b)
  {
    if a != [] {
      LostMembers(a[1..], b);
    }
  }

  // ---- the plan of a whole filter

  function Own(env: Env, e: Entry): seq<Cursor> {
    if e.property in env.indexed then [Open(env, e)] else []
  }

  function PlanOf(env: Env, f: Filter): Plan {
    if f.Accept? then Failed
    else if f.Reject? then Planned([])
    else if f.entry.property in env.indexed && !env.opens(f.entry) then Failed
    else
      var own := Own(env, f.entry);
      if f.onTrue.Accept? && f.onFalse.Reject? then Planned(own)
      else if f.onTrue.Node? && f.onFalse.Node? then
        var t :- PlanOf(env, f.onTrue);
        var n :- PlanOf(env, f.onFalse);
        MergeOf(JoinOf(own, t), n)
      else if f.onTrue.Node? then
        var t :- PlanOf(env, f.onTrue);
        Planned(JoinOf(own, t))
      else if f.onFalse.Node? then
        var n :- PlanOf(env, f.onFalse);
        MergeOf(own, n)
      else Failed
  }

  method CursorList(env: Env, f: Filter) returns (r: Plan)
    ensures r == PlanOf(env, f)
    decreases f
  {
    if f.Accept? {
      return Failed;
    }
    if f.Reject? {
      return Planned([]);
    }
    var list: seq<Cursor> := [];
    if f.entry.property in env.indexed {
      if !env.opens(f.entry) {
        return Failed;
      }
      list := [Open(env, f.entry)];
    }
    if f.onTrue.Accept? && f.onFalse.Reject? {
      return Planned(list);
    }
    if f.onTrue.Node? && f.onFalse.Node? {
      var next := CursorList(env, f.onTrue);
      if next.Failed? {
        return Failed;
      }
      list := Join(list, next.cursors);
      next := CursorList(env, f.onFalse);
      if next.Failed? {
        return Failed;
      }
      r := Merge(list, next.cursors);
    } else if f.onTrue.Node? {
      var next := CursorList(env, f.onTrue);
      if next.Failed? {
        return Failed;
      }
      list := Join(list, next.cursors);
      r := Planned(list);
    } else if f.onFalse.Node? {
      var next := CursorList(env, f.onFalse);
      if next.Failed? {
        return Failed;
      }
      r := Merge(list, next.cursors);
    } else {
      r := Failed;
    }
  }
}
