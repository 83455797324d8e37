/** When the function and object forms of RQL mean the expression that they spell. */
module RqlMeaning {
  import opened Criteria
  import opened Rql

  /** The comparisons of an expression, in the order they are written. */
  function Leaves(e: Expr): seq<Entry>
    decreases e, 0
  {
    match e
    case Leaf(entry) => [entry]
    case And(parts) => LeavesOf(parts)
    case Or(parts) => LeavesOf(parts)
  }

  function LeavesOf(parts: seq<Expr>): seq<Entry>
    decreases parts
  {
    if parts == [] then [] else Leaves(parts[0]) + LeavesOf(parts[1..])
  }

  predicate Different(s: seq<Entry>) {
    forall i, j | 0 <= i < j < |s| :: s[i] != s[j]
  }

  lemma DifferentHalves(a: seq<Entry>, b: seq<Entry>)
    requires Different(a + b)
    ensures Different(a) && Different(b) && forall x | x in a :: x !in b
  {
    var s := a + b;
    assert forall i | 0 <= i < |a| :: s[i] == a[i];
    assert forall j | 0 <= j < |b| :: s[|a| + j] == b[j];
  }

  function Joined(parts: seq<Expr>, all: bool): Expr {
    if all then And(parts) else Or(parts)
  }

  lemma JoinedSplits(parts: seq<Expr>, all: bool, v: iset<Entry>)
    requires parts != []
    ensures |parts| == 1 ==> (Truth(Joined(parts, all), v) <==> Truth(parts[0], v))
    ensures |parts| > 1 ==>
      (Truth(Joined(parts, all), v) <==>
         if all then Truth(parts[0], v) && Truth(Joined(parts[1..], all), v)
         else Truth(parts[0], v) || Truth(Joined(parts[1..], all), v))
  {
    assert parts == [parts[0]] + parts[1..];
  }

  // ---- every comparison matters

  /** The truth of an expression depends on its own comparisons alone. */
  lemma {:induction false} TruthIsLocal(e: Expr, v: iset<Entry>, w: iset<Entry>)
    requires forall x | x in Leaves(e) :: x in v <==> x in w
    ensures Truth(e, v) <==> Truth(e, w)
    decreases e, 0
  {
    if !e.Leaf? {
      TruthOfAllIsLocal(e.parts, v, w);
    }
  }

  lemma {:induction false} TruthOfAllIsLocal(parts: seq<Expr>, v: iset<Entry>, w: iset<Entry>)
    requires forall x | x in LeavesOf(parts) :: x in v <==> x in w
    ensures forall p | p in parts :: Truth(p, v) <==> Truth(p, w)
    decreases parts
  {
    hide Truth;
    if parts != [] {
      TruthIsLocal(parts[0], v, w);
      TruthOfAllIsLocal(parts[1..], v, w);
    }
  }

  /** An expression holds where all its comparisons hold and fails where none does. */
  lemma {:induction false} TruthWhereAlike(e: Expr, v: iset<Entry>, all: bool)
    requires Proper(e) && forall x | x in Leaves(e) :: x in v <==> all
    ensures Truth(e, v) <==> all
    decreases e, 0
  {
    if !e.Leaf? {
      TruthOfPartsAlike(e.parts, v, all);
      assert e.parts[0] in e.parts;
    }
  }

  lemma {:induction false} TruthOfPartsAlike(parts: seq<Expr>, v: iset<Entry>, all: bool)
    requires forall p | p in parts :: Proper(p)
    requires forall x | x in LeavesOf(parts) :: x in v <==> all
    ensures forall p | p in parts :: Truth(p, v) <==> all
    decreases parts
  {
    hide Truth;
    if parts != [] {
      TruthWhereAlike(parts[0], v, all);
      TruthOfPartsAlike(parts[1..], v, all);
    }
  }

  ghost predicate Turns(e: Expr, x: Entry, v: iset<Entry>) {
    x !in v && !Truth(e, v) && Truth(e, v + iset{x})
  }

  /** What turns one operand turns the whole, once the other operand is settled. */
  lemma TurnsBeside(inside: Expr, outside: Expr, all: bool, x: Entry, u: iset<Entry>) returns (v: iset<Entry>)
    requires Proper(outside) && x in Leaves(inside) && Turns(inside, x, u)
    requires forall y | y in Leaves(inside) :: y !in Leaves(outside)
    ensures Turns(inside, x, v)
    ensures (Truth(outside, v) <==> all) && (Truth(outside, v + iset{x}) <==> all)
  {
    hide Truth, Proper, Leaves;
    v := iset y: Entry | if y in Leaves(inside) then y in u else all;
    TruthIsLocal(inside, v, u);
    TruthIsLocal(inside, v + iset{x}, u + iset{x});
    TruthWhereAlike(outside, v, all);
    TruthWhereAlike(outside, v + iset{x}, all);
  }

  /** Where no comparison is repeated each of them can decide the expression. */
  lemma {:induction false} EveryLeafMatters(e: Expr, x: Entry) returns (v: iset<Entry>)
    requires Proper(e) && Different(Leaves(e)) && x in Leaves(e)
    ensures Turns(e, x, v)
    decreases e, 0
  {
    if e.Leaf? {
      v := iset{};
    } else {
      v := EveryLeafOfAllMatters(e.parts, e.And?, x);
    }
  }

  lemma {:induction false} EveryLeafOfAllMatters(parts: seq<Expr>, all: bool, x: Entry) returns (v: iset<Entry>)
    requires parts != [] && forall p | p in parts :: Proper(p)
    requires Different(LeavesOf(parts)) && x in LeavesOf(parts)
    ensures Turns(Joined(parts, all), x, v)
    decreases parts
  {
    hide Truth, Leaves, Different;
    var first, rest := parts[0], Joined(parts[1..], all);
    JoinedLeaves(parts, all);
    DifferentHalves(Leaves(first), LeavesOf(parts[1..]));
    if |parts| == 1 {
      v := EveryLeafMatters(first, x);
    } else if x in Leaves(first) {
      var u := EveryLeafMatters(first, x);
      v := TurnsBeside(first, rest, all, x, u);
    } else {
      var u := EveryLeafOfAllMatters(parts[1..], all, x);
      v := TurnsBeside(rest, first, all, x, u);
    }
    JoinedSplits(parts, all, v);
    JoinedSplits(parts, all, v + iset{x});
  }

  lemma JoinedLeaves(parts: seq<Expr>, all: bool)
    requires parts != [] && forall p | p in parts :: Proper(p)
    ensures LeavesOf(parts) == Leaves(parts[0]) + LeavesOf(parts[1..])
    ensures Leaves(Joined(parts[1..], all)) == LeavesOf(parts[1..])
    ensures |parts| > 1 ==> Proper(Joined(parts[1..], all))
    ensures |parts| == 1 ==> LeavesOf(parts[1..]) == []
  {
  }

  // ---- an entry that no link leads to

  predicate Unlinked(slots: seq<Slot>, base: nat, k: nat) {
    base < k < base + |slots| && forall s | s in slots :: s.onTrue != To(k) && s.onFalse != To(k)
  }

  lemma SlotsOfJoin(a: seq<Slot>, b: seq<Slot>, base: nat, before: Link)
    requires Closed(a, base) && Closed(b, base + |a|)
    ensures forall s | s in JoinedAt(a, b, base, before) ::
      s in b || exists i | 0 <= i < |a| :: s == PatchedSlot(a[i], before, To(base + |a|))
    ensures forall s | s in b :: (s.onTrue.To? ==> base + |a| < s.onTrue.index) && (s.onFalse.To? ==> base + |a| < s.onFalse.index)
    ensures forall s | s in a :: (s.onTrue.To? ==> s.onTrue.index < base + |a|) && (s.onFalse.To? ==> s.onFalse.index < base + |a|)
    ensures |JoinedAt(a, b, base, before)| == |a| + |b|
  {
    var join := JoinedAt(a, b, base, before);
    forall s | s in join
      ensures s in b || exists i | 0 <= i < |a| :: s == PatchedSlot(a[i], before, To(base + |a|))
    {
      var i :| 0 <= i < |join| && join[i] == s;
      if i < |a| {
        assert s == PatchedSlot(a[i], before, To(base + |a|));
      } else {
        assert s == b[i - |a|];
      }
    }
  }

  /** An entry stays unlinked in a join, and the redirected link's target becomes so. */
  lemma UnlinkedInJoin(a: seq<Slot>, b: seq<Slot>, base: nat, before: Link, k: nat)
    requires Closed(a, base) && Closed(b, base + |a|) && b != []
    requires Unlinked(a, base, k) || Unlinked(b, base + |a|, k) || (base < k < base + |a| && before == To(k))
    ensures Unlinked(JoinedAt(a, b, base, before), base, k)
  {
    hide Closed, JoinedAt, Patched;
    SlotsOfJoin(a, b, base, before);
    forall s | s in JoinedAt(a, b, base, before)
      ensures s.onTrue != To(k) && s.onFalse != To(k)
    {
      if s !in b {
        var i :| 0 <= i < |a| && s == PatchedSlot(a[i], before, To(base + |a|));
        assert a[i] in a;
      }
    }
  }

  /** An expression that is not direct leaves an entry that nothing leads to. */
  lemma {:induction false} IndirectIsUnlinked(e: Expr, base: nat) returns (k: nat)
    requires Proper(e) && !Direct(e)
    ensures Unlinked(Built(e, base, false), base, k)
    decreases e, 0
  {
    k := IndirectAllIsUnlinked(e.parts, e.And?, base);
  }

  lemma {:induction false} IndirectAllIsUnlinked(parts: seq<Expr>, all: bool, base: nat) returns (k: nat)
    requires parts != [] && forall p | p in parts :: Proper(p)
    requires !DirectAll(parts, all)
    ensures Unlinked(BuiltAll(parts, all, base, false), base, k)
    decreases parts
  {
    hide Built, Moved, Proper, Direct, Patched, Unlinked;
    var first := Built(parts[0], base, false);
    if |parts| == 1 {
      k := IndirectIsUnlinked(parts[0], base);
    } else {
      var next := base + |first|;
      var second := BuiltAll(parts[1..], all, next, false);
      var before := Redirected(false, all, first);
      BuiltShape(parts[0], base, false);
      BuiltAllShape(parts[1..], all, next, false);
      if !Direct(parts[0]) {
        k := IndirectIsUnlinked(parts[0], base);
      } else if Moved(parts[0], all) {
        k := before.index;
      } else {
        k := IndirectAllIsUnlinked(parts[1..], all, next);
      }
      UnlinkedInJoin(first, second, base, before, k);
    }
  }

  /** No tree behind another link holds the entry that nothing leads to. */
  lemma {:induction false} UnlinkedIsAbsent(slots: seq<Slot>, base: nat, k: nat, link: Link)
    requires Closed(slots, base) && Unlinked(slots, base, k) && (link.To? ==> base <= link.index < base + |slots|)
    requires forall i | 0 <= i < |slots| && i != k - base :: slots[i].entry != slots[k - base].entry
    requires link != To(k)
    ensures slots[k - base].entry !in Entries(Unfold(slots, base, link, Accept, Reject))
    decreases if link.To? then base + |slots| - link.index else 0
  {
    if link.To? {
      var s := slots[link.index - base];
      UnlinkedIsAbsent(slots, base, k, s.onTrue);
      UnlinkedIsAbsent(slots, base, k, s.onFalse);
    }
  }

  lemma {:induction false} AbsentDoesNotMatter(f: Filter, x: Entry, v: iset<Entry>)
    requires x !in Entries(f)
    ensures Eval(f, v) <==> Eval(f, v + iset{x})
  {
    if f.Node? {
      AbsentDoesNotMatter(f.onTrue, x, v);
      AbsentDoesNotMatter(f.onFalse, x, v);
    }
  }

  lemma {:induction false} BuiltEntries(e: Expr, base: nat)
    requires Proper(e)
    ensures |Built(e, base, false)| == |Leaves(e)|
    ensures forall i | 0 <= i < |Leaves(e)| :: Built(e, base, false)[i].entry == Leaves(e)[i]
    decreases e, 0
  {
    if !e.Leaf? {
      BuiltAllEntries(e.parts, e.And?, base);
    }
  }

  lemma {:induction false} BuiltAllEntries(parts: seq<Expr>, all: bool, base: nat)
    requires parts != [] && forall p | p in parts :: Proper(p)
    ensures |BuiltAll(parts, all, base, false)| == |LeavesOf(parts)|
    ensures forall i | 0 <= i < |LeavesOf(parts)| :: BuiltAll(parts, all, base, false)[i].entry == LeavesOf(parts)[i]
    decreases parts
  {
    hide Built, Proper, Leaves;
    BuiltEntries(parts[0], base);
    if |parts| == 1 {
      assert LeavesOf(parts) == Leaves(parts[0]) + [];
    } else {
      BuiltAllEntries(parts[1..], all, base + |Leaves(parts[0])|);
    }
  }

  // ---- the meaning of the function form

  function TreeOf(e: Expr): Filter
    requires Proper(e) && Closed(Built(e, 0, false), 0)
  {
    Unfold(Built(e, 0, false), 0, To(0), Accept, Reject)
  }

  /** The function form's tree has the truth of the expression. */
  ghost predicate Means(e: Expr)
    requires Proper(e) && Closed(Built(e, 0, false), 0)
  {
    forall v: iset<Entry> :: Eval(TreeOf(e), v) <==> Truth(e, v)
  }

  lemma DirectMeans(e: Expr)
    requires Proper(e) && Direct(e) && Closed(Built(e, 0, false), 0)
    ensures Means(e)
  {
    hide Proper, Direct, Truth, Eval, Monotone;
    FunctionFormExactlyWhen(e, 0);
    forall v: iset<Entry>
      ensures Eval(TreeOf(e), v) <==> Truth(e, v)
    {
      InfixMeansExpression(e, v);
    }
  }

  lemma IndirectMeansOther(e: Expr)
    requires Proper(e) && Different(Leaves(e)) && !Direct(e) && Closed(Built(e, 0, false), 0)
    ensures !Means(e)
  {
    hide Proper, Direct, Truth, Eval, Closed, Built, Leaves, Entries, Unfold;
    var slots := Built(e, 0, false);
    var k := IndirectIsUnlinked(e, 0);
    BuiltEntries(e, 0);
    var x := Leaves(e)[k];
    UnlinkedIsAbsent(slots, 0, k, To(0));
    var v := EveryLeafMatters(e, x);
    AbsentDoesNotMatter(TreeOf(e), x, v);
  }

  /** A direct expression means the same in the function form as in the infix form.
      Where no comparison is repeated, no other expression does. */
  lemma FunctionFormMeansExactlyWhen(e: Expr)
    requires Proper(e)
    ensures Closed(Built(e, 0, false), 0)
    ensures Direct(e) ==> Means(e)
    ensures Different(Leaves(e)) ==> (Means(e) <==> Direct(e))
  {
    hide Means, Different, Direct, Proper, Closed;
    BuiltShape(e, 0, false);
    if Direct(e) {
      DirectMeans(e);
    } else if Different(Leaves(e)) {
      IndirectMeansOther(e);
    }
  }

  /** A repeated comparison may hide the loss: `and(and(a,b),c)` is not direct, and it
      means what it spells exactly when `b` is one of the other two. */
  lemma LossShowsExactlyWhen(a: Entry, b: Entry, c: Entry)
    ensures var e := And([And([Leaf(a), Leaf(b)]), Leaf(c)]);
      && Proper(e) && !Direct(e) && Closed(Built(e, 0, false), 0)
      && (Means(e) <==> b == a || b == c)
  {
    hide Built, Unfold, Closed, Truth;
    FunctionFormLosesOperand(a, b, c);
    var e := And([And([Leaf(a), Leaf(b)]), Leaf(c)]);
    assert Moved(e.parts[0], true);
    var tree := Node(a, Node(c, Accept, Reject), Reject);
    forall v: iset<Entry>
      ensures Eval(tree, v) <==> a in v && c in v
    {
      assert Eval(tree.onTrue, v) <==> c in v;
    }
    if Means(e) {
      assert Eval(tree, iset{a, c});
      assert Truth(e, iset{a, c});
    }
  }
}
