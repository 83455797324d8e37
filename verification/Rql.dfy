/** Filter expressions as decision trees: the parser appends one entry for each
    comparison and redirects links of earlier entries to later ones. */
module Rql {
  import opened Criteria

  datatype Expr = Leaf(entry: Entry) | And(parts: seq<Expr>) | Or(parts: seq<Expr>)

  /** `and` and `or` have at least one operand. */
  predicate Proper(e: Expr) {
    e.Leaf? || (e.parts != [] && forall x | x in e.parts :: Proper(x))
  }

  ghost predicate Truth(e: Expr, v: iset<Entry>) {
    match e
    case Leaf(entry) => entry in v
    case And(parts) => forall x | x in parts :: Truth(x, v)
    case Or(parts) => exists x | x in parts :: Truth(x, v)
  }

  // ---- the tree an expression stands for

  /** The tree that goes to `t` where the expression holds and to `f` where not. */
  function Lower(e: Expr, t: Filter, f: Filter): Filter
    requires Proper(e)
    decreases e, 0
  {
    match e
    case Leaf(entry) => Node(entry, t, f)
    case And(parts) => LowerAll(parts, true, t, f)
    case Or(parts) => LowerAll(parts, false, t, f)
  }

  function LowerAll(parts: seq<Expr>, all: bool, t: Filter, f: Filter): Filter
    requires parts != [] && forall x | x in parts :: Proper(x)
    decreases parts
  {
    if |parts| == 1 then Lower(parts[0], t, f)
    else
      var rest := LowerAll(parts[1..], all, t, f);
      if all then Lower(parts[0], rest, f) else Lower(parts[0], t, rest)
  }

  lemma {:induction false} LowerMeans(e: Expr, t: Filter, f: Filter, v: iset<Entry>)
    requires Proper(e)
    ensures Eval(Lower(e, t, f), v) <==> if Truth(e, v) then Eval(t, v) else Eval(f, v)
    decreases e, 0
  {
    if !e.Leaf? {
      LowerAllMeans(e.parts, e.And?, t, f, v);
    }
  }

  lemma {:induction false} LowerAllMeans(parts: seq<Expr>, all: bool, t: Filter, f: Filter, v: iset<Entry>)
    requires parts != [] && forall x | x in parts :: Proper(x)
    ensures Eval(LowerAll(parts, all, t, f), v)
      <==> if Truth(if all then And(parts) else Or(parts), v) then Eval(t, v) else Eval(f, v)
    decreases parts
  {
    if |parts| == 1 {
      LowerMeans(parts[0], t, f, v);
      assert parts == [parts[0]];
    } else {
      var rest := LowerAll(parts[1..], all, t, f);
      LowerAllMeans(parts[1..], all, t, f, v);
      LowerMeans(parts[0], if all then rest else t, if all then f else rest, v);
      assert parts == [parts[0]] + parts[1..];
    }
  }

  /** Every tree an expression stands for is monotone. */
  lemma {:induction false} LowerIsMonotone(e: Expr, t: Filter, f: Filter)
    requires Proper(e) && Monotone(t) && Monotone(f) && Implies(f, t) && !t.Reject? && !f.Accept?
    ensures Monotone(Lower(e, t, f)) && Lower(e, t, f).Node?
    decreases e, 0
  {
    if !e.Leaf? {
      LowerAllIsMonotone(e.parts, e.And?, t, f);
    }
  }

  lemma {:induction false} LowerAllIsMonotone(parts: seq<Expr>, all: bool, t: Filter, f: Filter)
    requires parts != [] && forall x | x in parts :: Proper(x)
    requires Monotone(t) && Monotone(f) && Implies(f, t) && !t.Reject? && !f.Accept?
    ensures Monotone(LowerAll(parts, all, t, f)) && LowerAll(parts, all, t, f).Node?
    decreases parts
  {
    if |parts| == 1 {
      LowerIsMonotone(parts[0], t, f);
    } else {
      var rest := LowerAll(parts[1..], all, t, f);
      LowerAllIsMonotone(parts[1..], all, t, f);
      forall v
        ensures Eval(f, v) ==> Eval(rest, v)
        ensures Eval(rest, v) ==> Eval(t, v)
      {
        LowerAllMeans(parts[1..], all, t, f, v);
        assert Eval(f, v) ==> Eval(t, v);
      }
      LowerIsMonotone(parts[0], if all then rest else t, if all then f else rest);
    }
  }

  // ---- the entries the parser makes

  datatype Link = True | False | To(index: nat)

  datatype Slot = Slot(entry: Entry, onTrue: Link, onFalse: Link)

  function PatchedLink(link: Link, before: Link, after: Link): Link {
    if link == before then after else link
  }

  function PatchedSlot(s: Slot, before: Link, after: Link): Slot {
    Slot(s.entry, PatchedLink(s.onTrue, before, after), PatchedLink(s.onFalse, before, after))
  }

  /** patch_on: redirect every link, of either kind, that is the old one. */
  function Patched(slots: seq<Slot>, before: Link, after: Link): (r: seq<Slot>)
    ensures |r| == |slots|
    ensures forall i | 0 <= i < |slots| :: r[i] == PatchedSlot(slots[i], before, after)
  {
    seq(|slots|, i requires 0 <= i < |slots| => PatchedSlot(slots[i], before, after))
  }

  /** Which link of the operand before is redirected to the next one.  The infix form
      redirects the links that leave the operand; the function and object forms
      redirect whatever the operand's first entry links to. */
  function Redirected(infix: bool, all: bool, slots: seq<Slot>): Link
    requires slots != []
  {
    if infix then if all then True else False
    else if all then slots[0].onTrue else slots[0].onFalse
  }

  /** The entries of an expression when `base` entries are there already. */
  function Built(e: Expr, base: nat, infix: bool): (r: seq<Slot>)
    requires Proper(e)
    ensures r != []
    decreases e, 0
  {
    match e
    case Leaf(entry) => [Slot(entry, True, False)]
    case And(parts) => BuiltAll(parts, true, base, infix)
    case Or(parts) => BuiltAll(parts, false, base, infix)
  }

  function BuiltAll(parts: seq<Expr>, all: bool, base: nat, infix: bool): (r: seq<Slot>)
    requires parts != [] && forall x | x in parts :: Proper(x)
    ensures r != []
    decreases parts
  {
    var first := Built(parts[0], base, infix);
    if |parts| == 1 then first
    else
      Patched(first, Redirected(infix, all, first), To(base + |first|)) + BuiltAll(parts[1..], all, base + |first|, infix)
  }

  /** Links leave the entries or lead forward within them. */
  predicate Closed(slots: seq<Slot>, base: nat) {
    forall i | 0 <= i < |slots| ::
      Inside(slots[i].onTrue, base + i, base + |slots|) && Inside(slots[i].onFalse, base + i, base + |slots|)
  }

  predicate Inside(link: Link, above: nat, below: nat) {
    link.To? ==> above < link.index < below
  }

  /** The tree behind a link; links that leave lead to `t` and `f`. */
  function Unfold(slots: seq<Slot>, base: nat, link: Link, t: Filter, f: Filter): Filter
    requires Closed(slots, base) && (link.To? ==> base <= link.index < base + |slots|)
    decreases if link.To? then base + |slots| - link.index else 0
  {
    match link
    case True => t
    case False => f
    case To(j) =>
      var s := slots[j - base];
      Node(s.entry, Unfold(slots, base, s.onTrue, t, f), Unfold(slots, base, s.onFalse, t, f))
  }

  /** Two runs of entries, the first redirected to the second. */
  function JoinedAt(a: seq<Slot>, b: seq<Slot>, base: nat, before: Link): seq<Slot> {
    Patched(a, before, To(base + |a|)) + b
  }

  lemma JoinIsClosed(a: seq<Slot>, b: seq<Slot>, base: nat, before: Link)
    requires Closed(a, base) && Closed(b, base + |a|) && b != []
    ensures Closed(JoinedAt(a, b, base, before), base)
  {
  }

  lemma {:induction false} SecondUnfolds(a: seq<Slot>, b: seq<Slot>, base: nat, before: Link, link: Link, t: Filter,
                                         f: Filter)
    requires Closed(a, base) && Closed(b, base + |a|) && b != [] && Closed(JoinedAt(a, b, base, before), base)
    requires link.To? ==> base + |a| <= link.index < base + |a| + |b|
    ensures Unfold(JoinedAt(a, b, base, before), base, link, t, f) == Unfold(b, base + |a|, link, t, f)
    decreases if link.To? then base + |a| + |b| - link.index else 0
  {
    if link.To? {
      var s := b[link.index - base - |a|];
      assert JoinedAt(a, b, base, before)[link.index - base] == s;
      SecondUnfolds(a, b, base, before, s.onTrue, t, f);
      SecondUnfolds(a, b, base, before, s.onFalse, t, f);
    }
  }

  lemma JoinSlot(a: seq<Slot>, b: seq<Slot>, base: nat, before: Link, i: nat)
    requires i < |a| && Closed(a, base)
    ensures |JoinedAt(a, b, base, before)| == |a| + |b|
    ensures JoinedAt(a, b, base, before)[i]
      == Slot(a[i].entry, PatchedLink(a[i].onTrue, before, To(base + |a|)), PatchedLink(a[i].onFalse, before, To(base + |a|)))
    ensures Inside(a[i].onTrue, base + i, base + |a|) && Inside(a[i].onFalse, base + i, base + |a|)
  {
  }

  /** In a join the links that left the first run lead to the second. */
  lemma {:induction false} FirstUnfolds(a: seq<Slot>, b: seq<Slot>, base: nat, all: bool, link: Link, t: Filter,
                                        f: Filter)
    requires Closed(a, base) && Closed(b, base + |a|) && b != []
    requires Closed(JoinedAt(a, b, base, if all then True else False), base)
    requires link.To? ==> base <= link.index < base + |a|
    ensures var before := if all then True else False;
      var rest := Unfold(b, base + |a|, To(base + |a|), t, f);
      Unfold(JoinedAt(a, b, base, before), base, PatchedLink(link, before, To(base + |a|)), t, f)
        == Unfold(a, base, link, if all then rest else t, if all then f else rest)
    decreases if link.To? then base + |a| - link.index else 0
  {
    hide JoinedAt, Patched, Closed;
    var before := if all then True else False;
    SecondUnfolds(a, b, base, before, To(base + |a|), t, f);
    if link.To? {
      var s := a[link.index - base];
      JoinSlot(a, b, base, before, link.index - base);
      FirstUnfolds(a, b, base, all, s.onTrue, t, f);
      FirstUnfolds(a, b, base, all, s.onFalse, t, f);
    }
  }

  lemma OneBuilt(parts: seq<Expr>, all: bool, base: nat, infix: bool)
    requires parts != [] && forall x | x in parts :: Proper(x)
    ensures [] + BuiltAll(parts, all, base, infix) == BuiltAll(parts, all, base, infix) && parts[0..] == parts
    ensures |parts| == 1 ==> BuiltAll(parts, all, base, infix) == Built(parts[0], base, infix)
  {
  }

  lemma TwoBuilt(parts: seq<Expr>, all: bool, base: nat, infix: bool)
    requires |parts| > 1 && forall x | x in parts :: Proper(x)
    ensures var first := Built(parts[0], base, infix);
      BuiltAll(parts, all, base, infix)
        == JoinedAt(first, BuiltAll(parts[1..], all, base + |first|, infix), base, Redirected(infix, all, first))
    ensures |BuiltAll(parts, all, base, infix)|
      == |Built(parts[0], base, infix)| + |BuiltAll(parts[1..], all, base + |Built(parts[0], base, infix)|, infix)|
  {
  }

  /** What the infix form builds unfolds to the tree of the expression. */
  lemma {:induction false} InfixIsLower(e: Expr, base: nat, t: Filter, f: Filter)
    requires Proper(e)
    ensures Closed(Built(e, base, true), base)
    ensures Unfold(Built(e, base, true), base, To(base), t, f) == Lower(e, t, f)
    decreases e, 0
  {
    if !e.Leaf? {
      InfixAllIsLower(e.parts, e.And?, base, t, f);
    }
  }

  lemma {:induction false} InfixAllIsLower(parts: seq<Expr>, all: bool, base: nat, t: Filter, f: Filter)
    requires parts != [] && forall x | x in parts :: Proper(x)
    ensures Closed(BuiltAll(parts, all, base, true), base)
    ensures Unfold(BuiltAll(parts, all, base, true), base, To(base), t, f) == LowerAll(parts, all, t, f)
    decreases parts
  {
    hide Unfold, Built, Lower, Patched, Closed, Proper;
    var first := Built(parts[0], base, true);
    if |parts| == 1 {
      InfixIsLower(parts[0], base, t, f);
    } else {
      var next := base + |first|;
      var second := BuiltAll(parts[1..], all, next, true);
      var rest := LowerAll(parts[1..], all, t, f);
      InfixAllIsLower(parts[1..], all, next, t, f);
      InfixIsLower(parts[0], base, if all then rest else t, if all then f else rest);
      JoinIsClosed(first, second, base, if all then True else False);
      FirstUnfolds(first, second, base, all, To(base), t, f);
    }
  }

  /** The infix form is read as written, and its trees are the monotone ones that the
      planner and the LDAP adaptor expect. */
  lemma {:induction false} InfixMeansExpression(e: Expr, v: iset<Entry>)
    requires Proper(e)
    ensures Closed(Built(e, 0, true), 0)
    ensures var tree := Unfold(Built(e, 0, true), 0, To(0), Accept, Reject);
      tree.Node? && Monotone(tree) && (Eval(tree, v) <==> Truth(e, v))
  {
    InfixIsLower(e, 0, Accept, Reject);
    LowerIsMonotone(e, Accept, Reject);
    LowerMeans(e, Accept, Reject, v);
  }

  // ---- the function and object forms

  /** The first entry's link for "holds", or for "fails", leads to another entry of
      the expression. */
  predicate Moved(e: Expr, all: bool)
    requires Proper(e)
  {
    match e
    case Leaf(_) => false
    case And(parts) => (all && |parts| > 1) || Moved(parts[0], all)
    case Or(parts) => (!all && |parts| > 1) || Moved(parts[0], all)
  }

  /** No operand but the last of an `and` begins with an `and` of its own, at any
      depth of first operands; likewise for `or`. */
  predicate Direct(e: Expr)
    requires Proper(e)
    decreases e, 0
  {
    e.Leaf? || DirectAll(e.parts, e.And?)
  }

  predicate DirectAll(parts: seq<Expr>, all: bool)
    requires parts != [] && forall x | x in parts :: Proper(x)
    decreases parts
  {
    Direct(parts[0]) && (|parts| > 1 ==> !Moved(parts[0], all) && DirectAll(parts[1..], all))
  }

  lemma {:induction false} BuiltShape(e: Expr, base: nat, infix: bool)
    requires Proper(e)
    ensures Closed(Built(e, base, infix), base) && |Built(e, base, infix)| == |Built(e, base, true)|
    ensures var s := Built(e, base, infix)[0];
      && (s.onTrue == True <==> !Moved(e, true)) && (s.onFalse == False <==> !Moved(e, false))
      && s.onTrue != False && s.onFalse != True && s.onTrue != s.onFalse
    decreases e, 0
  {
    if !e.Leaf? {
      BuiltAllShape(e.parts, e.And?, base, infix);
    }
  }

  lemma {:induction false} BuiltAllShape(parts: seq<Expr>, all: bool, base: nat, infix: bool)
    requires parts != [] && forall x | x in parts :: Proper(x)
    ensures Closed(BuiltAll(parts, all, base, infix), base)
    ensures |BuiltAll(parts, all, base, infix)| == |BuiltAll(parts, all, base, true)|
    ensures var s := BuiltAll(parts, all, base, infix)[0];
      && (s.onTrue == True <==> !((all && |parts| > 1) || Moved(parts[0], true)))
      && (s.onFalse == False <==> !((!all && |parts| > 1) || Moved(parts[0], false)))
      && s.onTrue != False && s.onFalse != True && s.onTrue != s.onFalse
    decreases parts
  {
    hide Built, BuiltAll, Moved, Closed, Proper, JoinedAt, Patched;
    BuiltShape(parts[0], base, infix);
    if |parts| == 1 {
      OneBuilt(parts, all, base, infix);
      OneBuilt(parts, all, base, true);
    } else {
      var first := Built(parts[0], base, infix);
      var second := BuiltAll(parts[1..], all, base + |first|, infix);
      BuiltAllShape(parts[1..], all, base + |first|, infix);
      TwoBuilt(parts, all, base, infix);
      TwoBuilt(parts, all, base, true);
      JoinIsClosed(first, second, base, Redirected(infix, all, first));
      JoinSlot(first, second, base, Redirected(infix, all, first), 0);
    }
  }

  lemma FirstLinksInside(slots: seq<Slot>, base: nat)
    requires Closed(slots, base)
    ensures forall i | 0 <= i < |slots| :: slots[i].onTrue != To(base + |slots|) && slots[i].onFalse != To(base + |slots|)
  {
  }

  lemma PatchedIsInjective(a: seq<Slot>, b: seq<Slot>, before: Link, base: nat)
    requires Closed(a, base) && Closed(b, base) && |a| == |b|
    requires Patched(a, before, To(base + |a|)) == Patched(b, before, To(base + |a|))
    ensures a == b
  {
    FirstLinksInside(a, base);
    FirstLinksInside(b, base);
    forall i | 0 <= i < |a|
      ensures a[i] == b[i]
    {
      assert Patched(a, before, To(base + |a|))[i] == Patched(b, before, To(base + |a|))[i];
    }
  }

  /** The function form links the entries as the infix form does exactly when the
      expression is direct. */
  lemma {:induction false} FunctionFormExactlyWhen(e: Expr, base: nat)
    requires Proper(e)
    ensures Built(e, base, false) == Built(e, base, true) <==> Direct(e)
    decreases e, 0
  {
    if !e.Leaf? {
      FunctionFormAllExactlyWhen(e.parts, e.And?, base);
    }
  }

  lemma {:induction false} FunctionFormAllExactlyWhen(parts: seq<Expr>, all: bool, base: nat)
    requires parts != [] && forall x | x in parts :: Proper(x)
    ensures BuiltAll(parts, all, base, false) == BuiltAll(parts, all, base, true) <==> DirectAll(parts, all)
    decreases parts
  {
    hide Built, Moved, Closed, Proper, Direct, Patched;
    FunctionFormExactlyWhen(parts[0], base);
    if |parts| > 1 {
      BuiltShape(parts[0], base, false);
      BuiltShape(parts[0], base, true);
      var mine, theirs := Built(parts[0], base, false), Built(parts[0], base, true);
      var next := base + |mine|;
      FunctionFormAllExactlyWhen(parts[1..], all, next);
      var restMine, restTheirs := BuiltAll(parts[1..], all, next, false), BuiltAll(parts[1..], all, next, true);
      RedirectedSame(mine, theirs, all, base);
      HalvesAgree(Patched(mine, Redirected(false, all, mine), To(next)), restMine,
                  Patched(theirs, Redirected(true, all, theirs), To(next)), restTheirs);
      assert Moved(parts[0], all) <==> Redirected(false, all, mine) != Redirected(true, all, theirs);
    }
  }

  lemma HalvesAgree(a: seq<Slot>, b: seq<Slot>, c: seq<Slot>, d: seq<Slot>)
    requires |a| == |c|
    ensures a + b == c + d <==> a == c && b == d
  {
    if a + b == c + d {
      assert a == (a + b)[..|a|] && c == (c + d)[..|c|];
      assert b == (a + b)[|a|..] && d == (c + d)[|c|..];
    }
  }

  /** Two runs, redirected each in its way, agree exactly when they did and the ways
      are the same. */
  lemma RedirectedSame(mine: seq<Slot>, theirs: seq<Slot>, all: bool, base: nat)
    requires mine != [] && |mine| == |theirs| && Closed(mine, base) && Closed(theirs, base)
    requires all ==> (mine[0].onTrue == True <==> theirs[0].onTrue == True)
    requires !all ==> (mine[0].onFalse == False <==> theirs[0].onFalse == False)
    ensures Patched(mine, Redirected(false, all, mine), To(base + |mine|))
         == Patched(theirs, Redirected(true, all, theirs), To(base + |mine|))
      <==> mine == theirs && Redirected(false, all, mine) == Redirected(true, all, theirs)
  {
    var next := To(base + |mine|);
    var x, y := Patched(mine, Redirected(false, all, mine), next), Patched(theirs, Redirected(true, all, theirs), next);
    if x == y {
      FirstLinksInside(theirs, base);
      assert x[0] == y[0];
      PatchedIsInjective(mine, theirs, Redirected(true, all, theirs), base);
    }
  }

  /** `and(and(a,b),c)` in the function form does not test `b`. */
  lemma FunctionFormLosesOperand(a: Entry, b: Entry, c: Entry)
    ensures var e := And([And([Leaf(a), Leaf(b)]), Leaf(c)]);
      && Proper(e) && Closed(Built(e, 0, false), 0)
      && Unfold(Built(e, 0, false), 0, To(0), Accept, Reject) == Node(a, Node(c, Accept, Reject), Reject)
      && (forall v: iset<Entry> :: Truth(e, v) <==> a in v && b in v && c in v)
  {
    var inner := And([Leaf(a), Leaf(b)]);
    var e := And([inner, Leaf(c)]);
    forall v: iset<Entry>
      ensures Truth(e, v) <==> a in v && b in v && c in v
    {
      TruthOfTwo(Leaf(a), Leaf(b), v);
      TruthOfTwo(inner, Leaf(c), v);
    }
    BuiltTwo(Leaf(a), Leaf(b), 0);
    assert Built(inner, 0, false) == [Slot(a, To(1), False), Slot(b, True, False)];
    BuiltTwo(inner, Leaf(c), 0);
    var slots := [Slot(a, To(2), False), Slot(b, True, False), Slot(c, True, False)];
    assert Built(e, 0, false) == slots;
    UnfoldThree(slots, a, b, c);
  }

  lemma TruthOfTwo(x: Expr, y: Expr, v: iset<Entry>)
    ensures Truth(And([x, y]), v) <==> Truth(x, v) && Truth(y, v)
  {
    assert x in [x, y] && y in [x, y] && forall z | z in [x, y] :: z == x || z == y;
  }

  lemma BuiltTwo(x: Expr, y: Expr, base: nat)
    requires Proper(x) && Proper(y)
    ensures Proper(And([x, y]))
    ensures var first := Built(x, base, false);
      Built(And([x, y]), base, false)
        == Patched(first, first[0].onTrue, To(base + |first|)) + Built(y, base + |first|, false)
  {
    assert forall z | z in [x, y] :: z == x || z == y;
    assert [x, y][1..] == [y];
    assert BuiltAll([y], true, base + |Built(x, base, false)|, false) == Built(y, base + |Built(x, base, false)|, false);
  }

  lemma UnfoldThree(slots: seq<Slot>, a: Entry, b: Entry, c: Entry)
    requires slots == [Slot(a, To(2), False), Slot(b, True, False), Slot(c, True, False)]
    ensures Closed(slots, 0) && Unfold(slots, 0, To(0), Accept, Reject) == Node(a, Node(c, Accept, Reject), Reject)
  {
    assert Unfold(slots, 0, To(2), Accept, Reject) == Node(c, Accept, Reject);
  }

  // ---- the parser's part

  lemma Regrouped(a: seq<Slot>, b: seq<Slot>, c: seq<Slot>)
    ensures a + b + c == a + (b + c)
  {
  }

  lemma Spliced(a: seq<Slot>, b: seq<Slot>, last: seq<Slot>)
    ensures (a + b + last)[..|a| + |b|] == a + b && (a + b + last)[|a| + |b|..] == last
  {
  }

  lemma PatchedIs(s: Slot, before: Link, after: Link)
    ensures PatchedSlot(s, before, after).entry == s.entry
    ensures PatchedSlot(s, before, after).onTrue == if s.onTrue == before then after else s.onTrue
    ensures PatchedSlot(s, before, after).onFalse == if s.onFalse == before then after else s.onFalse
  {
  }

  class Builder {
    var slots: seq<Slot>

    constructor ()
      ensures slots == []
    {
      slots := [];
    }

    /** patch_on: from the first entry of the operand before up to the new entry. */
    method PatchOn(start: nat, before: Link, stop: nat)
      requires start <= stop <= |slots|
      modifies this
      ensures slots == old(slots)[..start] + Patched(old(slots)[start..stop], before, To(stop)) + old(slots)[stop..]
    {
      hide PatchedSlot;
      var i := start;
      while i < stop
        invariant start <= i <= stop && |slots| == |old(slots)|
        invariant forall k | 0 <= k < |slots| && !(start <= k < i) :: slots[k] == old(slots)[k]
        invariant forall k | start <= k < i :: slots[k] == PatchedSlot(old(slots)[k], before, To(stop))
      {
        PatchedIs(slots[i], before, To(stop));
        var entry := slots[i];
        if entry.onTrue == before {
          entry := entry.(onTrue := To(stop));
        }
        if entry.onFalse == before {
          entry := entry.(onFalse := To(stop));
        }
        slots := slots[i := entry];
        i := i + 1;
      }
      assert slots[..start] == old(slots)[..start] && slots[stop..] == old(slots)[stop..];
      assert slots[start..stop] == Patched(old(slots)[start..stop], before, To(stop));
      assert slots == slots[..start] + slots[start..stop] + slots[stop..];
    }

    /** One expression: its entries behind those already there. */
    method Build(e: Expr, infix: bool)
      requires Proper(e)
      modifies this
      ensures slots == old(slots) + Built(e, |old(slots)|, infix)
      decreases e, 1
    {
      match e {
        case Leaf(entry) => slots := slots + [Slot(entry, True, False)];
        case And(parts) => BuildAll(parts, true, infix);
        case Or(parts) => BuildAll(parts, false, infix);
      }
    }

    /** The next operand, and the links of the one before redirected to it. */
    method BuildNext(e: Expr, all: bool, infix: bool, start: nat, ghost last: seq<Slot>)
      requires Proper(e) && start <= |slots| && last != [] && slots[start..] == last
      modifies this
      ensures slots == old(slots)[..start] + Patched(last, Redirected(infix, all, last), To(|old(slots)|))
                       + Built(e, |old(slots)|, infix)
      decreases e, 2
    {
      hide Built, Patched, Proper;
      var stop := |slots|;
      assert slots[start] == last[0];
      var before := if infix then (if all then True else False)
                    else if all then slots[start].onTrue else slots[start].onFalse;
      Build(e, infix);
      PatchOn(start, before, stop);
      assert (old(slots) + Built(e, stop, infix))[start..stop] == last;
      assert (old(slots) + Built(e, stop, infix))[stop..] == Built(e, stop, infix);
    }

    method BuildAll(parts: seq<Expr>, all: bool, infix: bool)
      requires parts != [] && forall x | x in parts :: Proper(x)
      modifies this
      ensures slots == old(slots) + BuiltAll(parts, all, |old(slots)|, infix)
      decreases parts, 0
    {
      hide Built, BuiltAll, Patched, Proper, Redirected;
      ghost var base := |slots|;
      ghost var done: seq<Slot> := [];
      var start := |slots|;
      Build(parts[0], infix);
      ghost var last := Built(parts[0], start, infix);
      assert old(slots) + [] == old(slots);
      OneBuilt(parts, all, base, infix);
      var k := 1;
      while k < |parts|
        invariant 1 <= k <= |parts| && start == base + |done| && last != []
        invariant last == Built(parts[k - 1], start, infix) && slots == old(slots) + done + last
        invariant done + BuiltAll(parts[k - 1..], all, start, infix) == BuiltAll(parts, all, base, infix)
      {
        var stop := |slots|;
        Spliced(old(slots), done, last);
        BuildNext(parts[k], all, infix, start, last);
        ghost var patched := Patched(last, Redirected(infix, all, last), To(stop));
        TwoBuilt(parts[k - 1..], all, start, infix);
        assert parts[k - 1..][1..] == parts[k..];
        Regrouped(done, patched, BuiltAll(parts[k..], all, stop, infix));
        Regrouped(old(slots), done, patched);
        done, last, start := done + patched, Built(parts[k], stop, infix), stop;
        k := k + 1;
      }
      OneBuilt(parts[k - 1..], all, start, infix);
      Regrouped(old(slots), done, last);
    }
  }
}
