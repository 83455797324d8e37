/** Query criteria: decision-tree filters, the walk that tests one object, and
    the tree's plain truth value.  A filter's links point to another entry or to
    one of the two constants; a tree stands for the source's DAG of pointers,
    whose nodes are visited once for every path that reaches them. */
module Criteria {
  import opened Basics

  /** A property value: one string or a list of strings. */
  datatype Value = Scalar(text: string) | List(items: seq<string>) {
    function Items(): seq<string> {
      match this
      case Scalar(s) => [s]
      case List(ss) => ss
    }
  }

  type Object = map<string, Value>

  datatype Op = Eq | Ne | Lt | Le | Gt | Ge

  /** The operator with its operands exchanged. */
  function Exchanged(op: Op): Op {
    match op
    case Lt => Gt
    case Le => Ge
    case Gt => Lt
    case Ge => Le
    case _ => op
  }

  datatype Entry = Entry(property: string, op: Op, value: string)

  datatype Filter =
    | Accept
    | Reject
    | Node(entry: Entry, onTrue: Filter, onFalse: Filter)

  /** One comparison.  The entry's value is the left operand and the property's
      value the right one, so `Lt` holds when the entry's value is the smaller. */
  predicate Compare(op: Op, wanted: string, item: string) {
    match op
    case Eq => wanted == item
    case Ne => wanted != item
    case Lt => Less(wanted, item)
    case Le => wanted == item || Less(wanted, item)
    case Gt => Less(item, wanted)
    case Ge => wanted == item || Less(item, wanted)
  }

  /** `Ne` must hold of every item, every other operator of some item. */
  predicate Satisfies(e: Entry, v: Value) {
    if e.op == Ne then forall x | x in v.Items() :: Compare(Ne, e.value, x)
    else exists x | x in v.Items() :: Compare(e.op, e.value, x)
  }

  predicate Holds(e: Entry, o: Object) {
    e.property in o && Satisfies(e, o[e.property])
  }

  lemma EqHolds(e: Entry, o: Object)
    requires e.op == Eq
    ensures Holds(e, o) <==> e.property in o && e.value in o[e.property].Items()
  {
  }

  /** The scan's test of an object: an absent property fails the whole filter,
      wherever the walk meets it. */
  predicate Walk(f: Filter, o: Object) {
    match f
    case Accept => true
    case Reject => false
    case Node(e, t, n) =>
      e.property in o && if Satisfies(e, o[e.property]) then Walk(t, o) else Walk(n, o)
  }

  /** The walk as the loop the source runs. */
  method TestObject(f: Filter, o: Object) returns (r: bool)
    ensures r == Walk(f, o)
  {
    var entry := f;
    r := true;
    while entry.Node?
      invariant Walk(f, o) == Walk(entry, o)
      decreases entry
    {
      if entry.entry.property !in o {
        return false;
      }
      r := Satisfies(entry.entry, o[entry.entry.property]);
      entry := if r then entry.onTrue else entry.onFalse;
    }
    r := entry.Accept?;
  }

  /** The walk leads to an entry whose property the object lacks. */
  predicate MeetsMissing(f: Filter, o: Object) {
    f.Node? &&
    (f.entry.property !in o ||
     if Satisfies(f.entry, o[f.entry.property]) then MeetsMissing(f.onTrue, o)
     else MeetsMissing(f.onFalse, o))
  }

  /** Truth of a filter when `v` is the set of entries that hold. */
  ghost predicate Eval(f: Filter, v: iset<Entry>) {
    match f
    case Accept => true
    case Reject => false
    case Node(e, t, n) => if e in v then Eval(t, v) else Eval(n, v)
  }

  /** The entries that hold of an object. */
  ghost function Truths(o: Object): iset<Entry> {
    iset e: Entry | Holds(e, o)
  }

  /** The walk is the tree's truth value, except that it also fails when it
      meets an absent property. */
  lemma {:induction false} WalkIsEval(f: Filter, o: Object)
    ensures Walk(f, o) <==> Eval(f, Truths(o)) && !MeetsMissing(f, o)
  {
    match f
    case Accept =>
    case Reject =>
    case Node(e, t, n) =>
      WalkIsEval(t, o);
      WalkIsEval(n, o);
  }

  ghost predicate Implies(f: Filter, g: Filter) {
    forall v: iset<Entry> :: Eval(f, v) ==> Eval(g, v)
  }

  /** The trees the source's readers expect: failing an entry never helps, so a
      node means `(entry AND onTrue) OR onFalse`. */
  ghost predicate Monotone(f: Filter) {
    f.Node? ==>
      && !f.onTrue.Reject? && !f.onFalse.Accept?
      && Implies(f.onFalse, f.onTrue)
      && Monotone(f.onTrue) && Monotone(f.onFalse)
  }

  lemma MonotoneNode(f: Filter, v: iset<Entry>)
    requires f.Node? && Monotone(f)
    ensures Eval(f, v) <==> (f.entry in v && Eval(f.onTrue, v)) || Eval(f.onFalse, v)
  {
    assert Eval(f.onFalse, v) ==> Eval(f.onTrue, v);
  }

  function Entries(f: Filter): set<Entry> {
    if f.Node? then {f.entry} + Entries(f.onTrue) + Entries(f.onFalse) else {}
  }

  predicate EqOnly(f: Filter) {
    forall e | e in Entries(f) :: e.op == Eq
  }

  /** An object that defines every property a filter names never fails the walk
      for want of one. */
  lemma {:induction false} DefinedNeverMissing(f: Filter, o: Object)
    requires forall e | e in Entries(f) :: e.property in o
    ensures !MeetsMissing(f, o)
  {
    if f.Node? {
      DefinedNeverMissing(f.onTrue, o);
      DefinedNeverMissing(f.onFalse, o);
    }
  }
}
