/** Exactly which octets the UBJSON parser reads as a value, and as which. */
module UbjsonGrammar {
  import opened Basics
  import opened Ubjson
  import opened UbjsonRoundTrip

  /** The length of a string as it may stand in the input. */
  datatype Length = Length(marker: char, payload: string)

  /** An encoding as it may stand in the input. */
  datatype Tree =
    | Plain(marker: char)
    | Numeric(marker: char, payload: string)
    | Letter(c: char)
    | Text(length: Length, s: string)
    | Items(items: seq<Tree>)
    | Fields(fields: seq<Field>)
    | Typed(open: char)  // an empty container that states a type

  datatype Field = Field(length: Length, name: string, tree: Tree)

  predicate IsNumeric(marker: char, payload: string) {
    || (marker in {'i', 'U'} && |payload| == 1)
    || (marker == 'I' && |payload| == 2)
    || (marker in {'l', 'd'} && |payload| == 4)
    || (marker in {'L', 'D'} && |payload| == 8)
  }

  predicate IsLength(l: Length, n: nat) {
    l.marker in {'i', 'U', 'I', 'l'} && IsNumeric(l.marker, l.payload) && Number(l.marker, l.payload) == n
  }

  predicate IsTree(t: Tree) {
    match t
    case Plain(c) => c in {'Z', 'N', 'T', 'F'}
    case Numeric(c, payload) => IsNumeric(c, payload)
    case Letter(_) => true
    case Text(l, s) => IsLength(l, |s|)
    case Items(items) => forall x | x in items :: IsTree(x)
    case Fields(fields) => forall f | f in fields :: IsLength(f.length, |f.name|) && IsTree(f.tree)
    case Typed(c) => c in {'[', '{'}
  }

  function LengthOctets(l: Length): string {
    [l.marker] + l.payload
  }

  function Octets(t: Tree): string {
    match t
    case Plain(c) => [c]
    case Numeric(c, payload) => [c] + payload
    case Letter(c) => "C" + [c]
    case Text(l, s) => "S" + (LengthOctets(l) + s)
    case Items(items) => "[" + (ItemsOctets(items) + "]")
    case Fields(fields) => "{" + (FieldsOctets(fields) + "}")
    case Typed(c) => if c == '[' then "[$]" else "{$}"
  }

  function ItemsOctets(items: seq<Tree>): string {
    if items == [] then "" else Octets(items[0]) + ItemsOctets(items[1..])
  }

  function FieldsOctets(fields: seq<Field>): string {
    if fields == [] then ""
    else (LengthOctets(fields[0].length) + fields[0].name) + (Octets(fields[0].tree) + FieldsOctets(fields[1..]))
  }

  /** The value an encoding stands for; none when a `_meta_` in it is not an object. */
  function Denoted(t: Tree, m: Machine): Option<Value>
    requires IsTree(t)
    decreases t
  {
    match t
    case Plain(c) => Some(if c == 'T' then Bool(true) else if c == 'F' then Bool(false) else Null)
    case Numeric(c, payload) =>
      Some(if c == 'D' then Double(payload)
           else if c == 'd' then Double(m.widen(payload))
           else Int(Number(c, payload)))
    case Letter(c) => Some(Str([c]))
    case Text(_, s) => Some(Str(s))
    case Items(items) => (
      match DenotedItems(items, m)
      case None => None
      case Some(xs) => Some(List(xs)))
    case Fields(fields) => (
      match DenotedFields(fields, m, [])
      case None => None
      case Some(ps) => Some(Obj(ps)))
    case Typed(c) => Some(if c == '[' then List([]) else Obj([]))
  }

  function DenotedItems(items: seq<Tree>, m: Machine): Option<seq<Value>>
    requires forall x | x in items :: IsTree(x)
    decreases items
  {
    if items == [] then Some([])
    else
      match (Denoted(items[0], m), DenotedItems(items[1..], m))
      case (Some(x), Some(rest)) => Some([x] + rest)
      case _ => None
  }

  /** The properties after those in `acc`. */
  function DenotedFields(fields: seq<Field>, m: Machine, acc: seq<Property>): Option<seq<Property>>
    requires forall f | f in fields :: IsTree(f.tree)
    decreases fields
  {
    if fields == [] then Some(acc)
    else
      match Denoted(fields[0].tree, m)
      case None => None
      case Some(x) =>
        match AddProperty(acc, Property(fields[0].name, x))
        case None => None
        case Some(more) => DenotedFields(fields[1..], m, more)
  }

  // ---- encodings are read

  lemma ReadsNumeric(input: string, m: Machine, at: nat, c: char, payload: string)
    requires IsNumeric(c, payload) && At(input, at, payload)
    ensures |payload| == Width(c)
    ensures ParseNumber(input, m, at, c)
      == Done(if c == 'D' then Double(payload)
              else if c == 'd' then Double(m.widen(payload))
              else Int(Number(c, payload)), at + |payload|)
    ensures ReadInteger(input, at, c) == Done(Number(c, payload), at + |payload|)
  {
    hide Number;
  }

  lemma ReadsLength(input: string, m: Machine, at: nat, l: Length, s: string)
    requires IsLength(l, |s|) && At(input, at, LengthOctets(l) + s)
    ensures ParseString(input, m, at) == Done(s, at + |LengthOctets(l) + s|)
    ensures Peek(input, m, at) == Some(l.marker)
  {
    hide Number, At;
    AtSplit(input, at, LengthOctets(l), s);
    AtHead(input, at, l.marker, l.payload);
    ReadsNumeric(input, m, at + 1, l.marker, l.payload);
    AtMeans(input, at + |LengthOctets(l)|, s);
  }

  lemma AtMeans(input: string, at: nat, s: string)
    ensures At(input, at, s) <==> at + |s| <= |input| && input[at..at + |s|] == s
  {
  }

  lemma FirstOctet(t: Tree)
    requires IsTree(t)
    ensures Octets(t) != "" && Octets(t)[0] !in {']', '}', '$', '#'}
  {
  }

  lemma FirstPeek(input: string, m: Machine, at: nat, t: Tree)
    requires IsTree(t) && At(input, at, Octets(t))
    ensures Peek(input, m, at) !in {None, Some(']'), Some('$')}
  {
    hide At, Octets, IsTree;
    FirstOctet(t);
    assert Octets(t) == [Octets(t)[0]] + Octets(t)[1..];
    AtHead(input, at, Octets(t)[0], Octets(t)[1..]);
  }

  lemma LeafIsRead(input: string, m: Machine, at: nat, t: Tree)
    requires IsTree(t) && At(input, at, Octets(t)) && !t.Items? && !t.Fields?
    ensures ParseValue(input, m, at) == Expected(Denoted(t, m), at + |Octets(t)|)
  {
    hide At, Number, ParseNumber, ParseString, ParseValue, ItemsOctets, FieldsOctets, LengthOctets, Peek, IsNumeric, IsLength;
    match t {
      case Plain(c) =>
        assert Octets(t) == [c] + "";
        ReadsMarker(input, m, at, c, "");
      case Numeric(c, payload) =>
        ReadsMarker(input, m, at, c, payload);
        ReadsNumeric(input, m, at + 1, c, payload);
        NumericMarker(c, payload);
      case Letter(c) =>
        assert Octets(t) == ['C'] + [c] && [c] == [c] + "";
        ReadsMarker(input, m, at, 'C', [c]);
        AtHead(input, at + 1, c, "");
        Inside(input, m, at + 1);
      case Text(l, s) =>
        assert Octets(t) == ['S'] + (LengthOctets(l) + s);
        ReadsMarker(input, m, at, 'S', LengthOctets(l) + s);
        ReadsLength(input, m, at + 1, l, s);
      case Typed(c) => TypedIsRead(input, m, at, c);
    }
  }

  lemma {:induction false} TreeIsRead(input: string, m: Machine, at: nat, t: Tree)
    requires IsTree(t) && At(input, at, Octets(t))
    ensures ParseValue(input, m, at) == Expected(Denoted(t, m), at + |Octets(t)|)
    decreases t
  {
    hide At, Number, ParseNumber, ParseString, ParseValue, ParseItems, ParseProps, ItemsOctets, FieldsOctets, LengthOctets, Peek,
      IsNumeric, IsLength;
    match t {
      case Items(items) =>
        assert Octets(t) == ['['] + (ItemsOctets(items) + "]");
        ReadsMarker(input, m, at, '[', ItemsOctets(items) + "]");
        ItemsAreRead(input, m, at + 1, items);
      case Fields(fields) =>
        assert Octets(t) == ['{'] + (FieldsOctets(fields) + "}");
        ReadsMarker(input, m, at, '{', FieldsOctets(fields) + "}");
        FieldsAreRead(input, m, at + 1, fields, []);
      case _ => LeafIsRead(input, m, at, t);
    }
  }

  lemma NumericMarker(c: char, payload: string)
    requires IsNumeric(c, payload)
    ensures c in {'i', 'U', 'I', 'l', 'L', 'd', 'D'}
  {
  }

  lemma TypedIsRead(input: string, m: Machine, at: nat, c: char)
    requires c in {'[', '{'} && At(input, at, Octets(Typed(c)))
    ensures ParseValue(input, m, at) == Done(if c == '[' then List([]) else Obj([]), at + 3)
  {
    assert Octets(Typed(c)) == [c] + (['$'] + [if c == '[' then ']' else '}']);
    AtHead(input, at, c, ['$'] + [if c == '[' then ']' else '}']);
    AtHead(input, at + 1, '$', [if c == '[' then ']' else '}']);
    assert [if c == '[' then ']' else '}'] == [if c == '[' then ']' else '}'] + "";
    AtHead(input, at + 2, if c == '[' then ']' else '}', "");
    ShapedContainers(input, m, at, c, if c == '[' then ']' else '}');
  }

  lemma {:induction false} ItemsAreRead(input: string, m: Machine, at: nat, items: seq<Tree>)
    requires (forall x | x in items :: IsTree(x)) && At(input, at, ItemsOctets(items) + "]")
    ensures Peek(input, m, at) != Some('$')
    ensures ParseItems(input, m, at)
      == match DenotedItems(items, m)
         case None => Failed
         case Some(xs) => Done(xs, at + |ItemsOctets(items)| + 1)
    decreases items
  {
    hide At, Peek, Octets, ItemsOctets, Denoted, ParseValue, ParseItems, IsTree;
    if items == [] {
      NoItemsAreRead(input, m, at);
    } else {
      var head, tail := Octets(items[0]), ItemsOctets(items[1..]);
      ItemsOctetsSplit(items);
      AtSplit(input, at, head, tail + "]");
      FirstPeek(input, m, at, items[0]);
      TreeIsRead(input, m, at, items[0]);
      OneMoreItem(input, m, at, at + |head|, Denoted(items[0], m));
      ItemsAreRead(input, m, at + |head|, items[1..]);
    }
  }

  lemma NoItemsAreRead(input: string, m: Machine, at: nat)
    requires At(input, at, ItemsOctets([]) + "]")
    ensures Peek(input, m, at) == Some(']') && ParseItems(input, m, at) == Done([], at + 1)
    ensures ItemsOctets([]) == ""
  {
    assert ItemsOctets([]) + "]" == [']'] + "";
    AtHead(input, at, ']', "");
  }

  lemma ItemsOctetsSplit(items: seq<Tree>)
    requires items != []
    ensures ItemsOctets(items) + "]" == Octets(items[0]) + (ItemsOctets(items[1..]) + "]")
    ensures |ItemsOctets(items)| == |Octets(items[0])| + |ItemsOctets(items[1..])|
  {
    hide Octets;
  }

  lemma OneMoreItem(input: string, m: Machine, at: nat, end: nat, x: Option<Value>)
    requires at <= |input| + 1 && Peek(input, m, at) != Some(']') && ParseValue(input, m, at) == Expected(x, end)
    ensures x == None ==> ParseItems(input, m, at) == Failed
    ensures x.Some? ==>
      end <= |input| + 1
      && ParseItems(input, m, at)
         == match ParseItems(input, m, end)
            case Failed => Failed
            case Done(rest, after) => Done([x.value] + rest, after)
  {
    hide Peek, ParseValue;
  }

  lemma {:induction false} FieldsAreRead(input: string, m: Machine, at: nat, fields: seq<Field>, acc: seq<Property>)
    requires forall f | f in fields :: IsLength(f.length, |f.name|) && IsTree(f.tree)
    requires At(input, at, FieldsOctets(fields) + "}")
    ensures Peek(input, m, at) != Some('$')
    ensures ParseProps(input, m, at, acc)
      == match DenotedFields(fields, m, acc)
         case None => Failed
         case Some(ps) => Done(ps, at + |FieldsOctets(fields)| + 1)
    decreases fields
  {
    hide At, Peek, Octets, FieldsOctets, LengthOctets, Denoted, ParseValue, ParseProps, ParseString, AddProperty, IsTree, IsLength;
    if fields == [] {
      NoFieldsAreRead(input, m, at, acc);
    } else {
      var f := fields[0];
      var name, value, tail := LengthOctets(f.length) + f.name, Octets(f.tree), FieldsOctets(fields[1..]);
      FieldsOctetsSplit(fields);
      AtSplit(input, at, name, value + (tail + "}"));
      AtSplit(input, at + |name|, value, tail + "}");
      ReadsLength(input, m, at, f.length, f.name);
      LengthMarker(f.length, |f.name|);
      TreeIsRead(input, m, at + |name|, f.tree);
      OneMoreField(input, m, at, at + |name|, at + |name| + |value|, f.name, Denoted(f.tree, m), acc);
      if Denoted(f.tree, m).Some? && AddProperty(acc, Property(f.name, Denoted(f.tree, m).value)).Some? {
        var more := AddProperty(acc, Property(f.name, Denoted(f.tree, m).value)).value;
        FieldsAreRead(input, m, at + |name| + |value|, fields[1..], more);
      }
    }
  }

  lemma LengthMarker(l: Length, n: nat)
    requires IsLength(l, n)
    ensures l.marker in {'i', 'U', 'I', 'l'}
  {
  }

  lemma NoFieldsAreRead(input: string, m: Machine, at: nat, acc: seq<Property>)
    requires At(input, at, FieldsOctets([]) + "}")
    ensures Peek(input, m, at) == Some('}') && ParseProps(input, m, at, acc) == Done(acc, at + 1)
    ensures FieldsOctets([]) == ""
  {
    assert FieldsOctets([]) + "}" == ['}'] + "";
    AtHead(input, at, '}', "");
  }

  lemma FieldsOctetsSplit(fields: seq<Field>)
    requires fields != []
    ensures var f := fields[0];
      && FieldsOctets(fields) + "}"
         == (LengthOctets(f.length) + f.name) + (Octets(f.tree) + (FieldsOctets(fields[1..]) + "}"))
      && |FieldsOctets(fields)| == |LengthOctets(f.length) + f.name| + |Octets(f.tree)| + |FieldsOctets(fields[1..])|
  {
    hide Octets, LengthOctets;
  }

  lemma OneMoreField(input: string, m: Machine, at: nat, next: nat, end: nat, name: string, x: Option<Value>,
                     acc: seq<Property>)
    requires at <= |input| + 1 && Peek(input, m, at) != Some('}')
    requires ParseString(input, m, at) == Done(name, next) && ParseValue(input, m, next) == Expected(x, end)
    ensures x == None ==> ParseProps(input, m, at, acc) == Failed
    ensures x.Some? ==>
      match AddProperty(acc, Property(name, x.value))
      case None => ParseProps(input, m, at, acc) == Failed
      case Some(more) => end <= |input| + 1 && ParseProps(input, m, at, acc) == ParseProps(input, m, end, more)
  {
    hide Peek, ParseValue, ParseString, AddProperty;
  }

  // ---- nothing else is

  lemma NumericIsRead(input: string, m: Machine, at: nat, c: char) returns (payload: string)
    requires c in {'i', 'U', 'I', 'l', 'L', 'd', 'D'} && ParseNumber(input, m, at, c).Done?
    ensures IsNumeric(c, payload) && At(input, at, payload)
    ensures ParseNumber(input, m, at, c)
      == Done(if c == 'D' then Double(payload)
              else if c == 'd' then Double(m.widen(payload))
              else Int(Number(c, payload)), at + |payload|)
  {
    payload := input[at..at + Width(c)];
  }

  lemma LengthIsRead(input: string, m: Machine, at: nat) returns (l: Length, s: string)
    requires ParseString(input, m, at).Done?
    ensures IsLength(l, |s|) && At(input, at, LengthOctets(l) + s)
    ensures ParseString(input, m, at) == Done(s, at + |LengthOctets(l) + s|)
  {
    hide Number;
    var c := Peek(input, m, at).value;
    var w := Width(c);
    l := Length(c, input[at + 1..at + 1 + w]);
    var len := Number(c, l.payload);
    s := input[at + 1 + w..at + 1 + w + len];
    assert input[at..at + 1 + w] == LengthOctets(l);
    JoinAt(input, at, LengthOctets(l), s);
  }

  lemma JoinAt(input: string, at: nat, a: string, b: string)
    requires At(input, at, a) && At(input, at + |a|, b)
    ensures At(input, at, a + b)
  {
    assert input[at..at + |a| + |b|] == input[at..at + |a|] + input[at + |a|..at + |a| + |b|];
  }

  lemma HeadAt(input: string, at: nat, c: char, rest: string)
    requires at < |input| && input[at] == c && At(input, at + 1, rest)
    ensures At(input, at, [c] + rest)
  {
    assert input[at..at + 1] == [c];
    JoinAt(input, at, [c], rest);
  }

  lemma ValueStarts(input: string, m: Machine, at: nat)
    requires ParseValue(input, m, at).Done? && ParseValue(input, m, at).next <= |input|
    ensures at < |input| && ParseValue(input, m, at) == ParseAs(input, m, at + 1, input[at])
  {
    hide ParseAs;
  }

  lemma {:induction false} ReadIsTree(input: string, m: Machine, at: nat) returns (t: Tree)
    requires ParseValue(input, m, at).Done? && ParseValue(input, m, at).next <= |input|
    ensures IsTree(t) && At(input, at, Octets(t))
    ensures ParseValue(input, m, at) == Expected(Denoted(t, m), at + |Octets(t)|)
    decreases |input| + 1 - at, 1
  {
    hide At, Number, ParseNumber, ParseString, ParseValue, ParseItems, ParseProps, ItemsOctets, FieldsOctets, LengthOctets,
      IsNumeric, IsLength, Width;
    ValueStarts(input, m, at);
    var c := input[at];
    if c in {'Z', 'N', 'T', 'F'} {
      t := Plain(c);
      AtMeans(input, at, [c]);
    } else if c == 'C' {
      t := Letter(input[at + 1]);
      AtMeans(input, at, Octets(t));
    } else if c == 'S' {
      var l, s := LengthIsRead(input, m, at + 1);
      t := Text(l, s);
      HeadAt(input, at, c, LengthOctets(l) + s);
    } else if c == '[' || c == '{' {
      t := ReadIsContainer(input, m, at, c);
    } else {
      var payload := NumericIsRead(input, m, at + 1, c);
      t := Numeric(c, payload);
      HeadAt(input, at, c, payload);
    }
  }

  lemma ThreeAt(input: string, at: nat, a: char, b: char, c: char)
    requires at + 2 < |input| && input[at] == a && input[at + 1] == b && input[at + 2] == c
    ensures At(input, at, [a, b, c])
  {
    assert input[at..at + 3] == [a, b, c];
  }

  lemma {:induction false} ReadIsContainer(input: string, m: Machine, at: nat, c: char) returns (t: Tree)
    requires at < |input| && input[at] == c && c in {'[', '{'}
    requires ParseAs(input, m, at + 1, c).Done? && ParseAs(input, m, at + 1, c).next <= |input|
    ensures IsTree(t) && At(input, at, Octets(t))
    ensures ParseAs(input, m, at + 1, c) == Expected(Denoted(t, m), at + |Octets(t)|)
    decreases |input| + 1 - at, 0
  {
    hide At, ParseItems, ParseProps, ItemsOctets, FieldsOctets;
    if Peek(input, m, at + 1) == Some('$') {
      t := Typed(c);
      ThreeAt(input, at, c, '$', if c == '[' then ']' else '}');
    } else if c == '[' {
      var items := ReadAreItems(input, m, at + 1);
      t := Items(items);
      HeadAt(input, at, c, ItemsOctets(items) + "]");
    } else {
      var fields := ReadAreFields(input, m, at + 1, []);
      t := Fields(fields);
      HeadAt(input, at, c, FieldsOctets(fields) + "}");
    }
  }

  lemma {:induction false} ReadAreItems(input: string, m: Machine, at: nat) returns (items: seq<Tree>)
    requires at <= |input| + 1 && ParseItems(input, m, at).Done? && ParseItems(input, m, at).next <= |input|
    ensures (forall x | x in items :: IsTree(x)) && At(input, at, ItemsOctets(items) + "]")
    ensures DenotedItems(items, m).Some?
    ensures ParseItems(input, m, at) == Done(DenotedItems(items, m).value, at + |ItemsOctets(items)| + 1)
    decreases |input| + 1 - at, 2
  {
    hide At, Octets, Denoted, ParseValue, IsTree, ItemsOctets;
    NoOctets();
    if Peek(input, m, at) == Some(']') {
      items := [];
      LastAt(input, at, ']');
      assert ItemsOctets([]) + "]" == [']'];
    } else {
      var t := ReadIsTree(input, m, at);
      var next := at + |Octets(t)|;
      var rest := ReadAreItems(input, m, next);
      items := [t] + rest;
      assert items[1..] == rest;
      ItemsOctetsSplit(items);
      JoinAt(input, at, Octets(t), ItemsOctets(rest) + "]");
    }
  }

  lemma NoOctets()
    ensures ItemsOctets([]) == "" && FieldsOctets([]) == ""
  {
  }

  lemma LastAt(input: string, at: nat, c: char)
    requires at < |input| && input[at] == c
    ensures At(input, at, [c])
  {
  }

  lemma {:induction false} ReadAreFields(input: string, m: Machine, at: nat, acc: seq<Property>) returns (fields: seq<Field>)
    requires at <= |input| + 1 && ParseProps(input, m, at, acc).Done? && ParseProps(input, m, at, acc).next <= |input|
    ensures forall f | f in fields :: IsLength(f.length, |f.name|) && IsTree(f.tree)
    ensures At(input, at, FieldsOctets(fields) + "}") && DenotedFields(fields, m, acc).Some?
    ensures ParseProps(input, m, at, acc) == Done(DenotedFields(fields, m, acc).value, at + |FieldsOctets(fields)| + 1)
    decreases |input| + 1 - at, 2
  {
    hide At, Octets, Denoted, ParseValue, ParseString, IsTree, IsLength, LengthOctets, FieldsOctets, AddProperty;
    NoOctets();
    if Peek(input, m, at) == Some('}') {
      fields := [];
      LastAt(input, at, '}');
      assert FieldsOctets([]) + "}" == ['}'];
    } else {
      var l, name := LengthIsRead(input, m, at);
      var next := at + |LengthOctets(l) + name|;
      var t := ReadIsTree(input, m, next);
      var end := next + |Octets(t)|;
      var more := AddProperty(acc, Property(name, Denoted(t, m).value)).value;
      var rest := ReadAreFields(input, m, end, more);
      fields := [Field(l, name, t)] + rest;
      assert fields[1..] == rest;
      FieldsOctetsSplit(fields);
      JoinAt(input, next, Octets(t), FieldsOctets(rest) + "}");
      JoinAt(input, at, LengthOctets(l) + name, Octets(t) + (FieldsOctets(rest) + "}"));
    }
  }

  /** What stands at a position is read as a value, up to a place inside the input,
      exactly when an encoding of that value stands there and ends there. */
  lemma AcceptsExactly(input: string, m: Machine, at: nat, v: Value, next: nat)
    requires next <= |input|
    ensures ParseValue(input, m, at) == Done(v, next) <==>
      exists t | IsTree(t) :: Denoted(t, m) == Some(v) && At(input, at, Octets(t)) && next == at + |Octets(t)|
  {
    hide ParseValue, IsTree, Denoted, Octets, At;
    if ParseValue(input, m, at) == Done(v, next) {
      var t := ReadIsTree(input, m, at);
    }
    if t: Tree :| IsTree(t) && Denoted(t, m) == Some(v) && At(input, at, Octets(t)) && next == at + |Octets(t)| {
      TreeIsRead(input, m, at, t);
    }
  }
}
