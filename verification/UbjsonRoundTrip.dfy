/** Decoding what was encoded: exactly the octets of the encoding are consumed, and
    the value comes back exactly when no object in it repeats a name. */
module UbjsonRoundTrip {
  import opened Basics
  import BigEndian
  import opened Ubjson

  /** The octets stand in the input at the cursor. */
  predicate At(input: string, at: nat, bytes: string) {
    at + |bytes| <= |input| && input[at..at + |bytes|] == bytes
  }

  lemma AtSplit(input: string, at: nat, a: string, b: string)
    requires At(input, at, a + b)
    ensures At(input, at, a) && At(input, at + |a|, b)
  {
    assert input[at..at + |a|] == input[at..at + |a + b|][..|a|];
    assert input[at + |a|..at + |a| + |b|] == input[at..at + |a + b|][|a|..];
  }

  lemma AtHead(input: string, at: nat, c: char, rest: string)
    requires At(input, at, [c] + rest)
    ensures at < |input| && input[at] == c && At(input, at + 1, rest)
  {
    AtSplit(input, at, [c], rest);
    assert input[at] == input[at..at + 1][0];
  }

  lemma ReadsNumber(input: string, at: nat, i: int)
    requires IntFits(i) && At(input, at, Payload(MarkerOf(i), i))
    ensures ReadInteger(input, at, MarkerOf(i)) == Done(i, at + |Payload(MarkerOf(i), i)|)
  {
    hide Number, Payload, MarkerOf;
    NumberReadsBack(i);
  }

  /** A value whose marker stands at the cursor. */
  lemma ReadsMarker(input: string, m: Machine, at: nat, c: char, rest: string)
    requires At(input, at, [c] + rest)
    ensures at < |input| && At(input, at + 1, rest) && ParseValue(input, m, at) == ParseAs(input, m, at + 1, c)
  {
    AtHead(input, at, c, rest);
  }

  lemma ReadsIntValue(input: string, m: Machine, at: nat, i: int)
    requires IntFits(i) && At(input, at, IntBytes(i))
    ensures ParseValue(input, m, at) == Done(Int(i), at + |IntBytes(i)|)
  {
    ReadsMarker(input, m, at, MarkerOf(i), Payload(MarkerOf(i), i));
    hide Payload, Number, At;
    ReadsNumber(input, at + 1, i);
  }

  lemma ReadsDoubleValue(input: string, m: Machine, at: nat, d: Float64, little: bool)
    requires At(input, at, Bytes(Double(d), little))
    ensures ParseValue(input, m, at) == Done(Double(Native(d, little)), at + |Bytes(Double(d), little)|)
  {
    hide Native;
    assert Bytes(Double(d), little) == ['D'] + Native(d, little);
    ReadsMarker(input, m, at, 'D', Native(d, little));
  }

  lemma ReadsStrValue(input: string, m: Machine, at: nat, s: string, little: bool)
    requires Encodable(Str(s)) && At(input, at, Bytes(Str(s), little))
    ensures ParseValue(input, m, at) == Done(Str(s), at + |Bytes(Str(s), little)|)
  {
    hide At, IntBytes;
    if |s| == 1 {
      assert Bytes(Str(s), little) == ['C'] + s && s == [s[0]] + "";
      ReadsMarker(input, m, at, 'C', s);
      AtHead(input, at + 1, s[0], "");
      assert s == [s[0]];
    } else {
      assert Bytes(Str(s), little) == ['S'] + NameBytes(s);
      ReadsMarker(input, m, at, 'S', NameBytes(s));
      ReadsName(input, m, at + 1, s);
    }
  }

  lemma ReadsName(input: string, m: Machine, at: nat, name: string)
    requires IntFits(|name|) && At(input, at, NameBytes(name))
    ensures ParseString(input, m, at) == Done(name, at + |NameBytes(name)|)
  {
    AtSplit(input, at, IntBytes(|name|), name);
    AtHead(input, at, MarkerOf(|name|), Payload(MarkerOf(|name|), |name|));
    ReadsNumber(input, at + 1, |name|);
  }

  /** The marker of a value is not one that ends or shapes a container. */
  lemma FirstOfValue(input: string, m: Machine, at: nat, v: Value, little: bool)
    requires Encodable(v) && At(input, at, Bytes(v, little))
    ensures Peek(input, m, at) !in {None, Some(']'), Some('$')}
  {
    AtHead(input, at, Bytes(v, little)[0], Bytes(v, little)[1..]);
  }

  lemma FirstOfName(input: string, m: Machine, at: nat, name: string)
    requires IntFits(|name|) && At(input, at, NameBytes(name))
    ensures Peek(input, m, at) !in {None, Some('}'), Some('$')}
  {
    AtSplit(input, at, IntBytes(|name|), name);
    AtHead(input, at, MarkerOf(|name|), Payload(MarkerOf(|name|), |name|));
  }

  function Expected(r: Option<Value>, next: nat): Parsed<Value> {
    match r
    case None => Failed
    case Some(x) => Done(x, next)
  }

  /** Wherever the octets of a value stand, and whatever follows them, the parser
      consumes exactly them and gives the value that Reread describes. */
  lemma {:induction false} ReadsValue(input: string, m: Machine, at: nat, v: Value, little: bool)
    requires Encodable(v) && At(input, at, Bytes(v, little))
    ensures ParseValue(input, m, at) == Expected(Reread(v, little), at + |Bytes(v, little)|)
    decreases v
  {
    hide At, IntBytes, Native, ParseNumber, ParseString, ParseValue, ParseItems, ParseProps, ItemsBytes, PropsBytes, Peek;
    match v {
      case List(items) =>
        assert Bytes(v, little) == ['['] + (ItemsBytes(items, little) + "]");
        ReadsMarker(input, m, at, '[', ItemsBytes(items, little) + "]");
        ReadsItems(input, m, at + 1, items, little);
      case Obj(props) =>
        assert Bytes(v, little) == ['{'] + (PropsBytes(props, little) + "}");
        ReadsMarker(input, m, at, '{', PropsBytes(props, little) + "}");
        ReadsProps(input, m, at + 1, props, [], little);
      case _ => ReadsLeaf(input, m, at, v, little);
    }
  }

  lemma ReadsLeaf(input: string, m: Machine, at: nat, v: Value, little: bool)
    requires Encodable(v) && At(input, at, Bytes(v, little)) && !v.List? && !v.Obj?
    ensures ParseValue(input, m, at) == Expected(Reread(v, little), at + |Bytes(v, little)|)
  {
    hide At, IntBytes, Native, ParseNumber, ParseString, ParseValue, ItemsBytes, PropsBytes, Peek;
    match v {
      case Null =>
        assert Bytes(v, little) == ['Z'] + "";
        ReadsMarker(input, m, at, 'Z', "");
      case Bool(b) =>
        assert Bytes(v, little) == [if b then 'T' else 'F'] + "";
        ReadsMarker(input, m, at, if b then 'T' else 'F', "");
      case Int(i) => ReadsIntValue(input, m, at, i);
      case Double(d) => ReadsDoubleValue(input, m, at, d, little);
      case Str(s) => ReadsStrValue(input, m, at, s, little);
    }
  }

  lemma {:induction false} ReadsItems(input: string, m: Machine, at: nat, items: seq<Value>, little: bool)
    requires (forall x | x in items :: Encodable(x)) && At(input, at, ItemsBytes(items, little) + "]")
    ensures Peek(input, m, at) != Some('$')
    ensures ParseItems(input, m, at)
      == match RereadItems(items, little)
         case None => Failed
         case Some(xs) => Done(xs, at + |ItemsBytes(items, little)| + 1)
    decreases items
  {
    hide At, Peek, Bytes, ItemsBytes, Reread, RereadItems, ParseValue, ParseItems;
    if items == [] {
      ItemsEnd(input, m, at, little);
    } else {
      var head, tail := Bytes(items[0], little), ItemsBytes(items[1..], little);
      ItemsBytesSplit(items, little);
      AtSplit(input, at, head, tail + "]");
      FirstOfValue(input, m, at, items[0], little);
      ReadsValue(input, m, at, items[0], little);
      ItemStep(input, m, at, items, at + |head|, little);
      ReadsItems(input, m, at + |head|, items[1..], little);
    }
  }

  lemma ItemsEnd(input: string, m: Machine, at: nat, little: bool)
    requires At(input, at, ItemsBytes([], little) + "]")
    ensures Peek(input, m, at) == Some(']') && ParseItems(input, m, at) == Done([], at + 1)
    ensures RereadItems([], little) == Some([]) && ItemsBytes([], little) == ""
  {
    assert ItemsBytes([], little) + "]" == [']'] + "";
    AtHead(input, at, ']', "");
  }

  lemma ItemsBytesSplit(items: seq<Value>, little: bool)
    requires items != [] && forall x | x in items :: Encodable(x)
    ensures ItemsBytes(items, little) + "]" == Bytes(items[0], little) + (ItemsBytes(items[1..], little) + "]")
    ensures |ItemsBytes(items, little)| == |Bytes(items[0], little)| + |ItemsBytes(items[1..], little)|
  {
    hide Bytes;
  }

  /** One item of a list, likewise. */
  lemma ItemStep(input: string, m: Machine, at: nat, items: seq<Value>, end: nat, little: bool)
    requires items != [] && at <= |input| && Peek(input, m, at) != Some(']')
    requires ParseValue(input, m, at) == Expected(Reread(items[0], little), end)
    ensures Reread(items[0], little) == None ==> ParseItems(input, m, at) == Failed && RereadItems(items, little) == None
    ensures Reread(items[0], little).Some? ==>
      && end <= |input| + 1
      && ParseItems(input, m, at)
         == (match ParseItems(input, m, end)
             case Failed => Failed
             case Done(rest, after) => Done([Reread(items[0], little).value] + rest, after))
      && RereadItems(items, little)
         == (match RereadItems(items[1..], little)
             case None => None
             case Some(rest) => Some([Reread(items[0], little).value] + rest))
  {
    hide Peek, ParseValue, Reread;
  }

  /** One property of an object: what the parser does with it, and what Reread
      makes of it. */
  lemma PropertyStep(input: string, m: Machine, at: nat, props: seq<Property>, acc: seq<Property>, next: nat, end: nat, little: bool)
    requires props != [] && at <= |input| && Peek(input, m, at) != Some('}')
    requires ParseString(input, m, at) == Done(props[0].name, next)
    requires ParseValue(input, m, next) == Expected(Reread(props[0].value, little), end)
    ensures Reread(props[0].value, little) == None ==> ParseProps(input, m, at, acc) == Failed && RereadProps(props, acc, little) == None
    ensures Reread(props[0].value, little).Some? ==>
      match AddProperty(acc, Property(props[0].name, Reread(props[0].value, little).value))
      case None => ParseProps(input, m, at, acc) == Failed && RereadProps(props, acc, little) == None
      case Some(more) =>
        && end <= |input| + 1
        && ParseProps(input, m, at, acc) == ParseProps(input, m, end, more)
        && RereadProps(props, acc, little) == RereadProps(props[1..], more, little)
  {
    hide Peek, ParseString, ParseValue, Reread, AddProperty;
  }

  lemma {:induction false} ReadsProps(input: string, m: Machine, at: nat, props: seq<Property>, acc: seq<Property>, little: bool)
    requires (forall p | p in props :: IntFits(|p.name|) && Encodable(p.value)) && At(input, at, PropsBytes(props, little) + "}")
    ensures Peek(input, m, at) != Some('$')
    ensures ParseProps(input, m, at, acc)
      == match RereadProps(props, acc, little)
         case None => Failed
         case Some(ps) => Done(ps, at + |PropsBytes(props, little)| + 1)
    decreases props
  {
    hide At, Peek, Bytes, NameBytes, PropsBytes, Reread, RereadProps, AddProperty, ParseValue, ParseString, ParseProps;
    if props == [] {
      PropertiesEnd(input, m, at, acc, little);
    } else {
      var p := props[0];
      var name, value, tail := NameBytes(p.name), Bytes(p.value, little), PropsBytes(props[1..], little);
      PropsBytesSplit(props, little);
      AtSplit(input, at, name, value + (tail + "}"));
      AtSplit(input, at + |name|, value, tail + "}");
      FirstOfName(input, m, at, p.name);
      ReadsName(input, m, at, p.name);
      ReadsValue(input, m, at + |name|, p.value, little);
      PropertyStep(input, m, at, props, acc, at + |name|, at + |name| + |value|, little);
      if Reread(p.value, little).Some? && AddProperty(acc, Property(p.name, Reread(p.value, little).value)).Some? {
        var more := AddProperty(acc, Property(p.name, Reread(p.value, little).value)).value;
        ReadsProps(input, m, at + |name| + |value|, props[1..], more, little);
      }
    }
  }

  lemma PropertiesEnd(input: string, m: Machine, at: nat, acc: seq<Property>, little: bool)
    requires At(input, at, PropsBytes([], little) + "}")
    ensures Peek(input, m, at) == Some('}') && ParseProps(input, m, at, acc) == Done(acc, at + 1)
    ensures RereadProps([], acc, little) == Some(acc) && PropsBytes([], little) == ""
  {
    assert PropsBytes([], little) + "}" == ['}'] + "";
    AtHead(input, at, '}', "");
  }

  lemma PropsBytesSplit(props: seq<Property>, little: bool)
    requires props != [] && forall p | p in props :: IntFits(|p.name|) && Encodable(p.value)
    ensures PropsBytes(props, little) + "}"
      == NameBytes(props[0].name) + (Bytes(props[0].value, little) + (PropsBytes(props[1..], little) + "}"))
    ensures |PropsBytes(props, little)| == |NameBytes(props[0].name)| + |Bytes(props[0].value, little)| + |PropsBytes(props[1..], little)|
  {
    hide NameBytes, Bytes;
  }

  // ---- round trips

  predicate Distinct(props: seq<Property>) {
    && (forall i, j | 0 <= i < j < |props| :: props[i].name != props[j].name)
    && (forall i | 0 <= i < |props| :: props[i].name != META)
  }

  /** No object of the value names a property twice or names one `_meta_`. */
  predicate Canonical(v: Value) {
    match v
    case List(items) => forall x | x in items :: Canonical(x)
    case Obj(props) => Distinct(props) && forall p | p in props :: Canonical(p.value)
    case _ => true
  }

  lemma {:induction false} SetNewAppends(props: seq<Property>, p: Property)
    requires forall q | q in props :: q.name != p.name
    ensures SetProperty(props, p) == props + [p]
  {
    if props != [] {
      SetNewAppends(props[1..], p);
    }
  }

  lemma {:induction false} SetMembers(props: seq<Property>, p: Property)
    ensures forall q | q in SetProperty(props, p) :: q == p || q in props
  {
    if props != [] && props[0].name != p.name {
      SetMembers(props[1..], p);
    }
  }

  lemma {:induction false} SetKeepsDistinct(props: seq<Property>, p: Property)
    requires Distinct(props) && p.name != META
    ensures Distinct(SetProperty(props, p))
  {
    if props != [] && props[0].name != p.name {
      var rest := SetProperty(props[1..], p);
      SetKeepsDistinct(props[1..], p);
      SetMembers(props[1..], p);
      forall j | 0 <= j < |rest|
        ensures rest[j].name != props[0].name
      {
        assert rest[j] in rest;
        if rest[j] != p {
          var k :| 0 <= k < |props[1..]| && props[1..][k] == rest[j];
          assert props[k + 1] == rest[j];
        }
      }
      OneInFront(props[0], rest);
    }
  }

  lemma OneInFront(p: Property, rest: seq<Property>)
    requires Distinct(rest) && p.name != META && forall j | 0 <= j < |rest| :: rest[j].name != p.name
    ensures Distinct([p] + rest)
  {
  }

  lemma SameNames(a: seq<Property>, b: seq<Property>)
    requires |a| == |b| && forall i | 0 <= i < |a| :: a[i].name == b[i].name
    ensures Distinct(a) <==> Distinct(b)
  {
  }

  /** The value as a reader sees it: its doubles are what the writing machine's order
      of their octets makes of them. */
  function Turned(v: Value, little: bool): Value
    decreases v
  {
    match v
    case List(items) => List(TurnedItems(items, little))
    case Obj(props) => Obj(TurnedProps(props, little))
    case Double(d) => Double(Native(d, little))
    case _ => v
  }

  function TurnedItems(items: seq<Value>, little: bool): (r: seq<Value>)
    ensures |r| == |items|
    decreases items
  {
    if items == [] then [] else [Turned(items[0], little)] + TurnedItems(items[1..], little)
  }

  function TurnedProps(props: seq<Property>, little: bool): (r: seq<Property>)
    ensures |r| == |props|
    decreases props
  {
    if props == [] then []
    else [Property(props[0].name, Turned(props[0].value, little))] + TurnedProps(props[1..], little)
  }

  /** Every double of the value reads the same in both orders, or the writing machine
      is big-endian. */
  predicate Symmetric(v: Value, little: bool) {
    match v
    case List(items) => forall x | x in items :: Symmetric(x, little)
    case Obj(props) => forall p | p in props :: Symmetric(p.value, little)
    case Double(d) => Native(d, little) == d
    case _ => true
  }

  lemma {:induction false} TurnedExactlyWhen(v: Value, little: bool)
    ensures Turned(v, little) == v <==> Symmetric(v, little)
    decreases v
  {
    match v {
      case List(items) => ItemsTurnedExactlyWhen(items, little);
      case Obj(props) => PropsTurnedExactlyWhen(props, little);
      case _ =>
    }
  }

  lemma {:induction false} ItemsTurnedExactlyWhen(items: seq<Value>, little: bool)
    ensures TurnedItems(items, little) == items <==> forall x | x in items :: Symmetric(x, little)
    decreases items
  {
    hide Turned, Symmetric;
    if items != [] {
      TurnedExactlyWhen(items[0], little);
      ItemsTurnedExactlyWhen(items[1..], little);
      SameHeads(Turned(items[0], little), TurnedItems(items[1..], little), items);
    }
  }

  lemma SameHeads<T>(x: T, rest: seq<T>, s: seq<T>)
    requires s != []
    ensures [x] + rest == s <==> x == s[0] && rest == s[1..]
    ensures s == [s[0]] + s[1..]
  {
    if [x] + rest == s {
      assert rest == ([x] + rest)[1..];
    }
  }

  lemma {:induction false} PropsTurnedExactlyWhen(props: seq<Property>, little: bool)
    ensures TurnedProps(props, little) == props <==> forall p | p in props :: Symmetric(p.value, little)
    decreases props
  {
    hide Turned, Symmetric;
    if props != [] {
      TurnedExactlyWhen(props[0].value, little);
      PropsTurnedExactlyWhen(props[1..], little);
      SameHeads(Property(props[0].name, Turned(props[0].value, little)), TurnedProps(props[1..], little), props);
    }
  }

  lemma {:induction false} TurnedTwice(v: Value, little: bool)
    ensures Turned(Turned(v, little), little) == v
    decreases v
  {
    match v {
      case List(items) => ItemsTurnedTwice(items, little);
      case Obj(props) => PropsTurnedTwice(props, little);
      case Double(d) => NativeTwice(d, little);
      case _ =>
    }
  }

  lemma {:induction false} ItemsTurnedTwice(items: seq<Value>, little: bool)
    ensures TurnedItems(TurnedItems(items, little), little) == items
    decreases items
  {
    hide Turned;
    if items != [] {
      TurnedTwice(items[0], little);
      ItemsTurnedTwice(items[1..], little);
      assert TurnedItems(items, little)[1..] == TurnedItems(items[1..], little);
    }
  }

  lemma {:induction false} PropsTurnedTwice(props: seq<Property>, little: bool)
    ensures TurnedProps(TurnedProps(props, little), little) == props
    decreases props
  {
    hide Turned;
    if props != [] {
      TurnedTwice(props[0].value, little);
      PropsTurnedTwice(props[1..], little);
      assert TurnedProps(props, little)[1..] == TurnedProps(props[1..], little);
    }
  }

  lemma {:induction false} CanonicalRereads(v: Value, little: bool)
    requires Canonical(v)
    ensures Reread(v, little) == Some(Turned(v, little))
    decreases v
  {
    match v {
      case List(items) => ItemsReread(items, little);
      case Obj(props) =>
        assert [] + props == props && [] + TurnedProps(props, little) == TurnedProps(props, little);
        PropsReread(props, [], little);
      case _ =>
    }
  }

  lemma {:induction false} ItemsReread(items: seq<Value>, little: bool)
    requires forall x | x in items :: Canonical(x)
    ensures RereadItems(items, little) == Some(TurnedItems(items, little))
    decreases items
  {
    if items != [] {
      CanonicalRereads(items[0], little);
      ItemsReread(items[1..], little);
    }
  }

  lemma {:induction false} PropsReread(props: seq<Property>, acc: seq<Property>, little: bool)
    requires Distinct(acc + props) && forall p | p in props :: Canonical(p.value)
    ensures RereadProps(props, acc, little) == Some(acc + TurnedProps(props, little))
    decreases props
  {
    hide Turned, Canonical, Reread, SetProperty;
    if props == [] {
      assert acc + TurnedProps(props, little) == acc;
    } else {
      var p := Property(props[0].name, Turned(props[0].value, little));
      CanonicalRereads(props[0].value, little);
      assert (acc + props)[|acc|] == props[0];
      forall q | q in acc
        ensures q.name != p.name
      {
        var i :| 0 <= i < |acc| && acc[i] == q;
        assert (acc + props)[i] == q;
      }
      SetNewAppends(acc, p);
      SameNames(acc + props, acc + [p] + props[1..]);
      PropsReread(props[1..], acc + [p], little);
      assert acc + [p] + TurnedProps(props[1..], little) == acc + TurnedProps(props, little);
    }
  }

  lemma {:induction false} RereadIsCanonical(v: Value, little: bool)
    ensures Reread(v, little).Some? ==> Canonical(Reread(v, little).value)
    decreases v
  {
    match v {
      case List(items) => ItemsAreCanonical(items, little);
      case Obj(props) => PropsAreCanonical(props, [], little);
      case _ =>
    }
  }

  lemma {:induction false} ItemsAreCanonical(items: seq<Value>, little: bool)
    ensures RereadItems(items, little).Some? ==> forall x | x in RereadItems(items, little).value :: Canonical(x)
    decreases items
  {
    if items != [] {
      RereadIsCanonical(items[0], little);
      ItemsAreCanonical(items[1..], little);
    }
  }

  lemma {:induction false} PropsAreCanonical(props: seq<Property>, acc: seq<Property>, little: bool)
    requires Canonical(Obj(acc))
    ensures RereadProps(props, acc, little).Some? ==> Canonical(Obj(RereadProps(props, acc, little).value))
    decreases props
  {
    if props != [] && Reread(props[0].value, little).Some? {
      var p := Property(props[0].name, Reread(props[0].value, little).value);
      RereadIsCanonical(props[0].value, little);
      AddKeepsCanonical(acc, p);
      if AddProperty(acc, p).Some? {
        PropsAreCanonical(props[1..], AddProperty(acc, p).value, little);
      }
    }
  }

  lemma AddKeepsCanonical(acc: seq<Property>, p: Property)
    requires Canonical(Obj(acc)) && Canonical(p.value)
    ensures AddProperty(acc, p).Some? ==> Canonical(Obj(AddProperty(acc, p).value))
  {
    if p.name != META {
      SetKeepsDistinct(acc, p);
      SetMembers(acc, p);
    }
  }

  /** Decoding an encoding gives the value back exactly when no object in it
      repeats a name or uses `_meta_` and the writing machine's order of octets does
      not show in its doubles. */
  lemma {:induction false} RoundTripExactlyWhen(v: Value, m: Machine, little: bool)
    requires Encodable(v)
    ensures ParseValue(Bytes(v, little), m, 0) == Done(v, |Bytes(v, little)|) <==> Canonical(v) && Symmetric(v, little)
  {
    hide Canonical, Symmetric, Turned, Bytes, Reread, ParseValue;
    assert Bytes(v, little)[0..|Bytes(v, little)|] == Bytes(v, little);
    ReadsValue(Bytes(v, little), m, 0, v, little);
    RereadIsCanonical(v, little);
    TurnedExactlyWhen(v, little);
    if Canonical(v) {
      CanonicalRereads(v, little);
    }
  }

  /** What a big-endian machine writes always comes back. */
  lemma {:induction false} BigEndianIsSymmetric(v: Value)
    ensures Symmetric(v, false)
  {
    match v {
      case List(items) =>
        forall x | x in items
          ensures Symmetric(x, false)
        {
          BigEndianIsSymmetric(x);
        }
      case Obj(props) =>
        forall p | p in props
          ensures Symmetric(p.value, false)
        {
          BigEndianIsSymmetric(p.value);
        }
      case _ =>
    }
  }

  /** What a little-endian machine writes comes back exactly when the octets of each
      double are the same from both ends. */
  lemma LittleEndianExactlyWhen(d: Float64)
    ensures Symmetric(Double(d), true) <==> d[0] == d[7] && d[1] == d[6] && d[2] == d[5] && d[3] == d[4]
  {
    if d[0] == d[7] && d[1] == d[6] && d[2] == d[5] && d[3] == d[4] {
      assert Swapped(d) == d;
    } else {
      assert Swapped(d)[0] == d[7] && Swapped(d)[1] == d[6] && Swapped(d)[2] == d[5] && Swapped(d)[3] == d[4];
    }
  }

  /** Whatever surrounds the encoding, exactly its octets are consumed. */
  lemma {:induction false} ConsumesExactly(before: string, v: Value, after: string, m: Machine, little: bool)
    requires Encodable(v) && Canonical(v)
    ensures ParseValue(before + Bytes(v, little) + after, m, |before|)
      == Done(Turned(v, little), |before| + |Bytes(v, little)|)
  {
    hide Canonical, Turned, Bytes, Reread, ParseValue, Encodable;
    ReadsValue(before + Bytes(v, little) + after, m, |before|, v, little);
    CanonicalRereads(v, little);
  }

  /** No encoding is a proper prefix of another. */
  lemma {:induction false} PrefixFree(v: Value, w: Value, little: bool)
    requires Encodable(v) && Encodable(w) && Canonical(v) && Canonical(w) && Bytes(v, little) <= Bytes(w, little)
    ensures v == w
  {
    hide Bytes, ParseValue, Canonical, Encodable, Turned;
    var rest := Bytes(w, little)[|Bytes(v, little)|..];
    var m := Machine(' ', s => "--------");
    assert "" + Bytes(v, little) + rest == Bytes(w, little) && "" + Bytes(w, little) + "" == Bytes(w, little);
    ConsumesExactly("", v, rest, m, little);
    ConsumesExactly("", w, "", m, little);
    TurnedTwice(v, little);
    TurnedTwice(w, little);
  }

  /** Every value the parser makes, of any input, is canonical. */
  lemma {:induction false} ParsedIsCanonical(input: string, m: Machine, at: nat)
    ensures ParseValue(input, m, at).Done? ==> Canonical(ParseValue(input, m, at).value)
    decreases |input| + 1 - at, 1
  {
    if at <= |input| {
      ParsedAsIsCanonical(input, m, at + 1, Peek(input, m, at).value);
    }
  }

  lemma {:induction false} ParsedAsIsCanonical(input: string, m: Machine, at: nat, c: char)
    requires at <= |input| + 1
    ensures ParseAs(input, m, at, c).Done? ==> Canonical(ParseAs(input, m, at, c).value)
    decreases |input| + 1 - at, 4
  {
    if c == '[' {
      ParsedItemsAreCanonical(input, m, at);
    } else if c == '{' {
      ParsedPropsAreCanonical(input, m, at, []);
    }
  }

  lemma {:induction false} ParsedItemsAreCanonical(input: string, m: Machine, at: nat)
    requires at <= |input| + 1
    ensures ParseItems(input, m, at).Done? ==> forall x | x in ParseItems(input, m, at).value :: Canonical(x)
    decreases |input| + 1 - at, 3
  {
    if Peek(input, m, at) != Some(']') {
      ParsedIsCanonical(input, m, at);
      if ParseValue(input, m, at).Done? {
        ParsedItemsAreCanonical(input, m, ParseValue(input, m, at).next);
      }
    }
  }

  lemma {:induction false} ParsedPropsAreCanonical(input: string, m: Machine, at: nat, props: seq<Property>)
    requires at <= |input| + 1 && Canonical(Obj(props))
    ensures ParseProps(input, m, at, props).Done? ==> Canonical(Obj(ParseProps(input, m, at, props).value))
    decreases |input| + 1 - at, 3
  {
    hide Canonical, AddProperty;
    if Peek(input, m, at) != Some('}') && ParseString(input, m, at).Done? {
      var name, next := ParseString(input, m, at).value, ParseString(input, m, at).next;
      ParsedIsCanonical(input, m, next);
      if ParseValue(input, m, next).Done? {
        var p := Property(name, ParseValue(input, m, next).value);
        AddKeepsCanonical(props, p);
        if AddProperty(props, p).Some? {
          ParsedPropsAreCanonical(input, m, ParseValue(input, m, next).next, AddProperty(props, p).value);
        }
      }
    }
  }

  /** What decoding ever gives survives encoding and decoding, but for the doubles
      that the writing machine turns round. */
  lemma {:induction false} DecodedComesBack(input: string, m: Machine, at: nat, v: Value, little: bool)
    requires ParseValue(input, m, at).Done? && ParseValue(input, m, at).value == v && Encodable(v)
    ensures ParseValue(Bytes(v, little), m, 0) == Done(Turned(v, little), |Bytes(v, little)|)
    ensures Turned(v, little) == v <==> Symmetric(v, little)
  {
    hide Bytes, Canonical, Encodable, ParseValue, Turned, Symmetric;
    ParsedIsCanonical(input, m, at);
    assert "" + Bytes(v, little) + "" == Bytes(v, little);
    ConsumesExactly("", v, "", m, little);
    TurnedExactlyWhen(v, little);
  }

  lemma {:induction false} RereadConcat(a: seq<Property>, b: seq<Property>, acc: seq<Property>, little: bool)
    ensures RereadProps(a + b, acc, little)
      == match RereadProps(a, acc, little)
         case None => None
         case Some(more) => RereadProps(b, more, little)
    decreases a
  {
    hide Reread, AddProperty;
    if a == [] {
      assert a + b == b;
    } else {
      assert (a + b)[0] == a[0] && (a + b)[1..] == a[1..] + b;
      if Reread(a[0].value, little).Some? {
        var p := Property(a[0].name, Reread(a[0].value, little).value);
        if AddProperty(acc, p).Some? {
          RereadConcat(a[1..], b, AddProperty(acc, p).value, little);
        }
      }
    }
  }

  lemma {:induction false} TurnedPropsConcat(a: seq<Property>, b: seq<Property>, little: bool)
    ensures TurnedProps(a + b, little) == TurnedProps(a, little) + TurnedProps(b, little)
    ensures forall i | 0 <= i < |a| :: TurnedProps(a, little)[i].name == a[i].name
    decreases a
  {
    hide Turned;
    if a == [] {
      assert a + b == b;
    } else {
      assert (a + b)[0] == a[0] && (a + b)[1..] == a[1..] + b;
      TurnedPropsConcat(a[1..], b, little);
    }
  }

  /** One `_meta_` among the properties: an object there is taken and does not show among
      the properties, and anything else, or one that does not decode, is refused. */
  lemma {:induction false} MetaExactlyWhen(a: seq<Property>, x: Value, b: seq<Property>, m: Machine, little: bool)
    requires Encodable(Obj(a + [Property(META, x)] + b)) && Canonical(Obj(a + b))
    ensures var v := Obj(a + [Property(META, x)] + b);
      ParseValue(Bytes(v, little), m, 0)
      == if x.Obj? && Reread(x, little).Some? then Done(Turned(Obj(a + b), little), |Bytes(v, little)|) else Failed
  {
    hide Canonical, Encodable, Bytes, ParseValue, RereadProps, TurnedProps;
    var p := Property(META, x);
    var v := Obj(a + [p] + b);
    assert Bytes(v, little)[0..|Bytes(v, little)|] == Bytes(v, little);
    ReadsValue(Bytes(v, little), m, 0, v, little);
    RereadConcat(a + [p], b, [], little);
    RereadConcat(a, [p], [], little);
    PartsReread(a, b, little);
    OneMeta(x, TurnedProps(a, little), little);
    TurnedPropsConcat(a, b, little);
  }

  lemma OneMeta(x: Value, acc: seq<Property>, little: bool)
    ensures RereadProps([Property(META, x)], acc, little)
      == if x.Obj? && Reread(x, little).Some? then Some(acc) else None
  {
    assert [Property(META, x)][1..] == [];
  }

  lemma CanonicalParts(a: seq<Property>, b: seq<Property>)
    requires Canonical(Obj(a + b))
    ensures Distinct(a) && Distinct(a + b)
    ensures (forall p | p in a :: Canonical(p.value)) && (forall p | p in b :: Canonical(p.value))
  {
    var all := a + b;
    assert forall i | 0 <= i < |a| :: all[i] == a[i];
    assert forall i | 0 <= i < |b| :: all[|a| + i] == b[i];
    assert forall q | q in a || q in b :: q in all;
  }

  lemma PartsReread(a: seq<Property>, b: seq<Property>, little: bool)
    requires Canonical(Obj(a + b))
    ensures RereadProps(a, [], little) == Some(TurnedProps(a, little))
    ensures RereadProps(b, TurnedProps(a, little), little) == Some(TurnedProps(a, little) + TurnedProps(b, little))
  {
    hide RereadProps, TurnedProps, Canonical, Distinct;
    CanonicalParts(a, b);
    assert [] + a == a && [] + TurnedProps(a, little) == TurnedProps(a, little);
    PropsReread(a, [], little);
    TurnedPropsConcat(a, b, little);
    SameNames(a + b, TurnedProps(a, little) + b);
    PropsReread(b, TurnedProps(a, little), little);
  }

  /** The octets of a repeated property name decode to fewer properties. */
  lemma RepeatedNameIsLost(little: bool)
    ensures var v := Obj([Property("a", Null), Property("a", Bool(true))]);
      Encodable(v) && Reread(v, little) == Some(Obj([Property("a", Bool(true))]))
  {
    var first, second := Property("a", Null), Property("a", Bool(true));
    assert SetProperty([first], second) == [second];
    assert [first, second][1..] == [second] && [second][1..] == [];
    assert RereadProps([], [second], little) == Some([second]);
    assert RereadProps([second], [first], little) == Some([second]);
    assert RereadProps([first, second], [], little) == Some([second]);
  }

  // ---- containers with a type or a count

  /** Of the lists and objects that state a type only the empty ones are read, and those
      that state a count never are. */
  lemma ShapedContainers(input: string, m: Machine, at: nat, open: char, close: char)
    requires at + 2 < |input| && input[at] == open && ((open == '[' && close == ']') || (open == '{' && close == '}'))
    ensures input[at + 1] == '$' ==>
      ParseValue(input, m, at)
      == if input[at + 2] == close then Done(if open == '[' then List([]) else Obj([]), at + 3) else Failed
    ensures input[at + 1] == '#' ==> ParseValue(input, m, at) == Failed
  {
    hide ReadInteger, ParseNumber, ParseString, ParseItems, ParseProps, Peek, ParseLength;
    Inside(input, m, at);
    Inside(input, m, at + 1);
    Inside(input, m, at + 2);
    assert ParseValue(input, m, at) == ParseAs(input, m, at + 1, open);
    if input[at + 1] == '#' {
      CountIsNoItem(input, m, at + 1);
    }
    if open == '[' {
      assert input[at + 1] == '$' ==> ArrayAt(input, m, at + 1) == if input[at + 2] == ']' then Done([], at + 3) else Failed;
      assert input[at + 1] == '#' ==> ArrayAt(input, m, at + 1) == Failed;
    } else {
      assert input[at + 1] == '$' ==> ObjectAt(input, m, at + 1) == if input[at + 2] == '}' then Done([], at + 3) else Failed;
      assert input[at + 1] == '#' ==> ObjectAt(input, m, at + 1) == Failed;
    }
  }

  lemma Inside(input: string, m: Machine, at: nat)
    requires at < |input|
    ensures Peek(input, m, at) == Some(input[at])
  {
  }

  lemma CountIsNoItem(input: string, m: Machine, at: nat)
    requires at < |input| && input[at] == '#'
    ensures ParseItems(input, m, at) == Failed && ParseProps(input, m, at, []) == Failed
  {
    hide ReadInteger, ParseNumber, Peek, ArrayAt, ObjectAt;
    Inside(input, m, at);
    assert ParseAs(input, m, at + 1, '#') == Failed;
    assert ParseValue(input, m, at) == Failed;
    assert ParseLength(input, m, at) == Failed;
  }

  // ---- integers take the least room

  predicate IsOctets(s: string) {
    forall i | 0 <= i < |s| :: s[i] as int < 256
  }

  lemma {:induction false} DecodeBound(s: string)
    requires IsOctets(s)
    ensures BigEndian.Decode(s) < BigEndian.Pow256(|s|)
  {
    if s != "" {
      DecodeBound(s[..|s| - 1]);
    }
  }

  const WORD := 0x1_0000_0000_0000_0000

  /** The source's test that `d` octets are left: the length is made unsigned and the
      sum wraps around. */
  predicate BoundHolds(cursor: nat, d: int, size: nat) {
    (cursor + d % WORD) % WORD <= size
  }

  lemma BoundExactlyWhen(cursor: nat, d: int, size: nat)
    requires cursor <= size < WORD / 2 && -WORD / 2 <= d < WORD / 2
    ensures BoundHolds(cursor, d, size) <==> 0 <= cursor + d <= size
  {
  }

  lemma IntegerBound(input: string, at: nat, marker: char)
    requires IsOctets(input) && marker in {'i', 'U', 'I', 'l'} && ReadInteger(input, at, marker).Done?
    ensures -WORD / 2 <= ReadInteger(input, at, marker).value < WORD / 2
  {
    var w := Width(marker);
    DecodeBound(input[at..at + w]);
    Powers(w);
  }

  /** The 64-bit test accepts the lengths that this parser accepts, except that it also
      accepts a negative length no larger than the octets already read. */
  lemma LengthTestExactlyWhen(input: string, m: Machine, at: nat, d: int, next: nat)
    requires IsOctets(input) && |input| < WORD / 2 && Peek(input, m, at).Some?
    requires Peek(input, m, at).value in {'i', 'U', 'I', 'l'}
    requires ReadInteger(input, at + 1, Peek(input, m, at).value) == Done(d, next)
    ensures (BoundHolds(next, d, |input|) <==> ParseString(input, m, at).Done?) <==> d >= 0 || next + d < 0
  {
    hide BoundHolds, IsOctets, Number;
    IntegerBound(input, at + 1, Peek(input, m, at).value);
    BoundExactlyWhen(next, d, |input|);
  }

  /** The octets of an integer: the marker of the smallest of four types that holds it,
      and the number modulo the range of that type, most significant octet first. */
  lemma IntegerOctets(i: int)
    requires IntFits(i)
    ensures var s := IntBytes(i);
      if -128 <= i <= 127 then |s| == 2 && s[0] == 'i' && s[1] as int == i % 256
      else if 128 <= i <= 255 then |s| == 2 && s[0] == 'U' && s[1] as int == i
      else if -32768 <= i <= 32767 then
        |s| == 3 && s[0] == 'I' && 256 * s[1] as int + s[2] as int == i % 65536
      else
        |s| == 5 && s[0] == 'l'
        && 16777216 * s[1] as int + 65536 * s[2] as int + 256 * s[3] as int + s[4] as int == i % 4294967296
  {
    var w := Width(MarkerOf(i));
    Powers(w);
    var n: nat := i % BigEndian.Pow256(w);
    var s := BigEndian.Encode(n, w);
    EncodeOctets(n, w);
  }

  lemma EncodeOctets(n: nat, w: nat)
    requires w == 1 || w == 2 || w == 4
    requires n < BigEndian.Pow256(w)
    ensures var s := BigEndian.Encode(n, w);
      && (w == 1 ==> s[0] as int == n)
      && (w == 2 ==> 256 * s[0] as int + s[1] as int == n)
      && (w == 4 ==> 16777216 * s[0] as int + 65536 * s[1] as int + 256 * s[2] as int + s[3] as int == n)
  {
    Powers(w);
    BigEndian.RoundTrip(n, w);
    DecodeOctets(BigEndian.Encode(n, w));
  }

  lemma DecodeOctets(s: string)
    ensures |s| == 1 ==> BigEndian.Decode(s) == s[0] as int
    ensures |s| == 2 ==> BigEndian.Decode(s) == 256 * s[0] as int + s[1] as int
    ensures |s| == 4 ==> BigEndian.Decode(s) == 16777216 * s[0] as int + 65536 * s[1] as int + 256 * s[2] as int + s[3] as int
  {
    if |s| == 2 || |s| == 4 {
      DecodeOne(s);
      DecodeOne(s[..|s| - 1]);
      if |s| == 4 {
        DecodeOctets(s[..2]);
        assert s[..3][..2] == s[..2];
      }
    }
  }

  lemma DecodeOne(s: string)
    requires s != ""
    ensures BigEndian.Decode(s) == BigEndian.Decode(s[..|s| - 1]) * 256 + s[|s| - 1] as int
  {
  }

  /** Any octets that the parser reads as an integer are at least as many as the
      writer uses for it. */
  lemma ShortestInteger(input: string, m: Machine, at: nat, i: int, next: nat)
    requires IsOctets(input) && IntFits(i) && ParseValue(input, m, at) == Done(Int(i), next)
    ensures next - at >= |IntBytes(i)|
  {
    var w := Width(input[at]);
    var payload := input[at + 1..at + 1 + w];
    DecodeBound(payload);
    Powers(w);
  }
}
