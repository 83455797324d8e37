/** The UBJSON codec: what the writer emits for a value, what the parser makes of
    any input, and how the two fit. */
module Ubjson {
  import opened Basics
  import BigEndian

  /** A double by the eight octets of its number, most significant first. */
  type Float64 = s: string | |s| == 8 witness "--------"

  datatype Value =
    | Null
    | Bool(b: bool)
    | Int(i: int)
    | Double(d: Float64)
    | Str(s: string)
    | List(items: seq<Value>)
    | Obj(props: seq<Property>)

  datatype Property = Property(name: string, value: Value)

  const META := "_meta_"

  // ---- integers

  /** Payload octets behind a numeric marker. */
  function Width(marker: char): (w: nat)
    ensures w <= 8
  {
    match marker
    case 'i' => 1
    case 'U' => 1
    case 'I' => 2
    case 'l' => 4
    case 'L' => 8
    case 'd' => 4
    case 'D' => 8
    case _ => 0
  }

  /** The writer's choice; anything outside these ranges makes it throw. */
  function MarkerOf(i: int): (marker: char)
    requires IntFits(i)
  {
    if -128 <= i <= 127 then 'i'
    else if 0 <= i <= 255 then 'U'
    else if -32768 <= i <= 32767 then 'I'
    else 'l'
  }

  predicate IntFits(i: int) {
    -2147483647 <= i <= 2147483647
  }

  /** The number that a marker and its payload stand for. */
  function Number(marker: char, payload: string): int {
    var u := BigEndian.Decode(payload);
    var all := BigEndian.Pow256(|payload|);
    if marker != 'U' && 2 * u >= all then u - all else u
  }

  function Payload(marker: char, i: int): (s: string)
    ensures |s| == Width(marker)
  {
    BigEndian.Encode(i % BigEndian.Pow256(Width(marker)), Width(marker))
  }

  function IntBytes(i: int): (s: string)
    requires IntFits(i)
  {
    [MarkerOf(i)] + Payload(MarkerOf(i), i)
  }

  lemma Powers(w: nat)
    ensures w == 1 ==> BigEndian.Pow256(w) == 256
    ensures w == 2 ==> BigEndian.Pow256(w) == 65536
    ensures w == 4 ==> BigEndian.Pow256(w) == 4294967296
    ensures w == 8 ==> BigEndian.Pow256(w) == 18446744073709551616
  {
    if w > 0 {
      assert BigEndian.Pow256(w) == 256 * BigEndian.Pow256(w - 1);
      if w > 1 {
        assert BigEndian.Pow256(w - 1) == 256 * BigEndian.Pow256(w - 2);
        if w > 2 {
          Powers(w - 2);
        }
      }
    }
  }

  lemma Multiple(p: int, d: int)
    requires p > 0
    ensures d >= 1 ==> p * d >= p
    ensures d <= -1 ==> p * d <= -p
  {
  }

  /** Two's complement: the residue of a number in the upper half stands for a
      negative one. */
  lemma SignedReadsBack(i: int, p: int)
    requires p > 0 && -p <= 2 * i < p
    ensures 0 <= i % p < p
    ensures (if 2 * (i % p) >= p then i % p - p else i % p) == i
  {
    var r := if i < 0 then i + p else i;
    var d := i / p - (if i < 0 then -1 else 0);
    assert i == p * (i / p) + i % p;
    assert p * d == r - i % p;
    Multiple(p, d);
  }

  /** The chosen marker has room for the number. */
  lemma MarkerHasRoom(i: int)
    requires IntFits(i)
    ensures var p := BigEndian.Pow256(Width(MarkerOf(i)));
      if MarkerOf(i) == 'U' then 0 <= i < p else 0 <= 2 * i + p < 2 * p
  {
    hide BigEndian.Pow256;
    Powers(Width(MarkerOf(i)));
  }

  lemma SmallIsResidue(i: int, p: int)
    requires 0 <= i < p
    ensures i % p == i
  {
  }

  /** A payload reads back as the residue it was made of, with its sign. */
  lemma PayloadReadsBack(marker: char, i: int, p: int)
    requires p == BigEndian.Pow256(Width(marker))
    ensures Number(marker, Payload(marker, i)) == if marker != 'U' && 2 * (i % p) >= p then i % p - p else i % p
  {
    hide BigEndian.Encode, BigEndian.Decode, BigEndian.Pow256, Width;
    BigEndian.RoundTrip(i % p, Width(marker));
  }

  /** The payload of the chosen marker reads back as the number. */
  lemma NumberReadsBack(i: int)
    requires IntFits(i)
    ensures Number(MarkerOf(i), Payload(MarkerOf(i), i)) == i
  {
    hide Number, Payload, MarkerOf, Width, BigEndian.Pow256;
    var p := BigEndian.Pow256(Width(MarkerOf(i)));
    MarkerHasRoom(i);
    PayloadReadsBack(MarkerOf(i), i, p);
    if MarkerOf(i) == 'U' {
      SmallIsResidue(i, p);
    } else {
      SignedReadsBack(i, p);
    }
  }

  // ---- doubles

  function Swapped(s: string): (r: string)
    ensures |r| == |s| && forall i | 0 <= i < |s| :: r[i] == s[|s| - 1 - i]
  {
    seq(|s|, i requires 0 <= i < |s| => s[|s| - 1 - i])
  }

  /** A double as memory holds it. */
  function Native(d: Float64, little: bool): Float64 {
    if little then Swapped(d) else d
  }

  lemma NativeTwice(d: Float64, little: bool)
    ensures Native(Native(d, little), little) == d
  {
  }

  // ---- what the writer emits

  /** The writer throws on a number or a length outside its ranges. */
  predicate Encodable(v: Value) {
    match v
    case Null => true
    case Bool(_) => true
    case Int(i) => IntFits(i)
    case Double(_) => true
    case Str(s) => |s| == 1 || IntFits(|s|)
    case List(items) => forall x | x in items :: Encodable(x)
    case Obj(props) => forall p | p in props :: IntFits(|p.name|) && Encodable(p.value)
  }

  function NameBytes(name: string): string
    requires IntFits(|name|)
  {
    IntBytes(|name|) + name
  }

  /** The octets of a value.  Integers go out most significant octet first on every
      machine, doubles in the order of the machine that writes. */
  function Bytes(v: Value, little: bool): (s: string)
    requires Encodable(v)
    ensures s != ""
    decreases v
  {
    match v
    case Null => "Z"
    case Bool(b) => if b then "T" else "F"
    case Int(i) => IntBytes(i)
    case Double(d) => "D" + Native(d, little)
    case Str(s) => if |s| == 1 then "C" + s else "S" + NameBytes(s)
    case List(items) => "[" + ItemsBytes(items, little) + "]"
    case Obj(props) => "{" + PropsBytes(props, little) + "}"
  }

  function ItemsBytes(items: seq<Value>, little: bool): string
    requires forall x | x in items :: Encodable(x)
    decreases items
  {
    if items == [] then "" else Bytes(items[0], little) + ItemsBytes(items[1..], little)
  }

  function PropsBytes(props: seq<Property>, little: bool): string
    requires forall p | p in props :: IntFits(|p.name|) && Encodable(p.value)
    decreases props
  {
    if props == [] then ""
    else NameBytes(props[0].name) + Bytes(props[0].value, little) + PropsBytes(props[1..], little)
  }

  // ---- what the parser makes of an input

  datatype Parsed<T> = Done(value: T, next: nat) | Failed

  /** What the input alone does not determine: the octet that memory holds behind the
      input, and the conversion of a four octet float to a double. */
  datatype Machine = Machine(past: char, widen: string -> Float64)

  /** The octet at the cursor.  At the very end the source still reads. */
  function Peek(input: string, m: Machine, at: nat): Option<char> {
    if at > |input| then None else if at == |input| then Some(m.past) else Some(input[at])
  }

  function ReadInteger(input: string, at: nat, marker: char): Parsed<int> {
    if at + Width(marker) > |input| then Failed
    else Done(Number(marker, input[at..at + Width(marker)]), at + Width(marker))
  }

  /** A number of any of the seven types.  Every payload is taken to be big-endian. */
  function ParseNumber(input: string, m: Machine, at: nat, marker: char): Parsed<Value> {
    if at + Width(marker) > |input| then Failed
    else
      var payload := input[at..at + Width(marker)];
      Done(if marker == 'D' then Double(payload)
           else if marker == 'd' then Double(m.widen(payload))
           else Int(Number(marker, payload)),
           at + Width(marker))
  }

  /** A length is an int8, uint8, int16 or int32; a negative one is beyond the
      input. */
  function ParseLength(input: string, m: Machine, at: nat): (r: Parsed<nat>)
    ensures r.Done? ==> at < r.next <= |input|
  {
    var marker := Peek(input, m, at);
    if marker == None || marker.value !in {'i', 'U', 'I', 'l'} then Failed
    else
      match ReadInteger(input, at + 1, marker.value)
      case Failed => Failed
      case Done(d, next) => if d < 0 then Failed else Done(d, next)
  }

  function ParseString(input: string, m: Machine, at: nat): (r: Parsed<string>)
    ensures r.Done? ==> at < r.next <= |input|
  {
    match ParseLength(input, m, at)
    case Failed => Failed
    case Done(len, next) => if next + len > |input| then Failed else Done(input[next..next + len], next + len)
  }

  function ParseValue(input: string, m: Machine, at: nat): (r: Parsed<Value>)
    ensures r.Done? ==> at < r.next <= |input| + 1
    decreases |input| + 1 - at, 1
  {
    match Peek(input, m, at)
    case None => Failed
    case Some(c) => ParseAs(input, m, at + 1, c)
  }

  /** The value whose marker is `c` and whose payload starts at `at`. */
  function ParseAs(input: string, m: Machine, at: nat, c: char): (r: Parsed<Value>)
    requires at <= |input| + 1
    ensures r.Done? ==> at <= r.next <= |input| + 1
    decreases |input| + 1 - at, 4
  {
    match c
    case 'Z' => Done(Null, at)
    case 'N' => Done(Null, at)
    case 'T' => Done(Bool(true), at)
    case 'F' => Done(Bool(false), at)
    case 'C' =>
      (match Peek(input, m, at)
       case None => Failed
       case Some(x) => Done(Str([x]), at + 1))
    case 'S' =>
      (match ParseString(input, m, at)
       case Failed => Failed
       case Done(s, next) => Done(Str(s), next))
    case '[' =>
      (match ArrayAt(input, m, at)
       case Failed => Failed
       case Done(items, next) => Done(List(items), next))
    case '{' =>
      (match ObjectAt(input, m, at)
       case Failed => Failed
       case Done(props, next) => Done(Obj(props), next))
    case _ =>
      if c !in {'i', 'U', 'I', 'l', 'L', 'd', 'D'} then Failed else ParseNumber(input, m, at, c)
  }

  /** The items behind `[`.  A type makes every item unreadable, so that only the
      empty list can follow it. */
  function ArrayAt(input: string, m: Machine, at: nat): (r: Parsed<seq<Value>>)
    requires at <= |input| + 1
    ensures r.Done? ==> at < r.next <= |input| + 1
    decreases |input| + 1 - at, 3
  {
    if Peek(input, m, at) != Some('$') then ParseItems(input, m, at)
    else if Peek(input, m, at + 1) == Some(']') then Done([], at + 2)
    else Failed
  }

  function ParseItems(input: string, m: Machine, at: nat): (r: Parsed<seq<Value>>)
    requires at <= |input| + 1
    ensures r.Done? ==> at < r.next <= |input| + 1
    decreases |input| + 1 - at, 2
  {
    if Peek(input, m, at) == Some(']') then Done([], at + 1)
    else
      match ParseValue(input, m, at)
      case Failed => Failed
      case Done(v, next) =>
        match ParseItems(input, m, next)
        case Failed => Failed
        case Done(rest, end) => Done([v] + rest, end)
  }

  /** set_property: replace the value of a name that is there, else append. */
  function SetProperty(props: seq<Property>, p: Property): seq<Property> {
    if props == [] then [p]
    else if props[0].name == p.name then [p] + props[1..]
    else [props[0]] + SetProperty(props[1..], p)
  }

  /** One more property of the object: a `_meta_` must be an object and is kept
      apart from the properties. */
  function AddProperty(props: seq<Property>, p: Property): Option<seq<Property>> {
    if p.name != META then Some(SetProperty(props, p))
    else if p.value.Obj? then Some(props)
    else None
  }

  function ObjectAt(input: string, m: Machine, at: nat): (r: Parsed<seq<Property>>)
    requires at <= |input| + 1
    ensures r.Done? ==> at < r.next <= |input| + 1
    decreases |input| + 1 - at, 3
  {
    if Peek(input, m, at) != Some('$') then ParseProps(input, m, at, [])
    else if Peek(input, m, at + 1) == Some('}') then Done([], at + 2)
    else Failed
  }

  function ParseProps(input: string, m: Machine, at: nat, props: seq<Property>): (r: Parsed<seq<Property>>)
    requires at <= |input| + 1
    ensures r.Done? ==> at < r.next <= |input| + 1
    decreases |input| + 1 - at, 2
  {
    if Peek(input, m, at) == Some('}') then Done(props, at + 1)
    else
      match ParseString(input, m, at)
      case Failed => Failed
      case Done(name, next) =>
        match ParseValue(input, m, next)
        case Failed => Failed
        case Done(v, end) =>
          match AddProperty(props, Property(name, v))
          case None => Failed
          case Some(more) => ParseProps(input, m, end, more)
  }

  // ---- what decoding an encoding gives

  /** The value that comes back: of two properties with one name the later value
      wins in the earlier place, `_meta_` is not a property, and a double is what
      the writing machine's order of its octets makes of it. */
  function Reread(v: Value, little: bool): (r: Option<Value>)
    decreases v
  {
    match v
    case List(items) =>
      (match RereadItems(items, little)
       case None => None
       case Some(xs) => Some(List(xs)))
    case Obj(props) =>
      (match RereadProps(props, [], little)
       case None => None
       case Some(ps) => Some(Obj(ps)))
    case Double(d) => Some(Double(Native(d, little)))
    case _ => Some(v)
  }

  function RereadItems(items: seq<Value>, little: bool): (r: Option<seq<Value>>)
    decreases items
  {
    if items == [] then Some([])
    else
      match Reread(items[0], little)
      case None => None
      case Some(x) =>
        match RereadItems(items[1..], little)
        case None => None
        case Some(rest) => Some([x] + rest)
  }

  function RereadProps(props: seq<Property>, acc: seq<Property>, little: bool): (r: Option<seq<Property>>)
    decreases props
  {
    if props == [] then Some(acc)
    else
      match Reread(props[0].value, little)
      case None => None
      case Some(x) =>
        match AddProperty(acc, Property(props[0].name, x))
        case None => None
        case Some(more) => RereadProps(props[1..], more, little)
  }
}
