/** Search filters in the string form of section 3 of RFC 4515: their abstract form,
    how each is written, and a reader that accepts exactly what can be written. */
module LdapSearch {
  import opened Basics

  datatype Rule = Equal | GreaterOrEqual | LessOrEqual | Approximate

  datatype Search =
    | And(parts: seq<Search>)
    | Or(parts: seq<Search>)
    | Not(part: Search)
    | Item(attribute: string, rule: Rule, value: string)
    | Present(attribute: string)

  /** Attribute descriptions: letters, digits, hyphens, dots and semicolons. */
  predicate AttributeChar(c: char) {
    'a' <= c <= 'z' || 'A' <= c <= 'Z' || '0' <= c <= '9' || c in {'-', '.', ';'}
  }

  /** Octets that stand for themselves in an assertion value. */
  predicate ValueChar(c: char) {
    c !in {'\0', '(', ')', '*', '\\'}
  }

  predicate IsAttribute(s: string) {
    s != "" && forall i | 0 <= i < |s| :: AttributeChar(s[i])
  }

  predicate IsValue(s: string) {
    forall i | 0 <= i < |s| :: ValueChar(s[i])
  }

  predicate WellFormed(x: Search) {
    match x
    case And(parts) => parts != [] && forall y | y in parts :: WellFormed(y)
    case Or(parts) => parts != [] && forall y | y in parts :: WellFormed(y)
    case Not(y) => WellFormed(y)
    case Item(a, _, v) => IsAttribute(a) && IsValue(v)
    case Present(a) => IsAttribute(a)
  }

  function Sign(rule: Rule): string {
    match rule
    case Equal => "="
    case GreaterOrEqual => ">="
    case LessOrEqual => "<="
    case Approximate => "~="
  }

  /** A filter between its parentheses. */
  function Body(x: Search): (s: string)
    decreases x, 0
  {
    match x
    case And(parts) => "&" + PrintAll(parts)
    case Or(parts) => "|" + PrintAll(parts)
    case Not(y) => "!" + Print(y)
    case Item(a, rule, v) => a + (Sign(rule) + v)
    case Present(a) => a + "=*"
  }

  function Print(x: Search): (s: string)
    decreases x, 1
  {
    "(" + (Body(x) + ")")
  }

  function PrintAll(parts: seq<Search>): string
    decreases parts
  {
    if parts == [] then "" else Print(parts[0]) + PrintAll(parts[1..])
  }

  // ---- reading

  function AttributeLength(s: string): (n: nat)
    ensures n <= |s| && forall i | 0 <= i < n :: AttributeChar(s[i])
    ensures n < |s| ==> !AttributeChar(s[n])
  {
    if s == "" || !AttributeChar(s[0]) then 0 else 1 + AttributeLength(s[1..])
  }

  function ValueLength(s: string): (n: nat)
    ensures n <= |s| && forall i | 0 <= i < n :: ValueChar(s[i])
    ensures n < |s| ==> !ValueChar(s[n])
  {
    if s == "" || !ValueChar(s[0]) then 0 else 1 + ValueLength(s[1..])
  }

  /** The sign at the head of a string. */
  function ReadSign(s: string): (r: Option<Rule>)
    ensures r.Some? ==> Sign(r.value) <= s
  {
    if "=" <= s then Some(Equal)
    else if ">=" <= s then Some(GreaterOrEqual)
    else if "<=" <= s then Some(LessOrEqual)
    else if "~=" <= s then Some(Approximate)
    else None
  }

  function ReadItem(s: string): (r: Option<(Search, string)>)
    ensures r.Some? ==> |r.value.1| < |s|
  {
    var n := AttributeLength(s);
    var tail := s[n..];
    if n == 0 then None
    else if "=*" <= tail then Some((Present(s[..n]), tail[2..]))
    else
      match ReadSign(tail)
      case None => None
      case Some(rule) =>
        var text := tail[|Sign(rule)|..];
        var m := ValueLength(text);
        Some((Item(s[..n], rule, text[..m]), text[m..]))
  }

  function ReadBody(s: string): (r: Option<(Search, string)>)
    ensures r.Some? ==> |r.value.1| < |s|
    decreases |s|, 0
  {
    if s == "" then None
    else if s[0] == '&' then
      match ReadAll(s[1..])
      case None => None
      case Some((parts, rest)) => Some((And(parts), rest))
    else if s[0] == '|' then
      match ReadAll(s[1..])
      case None => None
      case Some((parts, rest)) => Some((Or(parts), rest))
    else if s[0] == '!' then
      match Read(s[1..])
      case None => None
      case Some((y, rest)) => Some((Not(y), rest))
    else ReadItem(s)
  }

  /** One filter at the head of a string, and what follows it. */
  function Read(s: string): (r: Option<(Search, string)>)
    ensures r.Some? ==> |r.value.1| < |s|
    decreases |s|, 1
  {
    if s == "" || s[0] != '(' then None
    else
      match ReadBody(s[1..])
      case None => None
      case Some((x, rest)) => if rest != "" && rest[0] == ')' then Some((x, rest[1..])) else None
  }

  /** One or more filters. */
  function ReadAll(s: string): (r: Option<(seq<Search>, string)>)
    ensures r.Some? ==> |r.value.1| < |s|
    decreases |s|, 2
  {
    match Read(s)
    case None => None
    case Some((x, rest)) =>
      if rest == "" || rest[0] != '(' then Some(([x], rest))
      else
        match ReadAll(rest)
        case None => None
        case Some((more, end)) => Some(([x] + more, end))
  }

  lemma {:induction false} AttributeStops(a: string, rest: string)
    requires (forall i | 0 <= i < |a| :: AttributeChar(a[i])) && rest != "" && !AttributeChar(rest[0])
    ensures AttributeLength(a + rest) == |a|
  {
    if a == "" {
      assert a + rest == rest;
    } else {
      assert (a + rest)[1..] == a[1..] + rest;
      AttributeStops(a[1..], rest);
    }
  }

  lemma {:induction false} ValueStops(v: string, rest: string)
    requires IsValue(v) && rest != "" && !ValueChar(rest[0])
    ensures ValueLength(v + rest) == |v|
  {
    if v == "" {
      assert v + rest == rest;
    } else {
      assert (v + rest)[1..] == v[1..] + rest;
      ValueStops(v[1..], rest);
    }
  }

  lemma Heads(c: char, t: string)
    ensures ([c] + t)[0] == c && ([c] + t)[1..] == t
  {
  }

  lemma Regroup(a: string, b: string, c: string)
    ensures a + b + c == a + (b + c)
  {
  }

  /** What is written reads back, whatever follows: a written filter has one
      reading. */
  lemma {:induction false} ReadsBack(x: Search, rest: string)
    requires WellFormed(x)
    ensures Read(Print(x) + rest) == Some((x, rest)) && (Print(x) + rest)[0] == '('
    decreases x, 1
  {
    hide Body, ReadBody, WellFormed;
    Regroup("(", Body(x) + ")", rest);
    Regroup(Body(x), ")", rest);
    Heads('(', Body(x) + (")" + rest));
    Heads(')', rest);
    BodyReadsBack(x, ")" + rest);
  }

  lemma {:induction false} BodyReadsBack(x: Search, rest: string)
    requires WellFormed(x) && rest != "" && rest[0] == ')'
    ensures ReadBody(Body(x) + rest) == Some((x, rest))
    decreases x, 0
  {
    hide IsAttribute, IsValue, ReadItem, Read, ReadAll, Print, PrintAll, Sign;
    match x {
      case And(parts) =>
        Regroup("&", PrintAll(parts), rest);
        Heads('&', PrintAll(parts) + rest);
        AllReadBack(parts, rest);
      case Or(parts) =>
        Regroup("|", PrintAll(parts), rest);
        Heads('|', PrintAll(parts) + rest);
        AllReadBack(parts, rest);
      case Not(y) =>
        Regroup("!", Print(y), rest);
        Heads('!', Print(y) + rest);
        ReadsBack(y, rest);
      case Item(a, rule, v) =>
        Regroup(a, Sign(rule) + v, rest);
        Regroup(Sign(rule), v, rest);
        ItemReadsBack(a, rule, v, rest);
      case Present(a) =>
        Regroup(a, "=*", rest);
        PresentReadsBack(a, rest);
    }
  }

  lemma SignReadsBack(rule: Rule, w: string)
    requires w == "" || w[0] != '*'
    ensures ReadSign(Sign(rule) + w) == Some(rule) && !("=*" <= Sign(rule) + w)
    ensures (Sign(rule) + w)[|Sign(rule)|..] == w && !AttributeChar((Sign(rule) + w)[0])
  {
    var t := Sign(rule) + w;
    assert t[..|Sign(rule)|] == Sign(rule);
    assert t[0] == Sign(rule)[0] && (|Sign(rule)| == 2 ==> t[1] == Sign(rule)[1]);
    if rule == Equal && w != "" {
      assert t[1] == w[0];
    }
  }

  lemma Cut(a: string, b: string)
    ensures (a + b)[..|a|] == a && (a + b)[|a|..] == b
    ensures a != "" ==> (a + b)[0] == a[0]
  {
  }

  lemma AttributeHead(a: string, tail: string)
    requires IsAttribute(a) && tail != "" && !AttributeChar(tail[0])
    ensures AttributeLength(a + tail) == |a| > 0 && (a + tail)[0] !in {'&', '|', '!'}
  {
    AttributeStops(a, tail);
  }

  lemma ItemReadsBack(a: string, rule: Rule, v: string, rest: string)
    requires IsAttribute(a) && IsValue(v) && rest != "" && rest[0] == ')'
    ensures ReadItem(a + (Sign(rule) + (v + rest))) == Some((Item(a, rule, v), rest))
    ensures a + (Sign(rule) + (v + rest)) != "" && (a + (Sign(rule) + (v + rest)))[0] !in {'&', '|', '!'}
  {
    hide Sign, ReadSign, ValueChar, AttributeChar, IsAttribute, IsValue, AttributeLength, ValueLength;
    var tail := Sign(rule) + (v + rest);
    ValueHead(v, rest);
    SignReadsBack(rule, v + rest);
    AttributeHead(a, tail);
    Cut(a, tail);
    Cut(v, rest);
    ValueStops(v, rest);
  }

  lemma ValueHead(v: string, rest: string)
    requires IsValue(v) && rest != "" && rest[0] == ')'
    ensures v + rest != "" && (v + rest)[0] != '*' && !ValueChar(rest[0])
  {
    assert v != "" ==> (v + rest)[0] == v[0];
  }

  lemma PresentReadsBack(a: string, rest: string)
    requires IsAttribute(a)
    ensures ReadItem(a + ("=*" + rest)) == Some((Present(a), rest))
    ensures a + ("=*" + rest) != "" && (a + ("=*" + rest))[0] !in {'&', '|', '!'}
  {
    var tail := "=*" + rest;
    assert tail[2..] == rest;
    AttributeHead(a, tail);
    Cut(a, tail);
  }

  lemma {:induction false} AllReadBack(parts: seq<Search>, rest: string)
    requires parts != [] && (forall y | y in parts :: WellFormed(y)) && rest != "" && rest[0] != '('
    ensures ReadAll(PrintAll(parts) + rest) == Some((parts, rest)) && (PrintAll(parts) + rest)[0] == '('
    decreases parts
  {
    hide WellFormed, Print, Read;
    var after := PrintAll(parts[1..]) + rest;
    Regroup(Print(parts[0]), PrintAll(parts[1..]), rest);
    ReadsBack(parts[0], after);
    if |parts| > 1 {
      AllReadBack(parts[1..], rest);
      assert parts == [parts[0]] + parts[1..];
    } else {
      assert parts == [parts[0]] && after == rest;
    }
  }

  /** Only what can be written is read. */
  lemma {:induction false} ReadIsPrinted(s: string)
    ensures Read(s).Some? ==> WellFormed(Read(s).value.0) && s == Print(Read(s).value.0) + Read(s).value.1
    decreases |s|, 1
  {
    hide ReadBody, Body, WellFormed;
    if Read(s).Some? {
      var (x, rest) := Read(s).value;
      BodyReadIsPrinted(s[1..]);
      Opened(s);
      Opened(")" + rest);
      Opened(ReadBody(s[1..]).value.1);
      Regroup("(", Body(x) + ")", rest);
      Regroup(Body(x), ")", rest);
    }
  }

  lemma Opened(s: string)
    requires s != ""
    ensures s == [s[0]] + s[1..]
  {
  }

  lemma {:induction false} BodyReadIsPrinted(s: string)
    ensures ReadBody(s).Some? ==> WellFormed(ReadBody(s).value.0) && s == Body(ReadBody(s).value.0) + ReadBody(s).value.1
    decreases |s|, 0
  {
    hide ReadItem, ReadAll, Read, PrintAll, Print, IsAttribute, IsValue, Sign;
    if ReadBody(s).Some? {
      Opened(s);
      var (x, rest) := ReadBody(s).value;
      if s[0] == '&' || s[0] == '|' {
        AllReadIsPrinted(s[1..]);
        Regroup([s[0]], PrintAll(x.parts), rest);
      } else if s[0] == '!' {
        ReadIsPrinted(s[1..]);
        Regroup([s[0]], Print(x.part), rest);
      } else {
        ItemReadIsPrinted(s);
      }
    }
  }

  lemma Halves(s: string, n: nat)
    requires n <= |s|
    ensures s == s[..n] + s[n..]
  {
  }

  lemma Prefixes(s: string)
    ensures AttributeLength(s) > 0 ==> IsAttribute(s[..AttributeLength(s)])
    ensures IsValue(s[..ValueLength(s)])
  {
  }

  lemma ItemReadIsPrinted(s: string)
    ensures ReadItem(s).Some? ==>
      var (x, rest) := ReadItem(s).value;
      (x.Item? || x.Present?) && WellFormed(x) && s == Body(x) + rest
  {
    hide Sign, ReadSign, AttributeLength, ValueLength, ValueChar, AttributeChar, IsAttribute, IsValue, Body;
    Prefixes(s);
    if ReadItem(s).Some? {
      var n := AttributeLength(s);
      var tail := s[n..];
      if "=*" <= tail {
        PresentJoins(s, n);
      } else {
        var rule := ReadSign(tail).value;
        Prefixes(tail[|Sign(rule)|..]);
        ItemJoins(s, n, rule, ValueLength(tail[|Sign(rule)|..]));
      }
    }
  }

  lemma PresentJoins(s: string, n: nat)
    requires n <= |s| && "=*" <= s[n..]
    ensures s == Body(Present(s[..n])) + s[n..][2..]
  {
    Halves(s, n);
    Halves(s[n..], 2);
    Regroup(s[..n], "=*", s[n..][2..]);
  }

  lemma ItemJoins(s: string, n: nat, rule: Rule, k: nat)
    requires n <= |s| && Sign(rule) <= s[n..] && k <= |s[n..][|Sign(rule)|..]|
    ensures var text := s[n..][|Sign(rule)|..];
      s == Body(Item(s[..n], rule, text[..k])) + text[k..]
  {
    hide Sign;
    var sign, text := Sign(rule), s[n..][|Sign(rule)|..];
    Halves(s, n);
    Halves(s[n..], |sign|);
    Halves(text, k);
    Regroup(sign, text[..k], text[k..]);
    Regroup(s[..n], sign + text[..k], text[k..]);
  }

  lemma {:induction false} AllReadIsPrinted(s: string)
    ensures ReadAll(s).Some? ==>
      var (parts, rest) := ReadAll(s).value;
      parts != [] && (forall y | y in parts :: WellFormed(y)) && s == PrintAll(parts) + rest
    decreases |s|, 2
  {
    hide Read, WellFormed, Print;
    ReadIsPrinted(s);
    if Read(s).Some? {
      var (x, rest) := Read(s).value;
      if rest != "" && rest[0] == '(' {
        AllReadIsPrinted(rest);
        if ReadAll(rest).Some? {
          var (more, end) := ReadAll(rest).value;
          assert ([x] + more)[1..] == more;
          Regroup(Print(x), PrintAll(more), end);
        }
      } else {
        assert PrintAll([x]) == Print(x) + PrintAll([]) && Print(x) + "" == Print(x);
      }
    }
  }
}
