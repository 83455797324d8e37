/** Criteria as LDAP search filters: the text the adaptor builds, the filter it reads
    as, and what that means. */
module LdapFilter {
  import opened Basics
  import opened Criteria
  import opened LdapSearch

  // ---- the text

  /** One entry, without parentheses of its own. */
  function EntryText(e: Entry): string {
    match e.op
    case Eq => e.property + "=" + e.value
    case Ne => "!(" + e.property + "=" + e.value + ")"
    case Lt => e.property + "<" + e.value
    case Le => e.property + "<=" + e.value
    case Gt => e.property + ">" + e.value
    case Ge => e.property + ">=" + e.value
  }

  function Expression(f: Filter): string
    requires f.Node?
  {
    var text := EntryText(f.entry);
    if f.onTrue.Accept? && f.onFalse.Reject? then text
    else if f.onTrue.Node? && f.onFalse.Node? then
      "|(&(" + text + ")(" + Expression(f.onTrue) + "))(" + Expression(f.onFalse) + ")"
    else if f.onTrue.Node? then "&(" + text + ")(" + Expression(f.onTrue) + ")"
    else if f.onFalse.Node? then "|(" + text + ")(" + Expression(f.onFalse) + ")"
    else text
  }

  /** The filter of a search for objects of one class. */
  function SearchText(byClass: string, f: Filter): string
    requires f.Node?
  {
    "(&(" + byClass + ")(" + Expression(f) + "))"
  }

  // ---- the filter

  /** The property and the value need no escape. */
  predicate Plain(e: Entry) {
    IsAttribute(e.property) && IsValue(e.value)
  }

  predicate AllPlain(f: Filter) {
    f.Node? ==> Plain(f.entry) && AllPlain(f.onTrue) && AllPlain(f.onFalse)
  }

  /** The standard has no `<` and no `>`: with a value that begins with `=` such an
      entry reads as another operator. */
  predicate Readable(e: Entry) {
    e.op == Lt || e.op == Gt ==> e.value != "" && e.value[0] == '='
  }

  predicate AllReadable(f: Filter) {
    f.Node? ==> Readable(f.entry) && AllReadable(f.onTrue) && AllReadable(f.onFalse)
  }

  /** Operators that the standard has. */
  predicate Standard(op: Op) {
    op != Lt && op != Gt
  }

  predicate AllStandard(f: Filter): (ok: bool)
    ensures ok ==> AllReadable(f)
  {
    f.Node? ==> Standard(f.entry.op) && AllStandard(f.onTrue) && AllStandard(f.onFalse)
  }

  /** The filter an entry's text reads as. */
  function EntrySearch(e: Entry): Search
    requires Readable(e)
  {
    match e.op
    case Eq => Item(e.property, Equal, e.value)
    case Ne => Not(Item(e.property, Equal, e.value))
    case Lt => Item(e.property, LessOrEqual, e.value[1..])
    case Le => Item(e.property, LessOrEqual, e.value)
    case Gt => Item(e.property, GreaterOrEqual, e.value[1..])
    case Ge => Item(e.property, GreaterOrEqual, e.value)
  }

  function SearchOf(f: Filter): Search
    requires f.Node? && AllReadable(f)
  {
    var item := EntrySearch(f.entry);
    if f.onTrue.Accept? && f.onFalse.Reject? then item
    else if f.onTrue.Node? && f.onFalse.Node? then Or([And([item, SearchOf(f.onTrue)]), SearchOf(f.onFalse)])
    else if f.onTrue.Node? then And([item, SearchOf(f.onTrue)])
    else if f.onFalse.Node? then Or([item, SearchOf(f.onFalse)])
    else item
  }

  lemma PrintTwo(x: Search, y: Search)
    ensures PrintAll([x, y]) == "(" + Body(x) + ")(" + Body(y) + ")"
  {
    assert [x, y][1..] == [y] && [y][1..] == [];
    assert PrintAll([y]) == Print(y);
    assert PrintAll([x, y]) == Print(x) + Print(y);
    assert "(" + Body(x) + ")(" + Body(y) + ")" == "(" + (Body(x) + ")") + ("(" + (Body(y) + ")"));
  }

  lemma BodyOfTwo(x: Search, y: Search)
    requires WellFormed(x) && WellFormed(y)
    ensures Body(And([x, y])) == "&(" + Body(x) + ")(" + Body(y) + ")" && WellFormed(And([x, y]))
    ensures Body(Or([x, y])) == "|(" + Body(x) + ")(" + Body(y) + ")" && WellFormed(Or([x, y]))
  {
    hide Print, PrintAll, WellFormed;
    TwoAreWellFormed(x, y);
    PrintTwo(x, y);
    Leading("&", Body(x), Body(y));
    Leading("|", Body(x), Body(y));
  }

  lemma TwoAreWellFormed(x: Search, y: Search)
    requires WellFormed(x) && WellFormed(y)
    ensures WellFormed(And([x, y])) && WellFormed(Or([x, y]))
  {
    hide IsAttribute, IsValue;
    assert forall z | z in [x, y] :: z == x || z == y;
  }

  lemma Leading(sign: string, a: string, b: string)
    ensures sign + ("(" + a + ")(" + b + ")") == sign + "(" + a + ")(" + b + ")"
  {
  }

  lemma Nested(a: string, b: string, c: string)
    ensures "|(&(" + a + ")(" + b + "))(" + c + ")" == "|(" + ("&(" + a + ")(" + b + ")") + ")(" + c + ")"
  {
  }

  lemma EntryIsBody(e: Entry)
    requires Plain(e) && Readable(e)
    ensures EntryText(e) == Body(EntrySearch(e)) && WellFormed(EntrySearch(e))
  {
    Regroup(e.property, "=", e.value);
    Regroup(e.property, "<=", e.value);
    Regroup(e.property, ">=", e.value);
    var text := e.property + "=" + e.value;
    assert Print(Item(e.property, Equal, e.value)) == "(" + (text + ")");
    assert "!(" + e.property + "=" + e.value + ")" == "!" + ("(" + (text + ")"));
    if !Standard(e.op) {
      assert e.value == "=" + e.value[1..];
      assert e.property + "<" + e.value == e.property + ("<=" + e.value[1..]);
      assert e.property + ">" + e.value == e.property + (">=" + e.value[1..]);
    }
  }

  /** The text is the body of the filter. */
  lemma {:induction false} ExpressionIsBody(f: Filter)
    requires f.Node? && AllPlain(f) && AllReadable(f)
    ensures Expression(f) == Body(SearchOf(f)) && WellFormed(SearchOf(f))
  {
    hide EntryText, EntrySearch, Body, WellFormed, Plain, Readable;
    EntryIsBody(f.entry);
    var item := EntrySearch(f.entry);
    if f.onTrue.Node? {
      ExpressionIsBody(f.onTrue);
      BodyOfTwo(item, SearchOf(f.onTrue));
    }
    if f.onFalse.Node? {
      ExpressionIsBody(f.onFalse);
      BodyOfTwo(item, SearchOf(f.onFalse));
      if f.onTrue.Node? {
        BodyOfTwo(And([item, SearchOf(f.onTrue)]), SearchOf(f.onFalse));
        Nested(EntryText(f.entry), Expression(f.onTrue), Expression(f.onFalse));
      }
    }
  }

  /** The text in its parentheses has one reading, whatever follows. */
  lemma {:induction false} ExpressionReadsAs(f: Filter, rest: string)
    requires f.Node? && AllPlain(f) && AllReadable(f)
    ensures Read("(" + Expression(f) + ")" + rest) == Some((SearchOf(f), rest))
  {
    ExpressionIsBody(f);
    ReadsBack(SearchOf(f), rest);
    Regroup("(", Expression(f), ")");
  }

  /** The whole search: objects of the class that the criteria accept. */
  lemma {:induction false} SearchTextReadsAs(attribute: string, value: string, f: Filter)
    requires f.Node? && AllPlain(f) && AllReadable(f) && IsAttribute(attribute) && IsValue(value)
    ensures Read(SearchText(attribute + "=" + value, f)) == Some((And([Item(attribute, Equal, value), SearchOf(f)]), ""))
  {
    hide Body, Read, WellFormed;
    var byClass := Entry(attribute, Eq, value);
    EntryIsBody(byClass);
    ExpressionIsBody(f);
    BodyOfTwo(EntrySearch(byClass), SearchOf(f));
    ReadsBack(And([EntrySearch(byClass), SearchOf(f)]), "");
    Wrapped(attribute + "=" + value, Expression(f));
  }

  lemma Wrapped(a: string, b: string)
    ensures "(" + (("&(" + a + ")(" + b + ")") + ")") + "" == "(&(" + a + ")(" + b + "))"
  {
  }

  /** Without criteria the text is the class alone, which is not in parentheses and
      so not a filter. */
  lemma ClassAloneIsNoFilter(attribute: string, value: string)
    requires IsAttribute(attribute)
    ensures Read(attribute + "=" + value) == None
  {
    assert (attribute + "=" + value)[0] == attribute[0];
  }

  lemma StrictSign(op: Op, rest: string)
    requires (op == Lt || op == Gt) && rest != ""
    ensures var tail := (if op == Lt then "<" else ">") + rest;
      && !AttributeChar(tail[0]) && !("=*" <= tail) && (ReadSign(tail).Some? <==> rest[0] == '=')
      && (ReadSign(tail).Some? ==> |Sign(ReadSign(tail).value)| == 2 && tail[2..] == rest[1..])
  {
    var tail := (if op == Lt then "<" else ">") + rest;
    assert tail[1] == rest[0] && tail[1..] == rest;
    assert rest[0] == '=' ==> tail[..2] == (if op == Lt then "<=" else ">=");
  }

  /** In parentheses the text is no filter, whatever follows. */
  ghost predicate Unreadable(text: string) {
    forall rest: string :: Read("(" + (text + ")") + rest) == None
  }

  lemma StrictItem(a: string, op: Op, value: string, rest: string)
    requires (op == Lt || op == Gt) && IsAttribute(a) && !(value != "" && value[0] == '=') && rest != "" && rest[0] == ')'
    ensures var text := a + ((if op == Lt then "<" else ">") + (value + rest));
      ReadItem(text) == None && text[0] !in {'&', '|', '!'}
  {
    hide Sign, ReadSign, AttributeChar, IsAttribute, AttributeLength, ValueLength;
    var tail := (if op == Lt then "<" else ">") + (value + rest);
    Cut(value, rest);
    assert value == "" ==> value + rest == rest;
    StrictSign(op, value + rest);
    AttributeHead(a, tail);
    Cut(a, tail);
  }

  lemma EntryUnreadable(e: Entry)
    requires Plain(e) && !Readable(e)
    ensures Unreadable(EntryText(e))
  {
    var sign := if e.op == Lt then "<" else ">";
    forall rest: string
      ensures Read("(" + (EntryText(e) + ")") + rest) == None
    {
      hide ReadItem, IsAttribute, IsValue;
      Opening(e.property, sign, e.value, rest);
      StrictItem(e.property, e.op, e.value, ")" + rest);
      Heads('(', e.property + (sign + (e.value + (")" + rest))));
    }
  }

  lemma Opening(a: string, sign: string, value: string, rest: string)
    ensures "(" + (a + sign + value + ")") + rest == "(" + (a + (sign + (value + (")" + rest))))
  {
  }

  /** Two texts under an and or an or: the first that is no filter spoils both. */
  lemma TwoUnreadable(sign: string, a: string, b: string, x: Search)
    requires sign == "&" || sign == "|"
    requires Unreadable(a) || (Unreadable(b) && WellFormed(x) && a == Body(x))
    ensures Unreadable(sign + "(" + a + ")(" + b + ")")
  {
    forall rest: string
      ensures Read("(" + ((sign + "(" + a + ")(" + b + ")") + ")") + rest) == None
    {
      hide Read, ReadAll, Body, WellFormed, Unreadable;
      var tail := "(" + (b + ")") + (")" + rest);
      var all := "(" + (a + ")") + tail;
      Layout(sign, a, b, rest);
      if Unreadable(a) {
        UseUnreadable(a, tail);
      } else {
        PrintedText(x);
        ReadsBack(x, tail);
        UseUnreadable(b, ")" + rest);
      }
      ReadAllFails(all, tail);
      ReadFails(sign, all);
    }
  }

  lemma UseUnreadable(text: string, rest: string)
    requires Unreadable(text)
    ensures Read("(" + (text + ")") + rest) == None
  {
  }

  lemma PrintedText(x: Search)
    ensures Print(x) == "(" + (Body(x) + ")")
  {
  }

  lemma Layout(sign: string, a: string, b: string, rest: string)
    ensures "(" + ((sign + "(" + a + ")(" + b + ")") + ")") + rest
      == "(" + (sign + ("(" + (a + ")") + ("(" + (b + ")") + (")" + rest))))
    ensures ("(" + (b + ")") + (")" + rest))[0] == '('
  {
  }

  lemma ReadAllFails(s: string, tail: string)
    requires Read(s) == None || (tail != "" && tail[0] == '(' && Read(tail) == None && Read(s).value.1 == tail)
    ensures ReadAll(s) == None
  {
    hide Read;
    assert Read(s).Some? ==> ReadAll(tail) == None;
  }

  lemma ReadFails(sign: string, s: string)
    requires (sign == "&" || sign == "|") && ReadAll(s) == None
    ensures Read("(" + (sign + s)) == None
  {
    hide ReadAll;
    Heads('(', sign + s);
    Heads('&', s);
    Heads('|', s);
  }

  lemma {:induction false} TreeUnreadable(f: Filter)
    requires f.Node? && AllPlain(f) && !AllReadable(f)
    ensures Unreadable(Expression(f))
  {
    hide EntryText, EntrySearch, Body, WellFormed, Plain, Readable, Unreadable;
    assert "&" + "(" == "&(" && "|" + "(" == "|(";
    var text := EntryText(f.entry);
    var item := Present("");
    if Readable(f.entry) {
      EntryIsBody(f.entry);
      item := EntrySearch(f.entry);
    } else {
      EntryUnreadable(f.entry);
    }
    if f.onTrue.Node? {
      var both := "&(" + text + ")(" + Expression(f.onTrue) + ")";
      if Readable(f.entry) && AllReadable(f.onTrue) {
        ExpressionIsBody(f.onTrue);
        BodyOfTwo(item, SearchOf(f.onTrue));
        item := And([item, SearchOf(f.onTrue)]);
      } else {
        if !AllReadable(f.onTrue) {
          TreeUnreadable(f.onTrue);
        }
        TwoUnreadable("&", text, Expression(f.onTrue), item);
      }
      if f.onFalse.Node? {
        if !AllReadable(f.onFalse) {
          TreeUnreadable(f.onFalse);
        }
        Nested(text, Expression(f.onTrue), Expression(f.onFalse));
        TwoUnreadable("|", both, Expression(f.onFalse), item);
      }
    } else if f.onFalse.Node? {
      if !AllReadable(f.onFalse) {
        TreeUnreadable(f.onFalse);
      }
      TwoUnreadable("|", text, Expression(f.onFalse), item);
    }
  }

  /** The text of a tree is a filter exactly when every `<` and `>` entry in it has a
      value that begins with `=`, and then those entries are other ones. */
  lemma TreeIsAFilterExactlyWhen(f: Filter)
    requires f.Node? && AllPlain(f)
    ensures Read("(" + Expression(f) + ")").Some?
      <==> forall e | e in Entries(f) && (e.op == Lt || e.op == Gt) :: e.value != "" && e.value[0] == '='
  {
    hide Expression, Read, Entries, AllReadable, Unreadable;
    ReadableEntries(f);
    var text := "(" + Expression(f) + ")";
    assert text + "" == text;
    if AllReadable(f) {
      ExpressionReadsAs(f, "");
    } else {
      TreeUnreadable(f);
      UseUnreadable(Expression(f), "");
      Regroup("(", Expression(f), ")");
    }
  }

  lemma {:induction false} ReadableEntries(f: Filter)
    ensures AllReadable(f)
      <==> forall e | e in Entries(f) && (e.op == Lt || e.op == Gt) :: e.value != "" && e.value[0] == '='
  {
    if f.Node? {
      ReadableEntries(f.onTrue);
      ReadableEntries(f.onFalse);
    }
  }

  // ---- the meaning

  /** One attribute value against an assertion value. */
  predicate ValueMatches(rule: Rule, asserted: string, item: string) {
    match rule
    case Equal => item == asserted
    case GreaterOrEqual => item == asserted || Less(asserted, item)
    case LessOrEqual => item == asserted || Less(item, asserted)
    case Approximate => item == asserted
  }

  /** A directory entry against a filter: section 4.5.1.7 of RFC 4511, for attributes
      the server knows. */
  predicate Matches(x: Search, o: Object) {
    match x
    case And(parts) => forall y | y in parts :: Matches(y, o)
    case Or(parts) => exists y | y in parts :: Matches(y, o)
    case Not(y) => !Matches(y, o)
    case Item(a, rule, v) => a in o && exists item | item in o[a].Items() :: ValueMatches(rule, v, item)
    case Present(a) => a in o
  }

  /** What the text says when `v` is the set of entries that match. */
  ghost predicate Reading(f: Filter, v: iset<Entry>) {
    match f
    case Accept => true
    case Reject => false
    case Node(e, t, n) =>
      if t.Node? && n.Node? then (e in v && Reading(t, v)) || Reading(n, v)
      else if t.Node? then e in v && Reading(t, v)
      else if n.Node? && !t.Node? then e in v || Reading(n, v)
      else e in v
  }

  /** The entries that match a directory entry. */
  ghost function Matching(o: Object): iset<Entry> {
    iset e: Entry | Readable(e) && Matches(EntrySearch(e), o)
  }

  /** Whatever the tree, the filter means its reading. */
  lemma {:induction false} FilterMeansReading(f: Filter, o: Object)
    requires f.Node? && AllReadable(f)
    ensures Matches(SearchOf(f), o) <==> Reading(f, Matching(o))
  {
    var item := EntrySearch(f.entry);
    assert Matches(item, o) <==> f.entry in Matching(o);
    hide EntrySearch, Matching;
    if f.onTrue.Node? {
      FilterMeansReading(f.onTrue, o);
      MatchesTwo(item, SearchOf(f.onTrue), o);
    }
    if f.onFalse.Node? {
      FilterMeansReading(f.onFalse, o);
      MatchesTwo(item, SearchOf(f.onFalse), o);
      if f.onTrue.Node? {
        MatchesTwo(And([item, SearchOf(f.onTrue)]), SearchOf(f.onFalse), o);
      }
    }
  }

  lemma MatchesTwo(x: Search, y: Search, o: Object)
    ensures Matches(And([x, y]), o) <==> Matches(x, o) && Matches(y, o)
    ensures Matches(Or([x, y]), o) <==> Matches(x, o) || Matches(y, o)
  {
    assert x in [x, y] && y in [x, y];
  }

  /** Every subtree reads as what it means. */
  ghost predicate ReadsRight(f: Filter) {
    f.Node? ==> (forall v :: Reading(f, v) <==> Eval(f, v)) && ReadsRight(f.onTrue) && ReadsRight(f.onFalse)
  }

  /** No entry leads to rejection where it holds or to acceptance where it fails, and
      where it holds failing it would not have helped. */
  ghost predicate Sound(f: Filter) {
    f.Node? ==>
      && !f.onTrue.Reject? && !f.onFalse.Accept?
      && (forall v: iset<Entry> | f.entry in v :: Eval(f.onFalse, v) ==> Eval(f.onTrue, v))
      && Sound(f.onTrue) && Sound(f.onFalse)
  }

  /** The text of a tree and of all its subtrees is right exactly for sound trees. */
  lemma {:induction false} ReadsRightExactlyWhen(f: Filter)
    ensures ReadsRight(f) <==> Sound(f)
  {
    if f.Node? {
      ReadsRightExactlyWhen(f.onTrue);
      ReadsRightExactlyWhen(f.onFalse);
      if ReadsRight(f) {
        NodeIsSound(f);
      } else if Sound(f) {
        NodeReadsRight(f);
      }
    }
  }

  lemma NodeReadsRight(f: Filter)
    requires f.Node? && Sound(f) && ReadsRight(f.onTrue) && ReadsRight(f.onFalse)
    ensures forall v :: Reading(f, v) <==> Eval(f, v)
  {
    forall v
      ensures Reading(f, v) <==> Eval(f, v)
    {
      assert Reading(f.onTrue, v) <==> Eval(f.onTrue, v);
      assert Reading(f.onFalse, v) <==> Eval(f.onFalse, v);
      if f.entry in v {
        assert Eval(f.onFalse, v) ==> Eval(f.onTrue, v);
      }
    }
  }

  lemma NodeIsSound(f: Filter)
    requires f.Node? && ReadsRight(f)
    ensures !f.onTrue.Reject? && !f.onFalse.Accept?
    ensures forall v: iset<Entry> | f.entry in v :: Eval(f.onFalse, v) ==> Eval(f.onTrue, v)
  {
    assert Reading(f, iset{f.entry}) <==> Eval(f, iset{f.entry});
    assert Reading(f, iset{}) <==> Eval(f, iset{});
    forall v: iset<Entry> | f.entry in v
      ensures Eval(f.onFalse, v) ==> Eval(f.onTrue, v)
    {
      assert Reading(f, v) <==> Eval(f, v);
      assert Reading(f.onFalse, v) <==> Eval(f.onFalse, v);
    }
  }

  lemma {:induction false} MonotoneIsSound(f: Filter)
    requires Monotone(f)
    ensures Sound(f)
  {
    if f.Node? {
      MonotoneIsSound(f.onTrue);
      MonotoneIsSound(f.onFalse);
      assert forall v: iset<Entry> :: Eval(f.onFalse, v) ==> Eval(f.onTrue, v);
    }
  }

  /** The same tree with the operands of every operator exchanged. */
  function Turned(f: Filter): Filter {
    match f
    case Node(e, t, n) => Node(e.(op := Exchanged(e.op)), Turned(t), Turned(n))
    case _ => f
  }

  /** The walk of an object that goes on past an absent property, which only `ne`
      accepts. */
  predicate WalkOn(f: Filter, o: Object) {
    match f
    case Accept => true
    case Reject => false
    case Node(e, t, n) =>
      if (if e.property in o then Satisfies(e, o[e.property]) else e.op == Ne) then WalkOn(t, o) else WalkOn(n, o)
  }

  lemma EntryIsTurned(e: Entry, o: Object)
    requires Standard(e.op)
    ensures e.property in o ==> (Matches(EntrySearch(e), o) <==> Holds(e.(op := Exchanged(e.op)), o))
    ensures e.property !in o ==> (Matches(EntrySearch(e), o) <==> e.op == Ne)
  {
  }

  lemma {:induction false} MatchingIsWalkOn(f: Filter, o: Object)
    requires AllStandard(f)
    ensures Eval(f, Matching(o)) <==> WalkOn(Turned(f), o)
  {
    if f.Node? {
      MatchingIsWalkOn(f.onTrue, o);
      MatchingIsWalkOn(f.onFalse, o);
      EntryIsTurned(f.entry, o);
    }
  }

  /** For every object the directory answers what the walk of the turned tree answers
      when it does not stop at absent properties. */
  lemma SearchIsTurnedWalk(f: Filter, o: Object)
    requires f.Node? && AllStandard(f) && Sound(f)
    ensures Matches(SearchOf(f), o) <==> WalkOn(Turned(f), o)
  {
    FilterMeansReading(f, o);
    ReadsRightExactlyWhen(f);
    assert Reading(f, Matching(o)) <==> Eval(f, Matching(o));
    MatchingIsWalkOn(f, o);
  }

  /** The two walks part exactly where the one that goes on past an absent property
      accepts. */
  lemma {:induction false} WalksPart(f: Filter, o: Object)
    ensures Walk(f, o) <==> WalkOn(f, o) && !MeetsMissing(f, o)
  {
    if f.Node? {
      WalksPart(f.onTrue, o);
      WalksPart(f.onFalse, o);
    }
  }

  lemma {:induction false} EqualityIsNotTurned(f: Filter)
    requires forall e | e in Entries(f) :: e.op == Eq || e.op == Ne
    ensures Turned(f) == f && AllStandard(f)
  {
    if f.Node? {
      EqualityIsNotTurned(f.onTrue);
      EqualityIsNotTurned(f.onFalse);
    }
  }

  /** With `eq` and `ne` alone the directory and the walk differ on an object exactly
      when the walk meets an absent property and, going on past it, would accept. */
  lemma SearchIsWalkExactlyWhen(f: Filter, o: Object)
    requires f.Node? && AllStandard(f) && Sound(f)
    requires forall e | e in Entries(f) :: e.op == Eq || e.op == Ne
    ensures (Matches(SearchOf(f), o) <==> Walk(f, o)) <==> !(MeetsMissing(f, o) && WalkOn(f, o))
  {
    SearchIsTurnedWalk(f, o);
    EqualityIsNotTurned(f);
    WalksPart(f, o);
  }

  /** So they agree on every object that defines the properties named. */
  lemma SearchIsWalk(f: Filter, o: Object)
    requires f.Node? && AllStandard(f) && Sound(f)
    requires forall e | e in Entries(f) :: e.property in o && (e.op == Eq || e.op == Ne)
    ensures Matches(SearchOf(f), o) <==> Walk(f, o)
  {
    SearchIsWalkExactlyWhen(f, o);
    DefinedNeverMissing(f, o);
  }

  /** One entry: over the objects that have its property the directory and the walk
      agree exactly for `eq` and `ne`, and over all objects exactly for `eq`. */
  lemma EntryAgreesExactlyWhen(e: Entry)
    requires Standard(e.op)
    ensures (forall o: Object | e.property in o :: Matches(EntrySearch(e), o) <==> Holds(e, o)) <==> e.op == Eq || e.op == Ne
    ensures (forall o: Object :: Matches(EntrySearch(e), o) <==> Holds(e, o)) <==> e.op == Eq
  {
    forall o: Object
      ensures e.op == Eq ==> (Matches(EntrySearch(e), o) <==> Holds(e, o))
      ensures e.op == Ne && e.property in o ==> (Matches(EntrySearch(e), o) <==> Holds(e, o))
    {
      EntryIsTurned(e, o);
    }
    EntryIsTurned(e, map[]);
    if e.op == Le || e.op == Ge {
      var above := e.value + "a";
      var o: Object := map[e.property := Scalar(above)];
      LessAppended(e.value);
      LessAsymmetric(e.value, above);
      EntryIsTurned(e, o);
      assert o[e.property].Items() == [above] && above in [above];
      assert Holds(e, o) <==> e.op == Le;
      assert Matches(EntrySearch(e), o) <==> e.op == Ge;
    }
  }
}
