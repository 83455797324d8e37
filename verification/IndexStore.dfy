/** Keeping the index databases in step with the primary database. */
module IndexStore {
  import opened Basics
  import opened Criteria
  import opened LmdbKeys

  /** Outcome of an index definition's `value` expression. */
  datatype Computed = Null | Undefined | AnObject | Values(value: Value)

  /** An index definition.  Its expressions are pure functions of the object type,
      the object's key and the object; `fold` is the case folding, if any. */
  datatype Definition = Definition(
    objectTypes: seq<string>,
    filter: (string, string, Object) -> bool,
    value: Option<(string, string, Object) -> Computed>,
    fold: Option<string -> string>,
    unique: bool)

  type Pair = (string, string)  // index value, primary key

  type Databases = map<string, set<Pair>>

  datatype Mode = Add | Delete

  // ---- database names

  function DatabaseName(objectType: string, index: string): string {
    "Index#" + objectType + "#" + index
  }

  /** The name ends in the separator followed by another name. */
  predicate EndsIn(q: string, p: string) {
    |q| > |p| && q[|q| - |p| - 1..] == "#" + p
  }

  lemma EndsInMeans(q: string, p: string)
    ensures EndsIn(q, p) <==> exists x: string :: q == x + "#" + p
  {
    if EndsIn(q, p) {
      var x := q[..|q| - |p| - 1];
      assert q == x + ("#" + p) == x + "#" + p;
    }
    if x: string :| q == x + "#" + p {
      assert q == x + ("#" + p) && q[|x|..] == "#" + p;
    }
  }

  lemma LongerEndsIn(a: string, p: string, b: string, q: string)
    requires a + "#" + p == b + "#" + q && |p| < |q|
    ensures EndsIn(q, p)
  {
    var s := a + "#" + p;
    assert s == a + ("#" + p) && s == b + ("#" + q);
    assert |a| > |b| && s[|b| + 1..] == q;
    assert q[|a| - |b| - 1..] == s[|a|..] == "#" + p;
  }

  /** Two index names can share a database, for object types of the right names,
      exactly when they are the same or one ends in the separator and the other. */
  lemma NamesShareExactlyWhen(p: string, q: string)
    ensures (exists t: string, u: string :: DatabaseName(t, p) == DatabaseName(u, q))
      <==> p == q || EndsIn(p, q) || EndsIn(q, p)
  {
    hide DatabaseName, EndsIn;
    if t: string, u: string :| DatabaseName(t, p) == DatabaseName(u, q) {
      NamesCollide(t, p, u, q);
    }
    EndsInMeans(p, q);
    EndsInMeans(q, p);
    if p == q {
      assert DatabaseName("", p) == DatabaseName("", q);
    } else if EndsIn(p, q) {
      var x: string :| p == x + "#" + q;
      Shared(x, q);
    } else if EndsIn(q, p) {
      var x: string :| q == x + "#" + p;
      Shared(x, p);
    }
  }

  lemma Shared(x: string, q: string)
    ensures DatabaseName("", x + "#" + q) == DatabaseName("#" + x, q)
  {
    assert "Index#" + "" + "#" + (x + "#" + q) == "Index#" + ("#" + x) + "#" + q;
  }

  lemma NamesCollide(t: string, p: string, u: string, q: string)
    requires DatabaseName(t, p) == DatabaseName(u, q)
    ensures p == q || EndsIn(p, q) || EndsIn(q, p)
    ensures p == q ==> t == u
  {
    var a, b := "Index#" + t, "Index#" + u;
    assert a + "#" + p == DatabaseName(t, p) && b + "#" + q == DatabaseName(u, q);
    if |p| < |q| {
      LongerEndsIn(a, p, b, q);
    } else if |q| < |p| {
      LongerEndsIn(b, q, a, p);
    } else {
      assert |a| == |b|;
      assert p == (a + "#" + p)[|a| + 1..] && q == (b + "#" + q)[|b| + 1..];
      assert a == (a + "#" + p)[..|a|] && b == (b + "#" + q)[..|b|];
      assert t == a[6..] && u == b[6..];
    }
  }

  /** The names of a set of indexes keep their databases apart. */
  predicate Apart(p: string, q: string) {
    p != q && !EndsIn(p, q) && !EndsIn(q, p)
  }

  /** Apart, two indexes never share a database; of one index no two types do. */
  lemma NamesDiffer(t: string, p: string, u: string, q: string)
    requires p == q || Apart(p, q)
    ensures DatabaseName(t, p) == DatabaseName(u, q) <==> t == u && p == q
  {
    if DatabaseName(t, p) == DatabaseName(u, q) {
      NamesCollide(t, p, u, q);
    }
  }

  // ---- index values of one object

  predicate TypeApplies(d: Definition, objectType: string) {
    d.objectTypes == [] || objectType in d.objectTypes
  }

  function Folded(d: Definition, items: seq<string>): seq<string> {
    seq(|items|, i requires 0 <= i < |items| => if d.fold.Some? then d.fold.value(items[i]) else items[i])
  }

  /** The texts an object is indexed under; None when indexing it throws.  Without
      a `value` expression the property of the index's name is used, and an object
      that lacks it yields an undefined value, which throws. */
  function Texts(d: Definition, index: string, objectType: string, key: string, o: Object): Option<seq<string>> {
    if !TypeApplies(d, objectType) || !d.filter(objectType, key, o) then Some([])
    else
      var result :=
        if d.value.Some? then d.value.value(objectType, key, o)
        else if index in o then Values(o[index])
        else Undefined;
      match result
      case Null => Some([])
      case Undefined => None
      case AnObject => None
      case Values(v) => Some(Folded(d, v.Items()))
  }

  function Pairs(dbs: Databases, name: string): set<Pair> {
    if name in dbs then dbs[name] else {}
  }

  /** Add the texts one by one.  An empty text is passed over; a unique index
      refuses a value it already holds. */
  function AddAll(pairs: set<Pair>, texts: seq<string>, key: string, unique: bool): Option<set<Pair>>
    decreases |texts|
  {
    if texts == [] then Some(pairs)
    else if texts[0] == "" then AddAll(pairs, texts[1..], key, unique)
    else if unique && exists p | p in pairs :: p.0 == texts[0] then None
    else AddAll(pairs + {(texts[0], key)}, texts[1..], key, unique)
  }

  function DeleteAll(pairs: set<Pair>, texts: seq<string>, key: string): set<Pair>
    decreases |texts|
  {
    if texts == [] then pairs
    else if texts[0] == "" then DeleteAll(pairs, texts[1..], key)
    else DeleteAll(pairs - {(texts[0], key)}, texts[1..], key)
  }

  lemma {:induction false} AddAllEffect(pairs: set<Pair>, texts: seq<string>, key: string, unique: bool)
    ensures AddAll(pairs, texts, key, unique).Some? ==>
      AddAll(pairs, texts, key, unique).value == pairs + set t | t in texts && t != "" :: (t, key)
    decreases |texts|
  {
    if texts != [] {
      var next := if texts[0] == "" then pairs else pairs + {(texts[0], key)};
      AddAllEffect(next, texts[1..], key, unique);
    }
  }

  lemma {:induction false} DeleteAllEffect(pairs: set<Pair>, texts: seq<string>, key: string)
    ensures DeleteAll(pairs, texts, key) == pairs - set t | t in texts && t != "" :: (t, key)
    decreases |texts|
  {
    if texts != [] {
      var next := if texts[0] == "" then pairs else pairs - {(texts[0], key)};
      DeleteAllEffect(next, texts[1..], key);
    }
  }

  // ---- one index, then all of them

  type Definitions = map<string, Definition>

  function Try(dbs: Databases, d: Definition, index: string, objectType: string, key: string, o: Object, mode: Mode)
    : Option<Databases>
  {
    var name := DatabaseName(objectType, index);
    match Texts(d, index, objectType, key, o)
    case None => None
    case Some(texts) =>
      match mode
      case Add => (
        match AddAll(Pairs(dbs, name), texts, key, d.unique)
        case None => None
        case Some(pairs) => Some(dbs[name := pairs]))
      case Delete => Some(dbs[name := DeleteAll(Pairs(dbs, name), texts, key)])
  }

  /** The work on one index: what is removed, then what is added. */
  function Update(dbs: Databases, d: Definition, index: string, objectType: string, key: string,
                  before: Option<Object>, after: Option<Object>): Option<Databases>
  {
    var removed := if before.Some? then Try(dbs, d, index, objectType, key, before.value, Delete) else Some(dbs);
    if removed.None? then None
    else if after.Some? then Try(removed.value, d, index, objectType, key, after.value, Add)
    else removed
  }

  function UpdateAll(dbs: Databases, defs: Definitions, names: seq<string>, objectType: string, key: string,
                     before: Option<Object>, after: Option<Object>): Option<Databases>
    requires forall n | n in names :: n in defs
    decreases |names|
  {
    if names == [] then Some(dbs)
    else match Update(dbs, defs[names[0]], names[0], objectType, key, before, after)
      case None => None
      case Some(next) => UpdateAll(next, defs, names[1..], objectType, key, before, after)
  }

  /** The pairs one object owes to one index. */
  function Owed(d: Definition, index: string, objectType: string, key: string, o: Option<Object>): set<Pair> {
    if o.Some? && Texts(d, index, objectType, key, o.value).Some? then
      set t | t in Texts(d, index, objectType, key, o.value).value && t != "" :: (t, key)
    else {}
  }

  lemma UpdateEffect(dbs: Databases, d: Definition, index: string, objectType: string, key: string,
                     before: Option<Object>, after: Option<Object>)
    requires Update(dbs, d, index, objectType, key, before, after).Some?
    ensures var r := Update(dbs, d, index, objectType, key, before, after).value;
      && Pairs(r, DatabaseName(objectType, index))
         == Pairs(dbs, DatabaseName(objectType, index)) - Owed(d, index, objectType, key, before)
            + Owed(d, index, objectType, key, after)
      && forall n | n != DatabaseName(objectType, index) :: Pairs(r, n) == Pairs(dbs, n)
    ensures after.Some? ==> Texts(d, index, objectType, key, after.value).Some?
  {
    var name := DatabaseName(objectType, index);
    if before.Some? {
      DeleteAllEffect(Pairs(dbs, name), Texts(d, index, objectType, key, before.value).value, key);
    }
    if after.Some? {
      var removed := if before.Some? then Try(dbs, d, index, objectType, key, before.value, Delete) else Some(dbs);
      AddAllEffect(Pairs(removed.value, name), Texts(d, index, objectType, key, after.value).value, key, d.unique);
    }
  }

  /** No two index names can share a database. */
  predicate SeparateNames(names: seq<string>) {
    forall i, j | 0 <= i < j < |names| :: Apart(names[i], names[j])
  }

  /** It is so exactly when, whatever the object types, different indexes have
      different databases. */
  lemma SeparateExactlyWhen(names: seq<string>)
    ensures SeparateNames(names)
      <==> forall i, j, t: string, u: string | 0 <= i < j < |names| :: DatabaseName(t, names[i]) != DatabaseName(u, names[j])
  {
    forall i, j | 0 <= i < j < |names|
      ensures Apart(names[i], names[j])
        <==> forall t: string, u: string :: DatabaseName(t, names[i]) != DatabaseName(u, names[j])
    {
      NamesShareExactlyWhen(names[i], names[j]);
    }
  }

  /** What updating every index does to each database. */
  lemma {:induction false} UpdateAllEffect(dbs: Databases, defs: Definitions, names: seq<string>, objectType: string,
                                           key: string, before: Option<Object>, after: Option<Object>)
    requires (forall n | n in names :: n in defs) && SeparateNames(names)
    requires UpdateAll(dbs, defs, names, objectType, key, before, after).Some?
    ensures var r := UpdateAll(dbs, defs, names, objectType, key, before, after).value;
      && (forall n | n in names ::
            Pairs(r, DatabaseName(objectType, n)) == Pairs(dbs, DatabaseName(objectType, n))
              - Owed(defs[n], n, objectType, key, before) + Owed(defs[n], n, objectType, key, after))
      && (forall n | forall i | i in names :: n != DatabaseName(objectType, i) :: Pairs(r, n) == Pairs(dbs, n))
    ensures after.Some? ==> forall n | n in names :: Texts(defs[n], n, objectType, key, after.value).Some?
    decreases |names|
  {
    if names != [] {
      var first, rest := names[0], names[1..];
      UpdateEffect(dbs, defs[first], first, objectType, key, before, after);
      var next := Update(dbs, defs[first], first, objectType, key, before, after).value;
      UpdateAllEffect(next, defs, rest, objectType, key, before, after);
      forall i | i in rest
        ensures DatabaseName(objectType, first) != DatabaseName(objectType, i)
      {
        var j :| 0 <= j < |rest| && rest[j] == i;
        assert names[j + 1] == i && i in names && first in names;
        NamesDiffer(objectType, first, objectType, i);
      }
    }
  }

  // ---- when an update is accepted

  /** A unique index has no clash: none of the texts is taken or repeated. */
  predicate NoClash(pairs: set<Pair>, texts: seq<string>) {
    forall i | 0 <= i < |texts| && texts[i] != "" ::
      (forall p | p in pairs :: p.0 != texts[i]) && (forall j | 0 <= j < i :: texts[j] != texts[i])
  }

  lemma {:induction false} AddAllAccepts(pairs: set<Pair>, texts: seq<string>, key: string, unique: bool)
    ensures AddAll(pairs, texts, key, unique).Some? <==> !unique || NoClash(pairs, texts)
    decreases |texts|
  {
    if texts != [] {
      var first, rest := texts[0], texts[1..];
      var next := if first == "" then pairs else pairs + {(first, key)};
      AddAllAccepts(next, rest, key, unique);
      assert texts == [first] + rest;
      assert NoClash(pairs, texts) ==> NoClash(next, rest);
      if NoClash(next, rest) && (first == "" || forall p | p in pairs :: p.0 != first) {
        forall i | 0 <= i < |texts| && texts[i] != ""
          ensures (forall p | p in pairs :: p.0 != texts[i]) && (forall j | 0 <= j < i :: texts[j] != texts[i])
        {
          if i > 0 {
            assert texts[i] == rest[i - 1];
            assert first != "" ==> (first, key) in next;
          }
        }
      }
    }
  }

  /** The new object can be indexed by one definition, given what the old one
      leaves behind. */
  predicate Accepts(dbs: Databases, d: Definition, index: string, objectType: string, key: string,
                    before: Option<Object>, o: Object)
  {
    && Texts(d, index, objectType, key, o).Some?
    && (d.unique ==> NoClash(Pairs(dbs, DatabaseName(objectType, index)) - Owed(d, index, objectType, key, before),
                             Texts(d, index, objectType, key, o).value))
  }

  /** An update is accepted exactly when every index accepts the new object. */
  lemma {:induction false} AcceptedExactly(dbs: Databases, defs: Definitions, names: seq<string>, objectType: string,
                                           key: string, before: Option<Object>, o: Object)
    requires (forall n | n in names :: n in defs) && SeparateNames(names)
    requires before.Some? ==> forall n | n in names :: Texts(defs[n], n, objectType, key, before.value).Some?
    ensures UpdateAll(dbs, defs, names, objectType, key, before, Some(o)).Some?
      <==> forall n | n in names :: Accepts(dbs, defs[n], n, objectType, key, before, o)
    decreases |names|
  {
    if names != [] {
      var first, rest := names[0], names[1..];
      assert names == [first] + rest;
      UpdateAccepts(dbs, defs[first], first, objectType, key, before, o);
      var update := Update(dbs, defs[first], first, objectType, key, before, Some(o));
      if update.Some? {
        UpdateEffect(dbs, defs[first], first, objectType, key, before, Some(o));
        AcceptedExactly(update.value, defs, rest, objectType, key, before, o);
        forall n | n in rest
          ensures Accepts(update.value, defs[n], n, objectType, key, before, o)
             <==> Accepts(dbs, defs[n], n, objectType, key, before, o)
        {
          NamesDiffer(objectType, first, objectType, n);
        }
      }
    }
  }

  lemma UpdateAccepts(dbs: Databases, d: Definition, index: string, objectType: string, key: string,
                      before: Option<Object>, o: Object)
    requires before.Some? ==> Texts(d, index, objectType, key, before.value).Some?
    ensures Update(dbs, d, index, objectType, key, before, Some(o)).Some?
      <==> Accepts(dbs, d, index, objectType, key, before, o)
  {
    var name := DatabaseName(objectType, index);
    var left := Pairs(dbs, name) - Owed(d, index, objectType, key, before);
    if before.Some? {
      DeleteAllEffect(Pairs(dbs, name), Texts(d, index, objectType, key, before.value).value, key);
    }
    var removed := if before.Some? then Try(dbs, d, index, objectType, key, before.value, Delete) else Some(dbs);
    assert Pairs(removed.value, name) == left;
    if Texts(d, index, objectType, key, o).Some? {
      AddAllAccepts(left, Texts(d, index, objectType, key, o).value, key, d.unique);
    }
  }

  // ---- the invariant

  type Primary = map<string, Object>

  /** Each index database holds exactly the pairs computed from the objects that
      are now in the primary database, each of which can be indexed. */
  ghost predicate Consistent(primary: Primary, dbs: Databases, defs: Definitions) {
    && (forall n, t, p: Pair | n in defs ::
          p in Pairs(dbs, DatabaseName(t, n)) <==> IsOwed(primary, defs[n], n, t, p))
    && (forall n, k | n in defs && k in primary :: Texts(defs[n], n, TypeOf(k), k, primary[k]).Some?)
  }

  predicate IsOwed(primary: Primary, d: Definition, index: string, objectType: string, p: Pair) {
    p.1 in primary && TypeOf(p.1) == objectType && p in Owed(d, index, objectType, p.1, Some(primary[p.1]))
  }

  function Stored(primary: Primary, key: string): Option<Object> {
    if key in primary then Some(primary[key]) else None
  }

  function After(primary: Primary, key: string, o: Option<Object>): Primary {
    if o.Some? then primary[key := o.value] else primary - {key}
  }

  /** Writing, replacing or removing one object together with its index updates
      keeps every index consistent. */
  lemma UpdateKeepsConsistent(primary: Primary, dbs: Databases, defs: Definitions, names: seq<string>, key: string,
                              after: Option<Object>)
    requires Consistent(primary, dbs, defs) && SeparateNames(names) && (forall n :: n in names <==> n in defs)
    requires UpdateAll(dbs, defs, names, TypeOf(key), key, Stored(primary, key), after).Some?
    ensures Consistent(After(primary, key, after),
                       UpdateAll(dbs, defs, names, TypeOf(key), key, Stored(primary, key), after).value, defs)
  {
    var r := UpdateAll(dbs, defs, names, TypeOf(key), key, Stored(primary, key), after).value;
    UpdateAllEffect(dbs, defs, names, TypeOf(key), key, Stored(primary, key), after);
    forall n, t, p: Pair | n in defs
      ensures p in Pairs(r, DatabaseName(t, n)) <==> IsOwed(After(primary, key, after), defs[n], n, t, p)
    {
      assert n in names;
      assert p in Pairs(dbs, DatabaseName(t, n)) <==> IsOwed(primary, defs[n], n, t, p);
      OwedAfter(primary, defs[n], n, t, p, key, after);
      if t != TypeOf(key) {
        forall i | i in names
          ensures DatabaseName(t, n) != DatabaseName(TypeOf(key), i)
        {
          NamesDiffer(t, n, TypeOf(key), i);
        }
      }
    }
  }

  /** What is owed once an object has changed. */
  lemma OwedAfter(primary: Primary, d: Definition, index: string, objectType: string, p: Pair, key: string,
                  after: Option<Object>)
    ensures objectType != TypeOf(key) ==>
      (IsOwed(After(primary, key, after), d, index, objectType, p) <==> IsOwed(primary, d, index, objectType, p))
    ensures objectType == TypeOf(key) ==>
      (IsOwed(After(primary, key, after), d, index, objectType, p)
       <==> (IsOwed(primary, d, index, objectType, p) && p !in Owed(d, index, objectType, key, Stored(primary, key)))
            || p in Owed(d, index, objectType, key, after))
  {
  }

  // ---- the same in terms of the definition and the object

  /** The index says nothing of the object: its type is not listed or the filter does
      not accept it. */
  predicate Ignores(d: Definition, objectType: string, key: string, o: Object) {
    (d.objectTypes != [] && objectType !in d.objectTypes) || !d.filter(objectType, key, o)
  }

  /** Indexing the object throws: the value expression computes an object or nothing
      defined, or there is none and the object lacks the property. */
  predicate Throws(d: Definition, index: string, objectType: string, key: string, o: Object) {
    !Ignores(d, objectType, key, o) &&
    if d.value.Some? then
      d.value.value(objectType, key, o).Undefined? || d.value.value(objectType, key, o).AnObject?
    else index !in o
  }

  /** What an object gives an index: the items of what the value expression computes, or
      of the property of the index's name. */
  function Given(d: Definition, index: string, objectType: string, key: string, o: Object): seq<string> {
    if d.value.Some? then
      var computed := d.value.value(objectType, key, o);
      if computed.Values? then computed.value.Items() else []
    else if index in o then o[index].Items()
    else []
  }

  function Shown(d: Definition, item: string): string {
    if d.fold.Some? then d.fold.value(item) else item
  }

  /** The index shows the object under the text. */
  predicate Shows(d: Definition, index: string, objectType: string, key: string, o: Object, text: string) {
    && text != "" && !Ignores(d, objectType, key, o)
    && var items := Given(d, index, objectType, key, o);
       exists i | 0 <= i < |items| :: Shown(d, items[i]) == text
  }

  /** Every index database holds a text with a key exactly when the index shows the
      stored object of that key and type under the text, and no stored object is one
      that an index throws on. */
  ghost predicate InStep(primary: Primary, dbs: Databases, defs: Definitions) {
    && (forall n, t, p: Pair | n in defs ::
          p in Pairs(dbs, DatabaseName(t, n))
          <==> p.1 in primary && TypeOf(p.1) == t && Shows(defs[n], n, t, p.1, primary[p.1], p.0))
    && (forall n, k | n in defs && k in primary :: !Throws(defs[n], n, TypeOf(k), k, primary[k]))
  }

  lemma TextsExactly(d: Definition, index: string, objectType: string, key: string, o: Object)
    ensures Texts(d, index, objectType, key, o).None? <==> Throws(d, index, objectType, key, o)
    ensures forall text :: ((text, key) in Owed(d, index, objectType, key, Some(o))
                            <==> Shows(d, index, objectType, key, o, text) && !Throws(d, index, objectType, key, o))
    ensures Texts(d, index, objectType, key, o).Some? ==>
      var items := if Ignores(d, objectType, key, o) then [] else Given(d, index, objectType, key, o);
      var texts := Texts(d, index, objectType, key, o).value;
      |texts| == |items| && forall i | 0 <= i < |items| :: texts[i] == Shown(d, items[i])
  {
    var texts := Texts(d, index, objectType, key, o);
    var items := if Ignores(d, objectType, key, o) then [] else Given(d, index, objectType, key, o);
    if texts.Some? {
      assert |texts.value| == |items| && forall i | 0 <= i < |items| :: texts.value[i] == Shown(d, items[i]);
      forall text
        ensures (text, key) in Owed(d, index, objectType, key, Some(o)) <==> Shows(d, index, objectType, key, o, text)
      {
        if text in texts.value {
          var i :| 0 <= i < |texts.value| && texts.value[i] == text;
          assert Shown(d, items[i]) == text;
        }
      }
    }
  }

  /** That is what consistent databases are. */
  lemma ConsistentExactlyWhen(primary: Primary, dbs: Databases, defs: Definitions)
    ensures Consistent(primary, dbs, defs) <==> InStep(primary, dbs, defs)
  {
    hide Texts, Owed, Shows, Throws, Pairs, DatabaseName;
    forall n, k | n in defs && k in primary
      ensures Texts(defs[n], n, TypeOf(k), k, primary[k]).None? <==> Throws(defs[n], n, TypeOf(k), k, primary[k])
    {
      TextsExactly(defs[n], n, TypeOf(k), k, primary[k]);
    }
    forall n, t, p: Pair | n in defs && p.1 in primary && TypeOf(p.1) == t && !Throws(defs[n], n, t, p.1, primary[p.1])
      ensures IsOwed(primary, defs[n], n, t, p) <==> Shows(defs[n], n, t, p.1, primary[p.1], p.0)
    {
      TextsExactly(defs[n], n, t, p.1, primary[p.1]);
      assert p == (p.0, p.1);
    }
  }

  /** An index accepts an object exactly when it does not throw on it and, if it is
      unique, no text it shows the object under is shown twice or stored already, but
      for what the old object under the key leaves behind. */
  lemma AcceptsExactlyWhen(dbs: Databases, d: Definition, index: string, objectType: string, key: string,
                           before: Option<Object>, o: Object)
    requires before.Some? ==> !Throws(d, index, objectType, key, before.value)
    ensures Accepts(dbs, d, index, objectType, key, before, o) <==> Admits(dbs, d, index, objectType, key, before, o)
  {
    hide Texts, Owed, Throws, Shows, Shown, Given, Ignores, Pairs, DatabaseName;
    TextsExactly(d, index, objectType, key, o);
    if before.Some? {
      TextsExactly(d, index, objectType, key, before.value);
    }
    if Texts(d, index, objectType, key, o).Some? {
      FreeExactlyWhen(dbs, d, index, objectType, key, before, o);
    }
  }

  ghost predicate Admits(dbs: Databases, d: Definition, index: string, objectType: string, key: string,
                         before: Option<Object>, o: Object) {
    !Throws(d, index, objectType, key, o) && (d.unique ==> Free(dbs, d, index, objectType, key, before, o))
  }

  lemma AllAcceptExactlyWhen(primary: Primary, dbs: Databases, defs: Definitions, names: seq<string>, objectType: string,
                             key: string, before: Option<Object>, o: Object)
    requires InStep(primary, dbs, defs) && (forall n | n in names :: n in defs)
    requires before.Some? ==> key in primary && TypeOf(key) == objectType && before.value == primary[key]
    ensures (forall n | n in names :: Accepts(dbs, defs[n], n, objectType, key, before, o))
      <==> forall n | n in names :: Admits(dbs, defs[n], n, objectType, key, before, o)
  {
    hide Accepts, Admits, Throws, Shows, Pairs;
    forall n | n in names
      ensures Accepts(dbs, defs[n], n, objectType, key, before, o) <==> Admits(dbs, defs[n], n, objectType, key, before, o)
    {
      AcceptsExactlyWhen(dbs, defs[n], n, objectType, key, before, o);
    }
  }

  /** The pair is one that the old object under the key leaves. */
  predicate OldKept(d: Definition, index: string, objectType: string, key: string, before: Option<Object>, p: Pair) {
    p.1 == key && before.Some? && Shows(d, index, objectType, key, before.value, p.0)
  }

  /** A unique index has room for the object. */
  ghost predicate Free(dbs: Databases, d: Definition, index: string, objectType: string, key: string,
                       before: Option<Object>, o: Object) {
    && (forall p | p in Pairs(dbs, DatabaseName(objectType, index)) && Shows(d, index, objectType, key, o, p.0) ::
          OldKept(d, index, objectType, key, before, p))
    && (Ignores(d, objectType, key, o) || ShownOnce(d, Given(d, index, objectType, key, o)))
  }

  /** No two items are shown under one text. */
  predicate ShownOnce(d: Definition, items: seq<string>) {
    forall i, j | 0 <= i < j < |items| && Shown(d, items[i]) == Shown(d, items[j]) :: Shown(d, items[i]) == ""
  }

  lemma NoClashMeans(pairs: set<Pair>, texts: seq<string>)
    ensures NoClash(pairs, texts)
      <==> (forall p | p in pairs && p.0 in texts :: p.0 == "")
           && forall i, j | 0 <= i < j < |texts| && texts[i] == texts[j] :: texts[i] == ""
  {
    if NoClash(pairs, texts) {
      forall p | p in pairs && p.0 in texts
        ensures p.0 == ""
      {
        var i :| 0 <= i < |texts| && texts[i] == p.0;
      }
    }
  }

  lemma RepeatsAlike(d: Definition, items: seq<string>, texts: seq<string>)
    requires |texts| == |items| && forall i | 0 <= i < |items| :: texts[i] == Shown(d, items[i])
    ensures (forall i, j | 0 <= i < j < |texts| && texts[i] == texts[j] :: texts[i] == "")
      <==> ShownOnce(d, items)
  {
    hide Shown;
    if ShownOnce(d, items) {
      forall i, j | 0 <= i < j < |texts| && texts[i] == texts[j]
        ensures texts[i] == ""
      {
        assert Shown(d, items[i]) == Shown(d, items[j]);
      }
    } else {
      var i, j :| 0 <= i < j < |items| && Shown(d, items[i]) == Shown(d, items[j]) && Shown(d, items[i]) != "";
      assert texts[i] == texts[j] != "";
    }
  }

  lemma FreeExactlyWhen(dbs: Databases, d: Definition, index: string, objectType: string, key: string,
                        before: Option<Object>, o: Object)
    requires Texts(d, index, objectType, key, o).Some?
    requires before.Some? ==> !Throws(d, index, objectType, key, before.value)
    ensures NoClash(Pairs(dbs, DatabaseName(objectType, index)) - Owed(d, index, objectType, key, before),
                    Texts(d, index, objectType, key, o).value)
      <==> Free(dbs, d, index, objectType, key, before, o)
  {
    hide Texts, Throws, Shown, Given, Ignores, Pairs, DatabaseName;
    var all, texts := Pairs(dbs, DatabaseName(objectType, index)), Texts(d, index, objectType, key, o).value;
    var left := all - Owed(d, index, objectType, key, before);
    TextsExactly(d, index, objectType, key, o);
    NoClashMeans(left, texts);
    var items := if Ignores(d, objectType, key, o) then [] else Given(d, index, objectType, key, o);
    RepeatsAlike(d, items, texts);
    forall p | p in all
      ensures p in left <==> !OldKept(d, index, objectType, key, before, p)
      ensures Shows(d, index, objectType, key, o, p.0) <==> p.0 != "" && p.0 in texts
    {
      OwedKey(d, index, objectType, key, before, p);
      assert p.0 in texts ==> exists i | 0 <= i < |texts| :: texts[i] == p.0;
    }
    TakenAlike(all, left, texts, d, index, objectType, key, before, o);
  }

  lemma TakenAlike(all: set<Pair>, left: set<Pair>, texts: seq<string>, d: Definition, index: string, objectType: string,
                   key: string, before: Option<Object>, o: Object)
    requires left <= all
    requires forall p | p in all :: p in left <==> !OldKept(d, index, objectType, key, before, p)
    requires forall p | p in all :: Shows(d, index, objectType, key, o, p.0) <==> p.0 != "" && p.0 in texts
    ensures (forall p | p in left && p.0 in texts :: p.0 == "")
      <==> forall p | p in all && Shows(d, index, objectType, key, o, p.0) :: OldKept(d, index, objectType, key, before, p)
  {
    hide Shows, OldKept;
  }

  lemma OwedKey(d: Definition, index: string, objectType: string, key: string, before: Option<Object>, p: Pair)
    requires before.Some? ==> !Throws(d, index, objectType, key, before.value)
    ensures p in Owed(d, index, objectType, key, before)
      <==> OldKept(d, index, objectType, key, before, p)
  {
    hide Texts, Throws, Shows;
    if before.Some? {
      TextsExactly(d, index, objectType, key, before.value);
      assert p == (p.0, p.1);
    }
  }

  // ---- unique indexes

  predicate OneEach(pairs: set<Pair>) {
    forall p, q | p in pairs && q in pairs && p.0 == q.0 :: p == q
  }

  lemma {:induction false} AddAllKeepsOneEach(pairs: set<Pair>, texts: seq<string>, key: string)
    requires OneEach(pairs)
    ensures AddAll(pairs, texts, key, true).Some? ==> OneEach(AddAll(pairs, texts, key, true).value)
    decreases |texts|
  {
    if texts != [] {
      if texts[0] == "" {
        AddAllKeepsOneEach(pairs, texts[1..], key);
      } else if forall p | p in pairs :: p.0 != texts[0] {
        AddAllKeepsOneEach(pairs + {(texts[0], key)}, texts[1..], key);
      }
    }
  }

  lemma TryKeepsOneEach(dbs: Databases, d: Definition, index: string, objectType: string, key: string, o: Object,
                        mode: Mode)
    requires d.unique && OneEach(Pairs(dbs, DatabaseName(objectType, index)))
    requires Try(dbs, d, index, objectType, key, o, mode).Some?
    ensures OneEach(Pairs(Try(dbs, d, index, objectType, key, o, mode).value, DatabaseName(objectType, index)))
  {
    var texts := Texts(d, index, objectType, key, o).value;
    var pairs := Pairs(dbs, DatabaseName(objectType, index));
    AddAllKeepsOneEach(pairs, texts, key);
    DeleteAllEffect(pairs, texts, key);
  }

  lemma UpdateKeepsOneEach(dbs: Databases, d: Definition, index: string, objectType: string, key: string,
                           before: Option<Object>, after: Option<Object>)
    requires d.unique && OneEach(Pairs(dbs, DatabaseName(objectType, index)))
    requires Update(dbs, d, index, objectType, key, before, after).Some?
    ensures OneEach(Pairs(Update(dbs, d, index, objectType, key, before, after).value, DatabaseName(objectType, index)))
  {
    hide Try, OneEach, Pairs;
    var removed := if before.Some? then Try(dbs, d, index, objectType, key, before.value, Delete) else Some(dbs);
    if before.Some? {
      TryKeepsOneEach(dbs, d, index, objectType, key, before.value, Delete);
    }
    if after.Some? {
      TryKeepsOneEach(removed.value, d, index, objectType, key, after.value, Add);
    }
  }

  /** A unique index never holds a value twice, whatever is updated. */
  lemma {:induction false} UniqueStaysUnique(dbs: Databases, defs: Definitions, names: seq<string>, objectType: string,
                                             key: string, before: Option<Object>, after: Option<Object>, n: string, t: string)
    requires (forall i | i in names :: i in defs) && SeparateNames(names)
    requires n in defs && (forall i | i in names :: i == n || Apart(n, i)) && defs[n].unique && OneEach(Pairs(dbs, DatabaseName(t, n)))
    requires UpdateAll(dbs, defs, names, objectType, key, before, after).Some?
    ensures OneEach(Pairs(UpdateAll(dbs, defs, names, objectType, key, before, after).value, DatabaseName(t, n)))
    decreases |names|
  {
    hide Texts, Update, OneEach;
    if names != [] {
      assert names[0] in names;
      var next := Update(dbs, defs[names[0]], names[0], objectType, key, before, after).value;
      UpdateEffect(dbs, defs[names[0]], names[0], objectType, key, before, after);
      NamesDiffer(t, n, objectType, names[0]);
      if t == objectType && n == names[0] {
        UpdateKeepsOneEach(dbs, defs[n], n, objectType, key, before, after);
      }
      UniqueStaysUnique(next, defs, names[1..], objectType, key, before, after, n, t);
    }
  }

  /** No unique index holds a value twice. */
  ghost predicate UniqueHolds(dbs: Databases, defs: Definitions) {
    forall n, t | n in defs && defs[n].unique :: OneEach(Pairs(dbs, DatabaseName(t, n)))
  }

  lemma UpdateKeepsUnique(dbs: Databases, defs: Definitions, names: seq<string>, objectType: string, key: string,
                          before: Option<Object>, after: Option<Object>)
    requires SeparateNames(names) && (forall n :: n in names <==> n in defs) && UniqueHolds(dbs, defs)
    requires UpdateAll(dbs, defs, names, objectType, key, before, after).Some?
    ensures UniqueHolds(UpdateAll(dbs, defs, names, objectType, key, before, after).value, defs)
  {
    hide OneEach, Pairs, UpdateAll;
    forall n, t | n in defs && defs[n].unique
      ensures OneEach(Pairs(UpdateAll(dbs, defs, names, objectType, key, before, after).value, DatabaseName(t, n)))
    {
      var k :| 0 <= k < |names| && names[k] == n;
      forall i | i in names
        ensures i == n || Apart(n, i)
      {
        var j :| 0 <= j < |names| && names[j] == i;
        assert j < k ==> Apart(names[j], names[k]);
        assert k < j ==> Apart(names[k], names[j]);
      }
      UniqueStaysUnique(dbs, defs, names, objectType, key, before, after, n, t);
    }
  }

  lemma StoredIsIndexed(primary: Primary, dbs: Databases, defs: Definitions, key: string)
    requires Consistent(primary, dbs, defs) && key in primary
    ensures forall n | n in defs :: Texts(defs[n], n, TypeOf(key), key, primary[key]).Some?
  {
  }

  // ---- the session

  /** One adaptor session over its databases.  Every operation is one transaction:
      if any step throws, nothing is written. */
  class Session {
    const definitions: Definitions
    const names: seq<string>
    var primary: Primary
    var databases: Databases

    ghost predicate Valid()
      reads this
    {
      && SeparateNames(names) && (forall n :: n in names <==> n in definitions)
      && Consistent(primary, databases, definitions) && UniqueHolds(databases, definitions)
    }

    constructor (definitions: Definitions, names: seq<string>)
      requires SeparateNames(names) && forall n :: n in names <==> n in definitions
      ensures Valid() && primary == map[] && this.definitions == definitions && this.names == names
    {
      this.definitions, this.names := definitions, names;
      primary, databases := map[], map[];
    }

    /** index_try over one index: the texts of the object one by one. */
    method TryIndex(index: string, objectType: string, key: string, o: Object, mode: Mode) returns (ok: bool)
      requires index in definitions
      modifies this`databases
      ensures var r := Try(old(databases), definitions[index], index, objectType, key, o, mode);
        ok == r.Some? && (ok ==> databases == r.value)
    {
      var d := definitions[index];
      var texts := Texts(d, index, objectType, key, o);
      if texts.None? {
        return false;
      }
      var name := DatabaseName(objectType, index);
      var pairs := Pairs(databases, name);
      var i := 0;
      while i < |texts.value|
        invariant 0 <= i <= |texts.value| && databases == old(databases)
        invariant mode == Add ==> AddAll(pairs, texts.value[i..], key, d.unique)
                                  == AddAll(Pairs(databases, name), texts.value, key, d.unique)
        invariant mode == Delete ==> DeleteAll(pairs, texts.value[i..], key)
                                     == DeleteAll(Pairs(databases, name), texts.value, key)
      {
        var text := texts.value[i];
        assert texts.value[i..][0] == text && texts.value[i..][1..] == texts.value[i + 1..];
        if text != "" {
          if mode == Add {
            if d.unique && exists p | p in pairs :: p.0 == text {
              return false;
            }
            pairs := pairs + {(text, key)};
          } else {
            pairs := pairs - {(text, key)};
          }
        }
        i := i + 1;
      }
      databases := databases[name := pairs];
      ok := true;
    }

    /** index_object, unindex_object and reindex_object: the same walk over the
        definitions with nothing to remove, nothing to add, or both. */
    method UpdateIndexes(objectType: string, key: string, before: Option<Object>,
                         after: Option<Object>) returns (ok: bool)
      requires forall n | n in names :: n in definitions
      modifies this`databases
      ensures var r := UpdateAll(old(databases), definitions, names, objectType, key, before, after);
        ok == r.Some? && (ok ==> databases == r.value)
    {
      var i := 0;
      while i < |names|
        invariant 0 <= i <= |names|
        invariant UpdateAll(old(databases), definitions, names, objectType, key, before, after)
                  == UpdateAll(databases, definitions, names[i..], objectType, key, before, after)
      {
        var index := names[i];
        assert names[i..][0] == index && names[i..][1..] == names[i + 1..];
        if before.Some? {
          var done := TryIndex(index, objectType, key, before.value, Delete);
          if !done {
            return false;
          }
        }
        if after.Some? {
          var done := TryIndex(index, objectType, key, after.value, Add);
          if !done {
            return false;
          }
        }
        i := i + 1;
      }
      ok := true;
    }

    /** The write and its index updates as one transaction. */
    method Write(key: string, after: Option<Object>) returns (ok: bool)
      requires Valid()
      modifies this`primary, this`databases
      ensures Valid() && InStep(primary, databases, definitions)
      ensures ok == UpdateAll(old(databases), definitions, names, TypeOf(key), key, Stored(old(primary), key), after).Some?
      ensures primary == if ok then After(old(primary), key, after) else old(primary)
      ensures !ok ==> databases == old(databases)
    {
      hide InStep;
      ConsistentExactlyWhen(primary, databases, definitions);
      var wasPrimary, wasDatabases := primary, databases;
      primary := After(primary, key, after);
      ok := UpdateIndexes(TypeOf(key), key, Stored(wasPrimary, key), after);
      if ok {
        UpdateKeepsConsistent(wasPrimary, wasDatabases, definitions, names, key, after);
        ConsistentExactlyWhen(primary, databases, definitions);
        UpdateKeepsUnique(wasDatabases, definitions, names, TypeOf(key), key, Stored(wasPrimary, key), after);
      } else {
        primary, databases := wasPrimary, wasDatabases;
      }
    }

    /** Refused when the key exists, or when the object cannot be indexed. */
    method AddObject(objectType: string, uuid: Uuid, o: Object) returns (ok: bool)
      requires Valid()
      modifies this`primary, this`databases
      ensures Valid() && InStep(primary, databases, definitions)
      ensures var key := SetKey(objectType, uuid);
        ok <==> key !in old(primary)
                && forall n | n in names :: Admits(old(databases), definitions[n], n, objectType, key, None, o)
      ensures ok ==> primary == old(primary)[SetKey(objectType, uuid) := o]
      ensures !ok ==> primary == old(primary) && databases == old(databases)
    {
      hide InStep, Consistent, UniqueHolds, Accepts, Admits;
      ConsistentExactlyWhen(primary, databases, definitions);
      var key := SetKey(objectType, uuid);
      if key in primary {
        return false;
      }
      KeyRoundTrip(objectType, uuid, "");
      AllAcceptExactlyWhen(primary, databases, definitions, names, objectType, key, None, o);
      AcceptedExactly(databases, definitions, names, objectType, key, None, o);
      ok := Write(key, Some(o));
    }

    /** Refused when the object does not exist or the result cannot be indexed. */
    method ModifyObject(objectType: string, uuid: Uuid, change: Object -> Object) returns (ok: bool)
      requires Valid()
      modifies this`primary, this`databases
      ensures Valid() && InStep(primary, databases, definitions)
      ensures var key := SetKey(objectType, uuid);
        ok <==> key in old(primary)
                && forall n | n in names :: Admits(old(databases), definitions[n], n, objectType, key,
                                                    Some(old(primary)[key]), change(old(primary)[key]))
      ensures var key := SetKey(objectType, uuid);
        ok ==> primary == old(primary)[key := change(old(primary)[key])]
      ensures !ok ==> primary == old(primary) && databases == old(databases)
    {
      hide InStep, Consistent, UniqueHolds, Accepts, Admits;
      ConsistentExactlyWhen(primary, databases, definitions);
      var key := SetKey(objectType, uuid);
      if key !in primary {
        return false;
      }
      KeyRoundTrip(objectType, uuid, "");
      AllAcceptExactlyWhen(primary, databases, definitions, names, objectType, key, Some(primary[key]), change(primary[key]));
      StoredIsIndexed(primary, databases, definitions, key);
      AcceptedExactly(databases, definitions, names, objectType, key, Some(primary[key]), change(primary[key]));
      ok := Write(key, Some(change(primary[key])));
    }

    method ReplaceObject(objectType: string, uuid: Uuid, o: Object) returns (ok: bool)
      requires Valid()
      modifies this`primary, this`databases
      ensures Valid() && InStep(primary, databases, definitions)
      ensures var key := SetKey(objectType, uuid);
        ok <==> key in old(primary)
                && forall n | n in names :: Admits(old(databases), definitions[n], n, objectType, key,
                                                    Some(old(primary)[key]), o)
      ensures ok ==> primary == old(primary)[SetKey(objectType, uuid) := o]
      ensures !ok ==> primary == old(primary) && databases == old(databases)
    {
      hide InStep, Consistent, UniqueHolds, Accepts, Admits;
      ConsistentExactlyWhen(primary, databases, definitions);
      var key := SetKey(objectType, uuid);
      if key !in primary {
        return false;
      }
      KeyRoundTrip(objectType, uuid, "");
      AllAcceptExactlyWhen(primary, databases, definitions, names, objectType, key, Some(primary[key]), o);
      StoredIsIndexed(primary, databases, definitions, key);
      AcceptedExactly(databases, definitions, names, objectType, key, Some(primary[key]), o);
      ok := Write(key, Some(o));
    }

    /** Succeeds exactly when the object exists. */
    method DeleteObject(objectType: string, uuid: Uuid) returns (ok: bool)
      requires Valid()
      modifies this`primary, this`databases
      ensures Valid() && InStep(primary, databases, definitions)
      ensures ok == (SetKey(objectType, uuid) in old(primary))
      ensures ok ==> primary == old(primary) - {SetKey(objectType, uuid)}
      ensures !ok ==> primary == old(primary) && databases == old(databases)
    {
      hide InStep, Consistent, UniqueHolds, Accepts, Admits;
      ConsistentExactlyWhen(primary, databases, definitions);
      var key := SetKey(objectType, uuid);
      if key !in primary {
        return false;
      }
      StoredIsIndexed(primary, databases, definitions, key);
      DeleteSucceeds(databases, definitions, names, TypeOf(key), key, primary[key]);
      ok := Write(key, None);
    }
  }

  lemma {:induction false} DeleteSucceeds(dbs: Databases, defs: Definitions, names: seq<string>, objectType: string,
                                          key: string, o: Object)
    requires forall n | n in names :: n in defs && Texts(defs[n], n, objectType, key, o).Some?
    ensures UpdateAll(dbs, defs, names, objectType, key, Some(o), None).Some?
    decreases |names|
  {
    if names != [] {
      assert names[0] in names;
      var next := Update(dbs, defs[names[0]], names[0], objectType, key, Some(o), None).value;
      DeleteSucceeds(next, defs, names[1..], objectType, key, o);
    }
  }
}
