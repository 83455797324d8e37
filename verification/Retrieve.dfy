/** retrieve_objects end to end: the index databases a session keeps, the planned
    query over them, and the scan of the primary database. */
module Retrieve {
  import opened Basics
  import opened Criteria
  import opened LmdbKeys
  import opened Planner
  import opened PlanMeaning
  import opened IndexQuery
  import opened IndexStore

  /** An index on the property of its own name, without filter or case folding. */
  ghost predicate Plain(d: Definition) {
    d.value.None? && d.fold.None? && forall t, k, o :: d.filter(t, k, o)
  }

  ghost predicate PlainlyIndexed(defs: Definitions, objectType: string, property: string) {
    property in defs && Plain(defs[property]) && TypeApplies(defs[property], objectType)
  }

  /** The stored objects of one type. */
  function StoreOf(primary: Primary, objectType: string): Store {
    map k | k in primary && TypeOf(k) == objectType :: primary[k]
  }

  /** What the planner sees of the databases: which properties are indexed for the
      type, and the duplicates stored under an entry's value, each once.  The store
      does not look for an empty value, so opening a cursor for one throws. */
  ghost predicate Reads(env: Env, dbs: Databases, defs: Definitions, objectType: string, f: Filter) {
    && (forall p :: p in env.indexed <==> p in defs && TypeApplies(defs[p], objectType))
    && forall e | e in Entries(f) && e.property in env.indexed ::
         && env.opens(e) == (e.value != "")
         && Distinct(env.contents(e))
         && forall k :: k in env.contents(e) <==> (e.value, k) in Pairs(dbs, DatabaseName(objectType, e.property))
  }

  lemma PlainTexts(d: Definition, index: string, objectType: string, k: string, o: Object)
    requires Plain(d) && TypeApplies(d, objectType) && index in o
    ensures Texts(d, index, objectType, k, o) == Some(o[index].Items())
  {
    assert d.filter(objectType, k, o);
    assert Folded(d, o[index].Items()) == o[index].Items();
  }

  /** A consistent plain index holds a value's key exactly when the stored object
      has that value, which must not be empty. */
  lemma PairsAreHolders(primary: Primary, dbs: Databases, defs: Definitions, objectType: string, e: Entry, k: string)
    requires Consistent(primary, dbs, defs) && PlainlyIndexed(defs, objectType, e.property) && e.op == Eq
    ensures (e.value, k) in Pairs(dbs, DatabaseName(objectType, e.property))
      <==> e.value != "" && k in StoreOf(primary, objectType) && Holds(e, primary[k])
    ensures k in StoreOf(primary, objectType) ==> e.property in primary[k]
  {
    var d, p := defs[e.property], (e.value, k);
    assert p in Pairs(dbs, DatabaseName(objectType, e.property)) <==> IsOwed(primary, d, e.property, objectType, p);
    if k in StoreOf(primary, objectType) {
      assert Texts(d, e.property, objectType, k, primary[k]).Some?;
      assert d.filter(objectType, k, primary[k]);
      PlainTexts(d, e.property, objectType, k, primary[k]);
      EqHolds(e, primary[k]);
    }
  }

  /** A cursor for an entry holds exactly the objects the entry holds of just when
      the entry's value is not the empty string, or no stored object has that. */
  lemma CursorExactlyWhen(primary: Primary, dbs: Databases, defs: Definitions, objectType: string, e: Entry)
    requires Consistent(primary, dbs, defs) && PlainlyIndexed(defs, objectType, e.property) && e.op == Eq
    ensures (forall k :: (e.value, k) in Pairs(dbs, DatabaseName(objectType, e.property))
               <==> k in StoreOf(primary, objectType) && Holds(e, primary[k]))
      <==> (e.value != "" || forall k | k in StoreOf(primary, objectType) :: !Holds(e, primary[k]))
  {
    forall k
      ensures (e.value, k) in Pairs(dbs, DatabaseName(objectType, e.property))
        <==> e.value != "" && k in StoreOf(primary, objectType) && Holds(e, primary[k])
    {
      PairsAreHolders(primary, dbs, defs, objectType, e, k);
    }
  }

  ghost predicate Served(primary: Primary, dbs: Databases, defs: Definitions, objectType: string, f: Filter) {
    && Consistent(primary, dbs, defs)
    && f.Node? && Monotone(f) && EqOnly(f)
    && forall e | e in Entries(f) :: PlainlyIndexed(defs, objectType, e.property)
  }

  lemma {:induction false} ServedIsAskable(primary: Primary, dbs: Databases, defs: Definitions, objectType: string,
                                           f: Filter, env: Env)
    requires Served(primary, dbs, defs, objectType, f) && Reads(env, dbs, defs, objectType, f)
    requires Plannable(env, f)
    ensures Askable(env, f, StoreOf(primary, objectType))
    ensures MissingIsTested(env, f, StoreOf(primary, objectType))
  {
    var store := StoreOf(primary, objectType);
    IndexedIsPlannable(env, f);
    PlannedExactly(env, f);
    forall e, k | e in Entries(f)
      ensures k in env.contents(e) <==> k in store && Holds(e, store[k])
      ensures k in store ==> e.property in store[k]
    {
      PairsAreHolders(primary, dbs, defs, objectType, e, k);
    }
    forall k | k in store
      ensures !MeetsMissing(f, store[k])
    {
      DefinedNeverMissing(f, store[k]);
    }
  }

  /** Over a session's consistent databases, a monotone filter of `Eq` entries on
      plainly indexed properties is answered by the indexes exactly when the planner
      has a plan, which it has when no value is empty and all counts are available.
      The answer has each object at most once, and the scan's objects exactly when no match was
      held only by cursors that a merge dropped. */
  lemma {:induction false} IndexedRetrieve(primary: Primary, dbs: Databases, defs: Definitions, objectType: string,
                                           f: Filter, env: Env, keys: seq<string>)
    requires Served(primary, dbs, defs, objectType, f) && Reads(env, dbs, defs, objectType, f)
    requires Ordered(keys) && (forall k :: k in keys <==> k in primary)
    requires objectType != "" && Contiguous(keys, objectType)
    ensures Sargable(env, f) == Some(true)
    ensures Counted(env, f) && (forall e | e in Entries(f) :: e.value != "") ==> Plannable(env, f)
    ensures Answer(env, f, StoreOf(primary, objectType)).Some? <==> Plannable(env, f)
    ensures Plannable(env, f) ==>
      && Distinct(Answer(env, f, StoreOf(primary, objectType)).value)
      && PlanOf(env, f).Planned?
      && ((forall k :: k in Answer(env, f, StoreOf(primary, objectType)).value
             <==> k in Scan(keys, Some(objectType), f, primary))
          <==> DropsAreCovered(env, f, StoreOf(primary, objectType)))
  {
    var store := StoreOf(primary, objectType);
    IndexedIsPlannable(env, f);
    IndexedIsSargable(env, f);
    PlannedExactly(env, f);
    if Plannable(env, f) {
      ServedIsAskable(primary, dbs, defs, objectType, f, env);
      QueryIsScanExactlyWhen(env, f, store);
      ContiguousScan(keys, objectType, f, primary);
      forall k
        ensures k in Scan(keys, Some(objectType), f, primary) <==> k in store && Walk(f, store[k])
      {
        assert k in store ==> store[k] == primary[k];
      }
    }
  }

  /** retrieve_objects: without a type everything is scanned; with one the indexes answer
      where the filter is sargable, and else the type is scanned.  None when the call
      throws. */
  method RetrieveObjects(env: Env, keys: seq<string>, primary: Primary, objectType: Option<string>,
                         criteria: Option<Filter>, abandons: seq<string> -> bool)
    returns (r: Option<seq<string>>)
    requires forall k | k in keys :: k in primary
    requires objectType.Some? && criteria.Some? && PlanOf(env, criteria.value).Planned? ==>
      Resolved(PlanOf(env, criteria.value).cursors, StoreOf(primary, objectType.value))
    ensures objectType == None || criteria == None || Sargable(env, criteria.value) == Some(false) ==>
      r.Some? && HandedOn(r.value, Scan(keys, objectType, if criteria.Some? then criteria.value else Accept, primary), abandons)
    ensures objectType.Some? && criteria.Some? && Sargable(env, criteria.value) == Some(true) ==>
      r == Answer(env, criteria.value, StoreOf(primary, objectType.value))
    ensures objectType.Some? && criteria.Some? && Sargable(env, criteria.value) == None ==> r == None
  {
    hide PlanOf, Sargable, Answer, Scan, HandedOn, StoreOf, Resolved;
    var f := if criteria.Some? then criteria.value else Accept;
    var sargable := if objectType == None || criteria == None then Some(false) else Sargable(env, f);
    if sargable == None {
      return None;
    }
    if sargable.value {
      r := Query(env, f, StoreOf(primary, objectType.value));
    } else {
      var out := DumpObjects(keys, objectType, f, primary, abandons);
      r := Some(out);
    }
  }

  /** A call with a type and a monotone filter throws exactly when every match has an
      indexed entry of the filter and yet there is no plan with a cursor. */
  lemma RetrieveThrowsExactlyWhen(env: Env, f: Filter, store: Store)
    requires f.Node? && Monotone(f)
    ensures Sargable(env, f).Some?
    ensures Sargable(env, f) == Some(true) && Answer(env, f, store) == None
      <==> (forall v: iset<Entry> :: MayHold(f, v) ==> IsSeen(env, f, v)) && !(Plannable(env, f) && HasCursor(env, f))
  {
    hide Sargable, MayHold, IsSeen, Plannable, HasCursor, PlanOf, Monotone;
    SargableExactlyWhen(env, f);
    PlannedExactly(env, f);
  }

  lemma {:induction false} IndexedIsSargable(env: Env, f: Filter)
    requires f.Node? && Monotone(f) && EqOnly(f) && forall e | e in Entries(f) :: e.property in env.indexed
    ensures Sargable(env, f) == Some(true)
  {
    if f.onTrue.Node? {
      IndexedIsSargable(env, f.onTrue);
    }
    if f.onFalse.Node? {
      IndexedIsSargable(env, f.onFalse);
    }
  }
}
