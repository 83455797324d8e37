/** The primary database's keys, `{object type}{uuid}`, and the scan over them. */
module LmdbKeys {
  import opened Basics
  import opened Criteria

  const UUID_SIZE := 16

  type Uuid = u: string | |u| == UUID_SIZE witness "0123456789abcdef"

  function SetKey(objectType: string, uuid: Uuid): string {
    objectType + uuid
  }

  /** The type is whatever precedes the last 16 octets, and is empty in a bare
      uuid key. */
  function TypeOf(key: string): string {
    if |key| > UUID_SIZE then key[..|key| - UUID_SIZE] else ""
  }

  function UuidOf(key: string): Uuid
    requires |key| >= UUID_SIZE
  {
    key[|key| - UUID_SIZE..]
  }

  /** Splitting a key inverts joining it, and joining inverts splitting. */
  lemma KeyRoundTrip(objectType: string, uuid: Uuid, key: string)
    ensures TypeOf(SetKey(objectType, uuid)) == objectType && UuidOf(SetKey(objectType, uuid)) == uuid
    ensures |key| >= UUID_SIZE ==> SetKey(TypeOf(key), UuidOf(key)) == key
  {
    assert (objectType + uuid)[..|objectType|] == objectType;
    if |key| == UUID_SIZE {
      assert "" + key == key;
    }
  }

  // ---- the scan

  /** Keys in the order the database's cursor visits them. */
  ghost predicate Ordered(keys: seq<string>) {
    forall i, j | 0 <= i < j < |keys| :: Less(keys[i], keys[j])
  }

  /** MDB_SET_RANGE: the first key that is not below the type's name. */
  function StartOf(keys: seq<string>, objectType: string): (i: nat)
    ensures i <= |keys|
    ensures forall j | 0 <= j < i :: Less(keys[j], objectType)
    ensures i < |keys| ==> !Less(keys[i], objectType)
  {
    if keys == [] || !Less(keys[0], objectType) then 0 else 1 + StartOf(keys[1..], objectType)
  }

  predicate Selects(f: Filter, store: map<string, Object>, key: string) {
    key in store && Walk(f, store[key])
  }

  /** The scan of one type ends at the first key that has another. */
  predicate Ends(wanted: Option<string>, key: string) {
    wanted.Some? && TypeOf(key) != "" && TypeOf(key) != wanted.value
  }

  /** What the scan hands on from position `i`: keys without a type are passed over. */
  function ScanFrom(keys: seq<string>, i: nat, wanted: Option<string>, f: Filter, store: map<string, Object>): seq<string>
    requires i <= |keys|
    decreases |keys| - i
  {
    if i == |keys| || Ends(wanted, keys[i]) then []
    else if TypeOf(keys[i]) != "" && Selects(f, store, keys[i]) then
      [keys[i]] + ScanFrom(keys, i + 1, wanted, f, store)
    else ScanFrom(keys, i + 1, wanted, f, store)
  }

  /** The scan of one type, or of everything. */
  function Scan(keys: seq<string>, wanted: Option<string>, f: Filter, store: map<string, Object>): seq<string> {
    ScanFrom(keys, if wanted.Some? then StartOf(keys, wanted.value) else 0, wanted, f, store)
  }

  /** The callback sees `all` in order, up to the first call at which it abandons;
      `abandons` is its answer once it has seen a sequence of keys. */
  ghost predicate HandedOn(out: seq<string>, all: seq<string>, abandons: seq<string> -> bool) {
    && out <= all && WentOn(out, abandons)
    && (if out == all then true else out != [] && abandons(out))
  }

  /** The callback asked for more each time but the last. */
  ghost predicate WentOn(out: seq<string>, abandons: seq<string> -> bool) {
    forall n | 0 < n < |out| :: !abandons(out[..n])
  }

  lemma NothingYet(abandons: seq<string> -> bool)
    ensures WentOn([], abandons)
  {
  }

  lemma GoesOn(out: seq<string>, key: string, abandons: seq<string> -> bool)
    requires WentOn(out, abandons) && (out != [] ==> !abandons(out))
    ensures WentOn(out + [key], abandons)
  {
    forall n | 0 < n < |out + [key]|
      ensures !abandons((out + [key])[..n])
    {
      assert (out + [key])[..n] == out[..n] && out[..|out|] == out;
    }
  }

  lemma ScanStep(keys: seq<string>, i: nat, wanted: Option<string>, f: Filter, store: map<string, Object>)
    requires i <= |keys| && forall k | k in keys :: k in store
    ensures var rest := ScanFrom(keys, i, wanted, f, store);
      if i == |keys| || Ends(wanted, keys[i]) then rest == []
      else rest == (if TypeOf(keys[i]) != "" && Walk(f, store[keys[i]]) then [keys[i]] else [])
                   + ScanFrom(keys, i + 1, wanted, f, store)
    ensures i < |keys| && Ends(wanted, keys[i]) ==> TypeOf(keys[i]) != ""
  {
    if i < |keys| {
      assert keys[i] in store;
    }
  }

  lemma Onwards(out: seq<string>, head: seq<string>, rest: seq<string>)
    ensures out + (head + rest) == out + head + rest && out <= out + rest && out + [] == out && [] + rest == rest
  {
  }

  lemma PrefixOfLonger(one: seq<string>, two: seq<string>, all: seq<string>)
    requires one <= all && two <= all && |one| <= |two|
    ensures one == two[..|one|]
  {
    assert one == all[..|one|] && two == all[..|two|];
  }

  /** That leaves one possibility. */
  lemma HandedOnOnce(one: seq<string>, two: seq<string>, all: seq<string>, abandons: seq<string> -> bool)
    requires HandedOn(one, all, abandons) && HandedOn(two, all, abandons)
    ensures one == two
  {
    if |one| <= |two| {
      PrefixOfLonger(one, two, all);
    } else {
      PrefixOfLonger(two, one, all);
    }
  }

  method DumpObjects(keys: seq<string>, wanted: Option<string>, f: Filter, store: map<string, Object>,
                     abandons: seq<string> -> bool)
    returns (out: seq<string>)
    requires forall k | k in keys :: k in store
    ensures HandedOn(out, Scan(keys, wanted, f, store), abandons)
  {
    var start := 0;
    if wanted.Some? {
      start := StartOf(keys, wanted.value);
    }
    out := DumpFrom(keys, start, wanted, f, store, abandons);
  }

  method DumpFrom(keys: seq<string>, start: nat, wanted: Option<string>, f: Filter, store: map<string, Object>,
                  abandons: seq<string> -> bool)
    returns (out: seq<string>)
    requires start <= |keys| && forall k | k in keys :: k in store
    ensures HandedOn(out, ScanFrom(keys, start, wanted, f, store), abandons)
  {
    hide ScanFrom, Selects, Ends, TypeOf, Walk, WentOn;
    out := [];
    ghost var all := ScanFrom(keys, start, wanted, f, store);
    ghost var rest := all;
    var i := start;
    var abandon := false;
    Onwards([], [], all);
    ScanStep(keys, i, wanted, f, store);
    assert WentOn([], abandons) by {
      NothingYet(abandons);
    }
    while !abandon && i < |keys|
      invariant start <= i <= |keys|
      invariant rest == ScanFrom(keys, i, wanted, f, store) && all == out + rest
      invariant WentOn(out, abandons) && (if out == [] then !abandon else abandon == abandons(out))
      decreases |keys| - i
    {
      var key := keys[i];
      ScanStep(keys, i, wanted, f, store);
      i := i + 1;
      if TypeOf(key) != "" {
        if Ends(wanted, key) {
          Onwards(out, [], []);
          return;
        }
        var selected := TestObject(f, store[key]);
        if selected {
          Onwards(out, [key], ScanFrom(keys, i, wanted, f, store));
          GoesOn(out, key, abandons);
          out := out + [key];
          abandon := abandons(out);
        }
      }
      rest := ScanFrom(keys, i, wanted, f, store);
      Onwards([], [], rest);
    }
    ScanStep(keys, i, wanted, f, store);
    Onwards(out, [], rest);
  }

  /** A key of another type that begins with the type's name and comes before one
      of the type's own keys. */
  predicate Intruder(keys: seq<string>, objectType: string, i: nat) {
    && i < |keys| && TypeOf(keys[i]) != "" && TypeOf(keys[i]) != objectType && objectType <= keys[i]
    && exists j | i < j < |keys| :: TypeOf(keys[j]) == objectType
  }

  ghost predicate Contiguous(keys: seq<string>, objectType: string) {
    forall i: nat | i < |keys| :: !Intruder(keys, objectType, i)
  }

  ghost predicate DeliversType(keys: seq<string>, objectType: string, f: Filter, store: map<string, Object>)
  {
    forall k :: k in Scan(keys, Some(objectType), f, store)
      <==> k in keys && TypeOf(k) == objectType && Selects(f, store, k)
  }

  lemma {:induction false} ScanSound(keys: seq<string>, i: nat, wanted: Option<string>, f: Filter,
                                     store: map<string, Object>)
    requires i <= |keys|
    ensures forall k | k in ScanFrom(keys, i, wanted, f, store) ::
      k in keys[i..] && TypeOf(k) != "" && !Ends(wanted, k) && Selects(f, store, k)
    decreases |keys| - i
  {
    if i < |keys| {
      ScanSound(keys, i + 1, wanted, f, store);
      assert keys[i..] == [keys[i]] + keys[i + 1..];
    }
  }

  /** From position `i` the scan reaches position `j` if nothing of another type
      lies between. */
  lemma {:induction false} ScanReaches(keys: seq<string>, i: nat, j: nat, objectType: string, f: Filter,
                                       store: map<string, Object>)
    requires i <= j < |keys| && objectType != ""
    requires TypeOf(keys[j]) == objectType && Selects(f, store, keys[j])
    requires forall m | i <= m < j :: TypeOf(keys[m]) == "" || TypeOf(keys[m]) == objectType
    ensures keys[j] in ScanFrom(keys, i, Some(objectType), f, store)
    decreases j - i
  {
    if i < j {
      ScanReaches(keys, i + 1, j, objectType, f, store);
    }
  }

  lemma {:induction false} ScanStops(keys: seq<string>, i: nat, s: nat, objectType: string, f: Filter,
                                     store: map<string, Object>)
    requires i <= s < |keys| && Ordered(keys)
    requires TypeOf(keys[s]) != "" && TypeOf(keys[s]) != objectType
    ensures forall j | s < j < |keys| :: keys[j] !in ScanFrom(keys, i, Some(objectType), f, store)
    decreases s - i
  {
    if i < s {
      ScanStops(keys, i + 1, s, objectType, f, store);
      forall j | s < j < |keys|
        ensures keys[j] != keys[i]
      {
        LessAsymmetric(keys[i], keys[j]);
      }
    }
  }

  lemma StartBefore(keys: seq<string>, objectType: string, j: nat)
    requires Ordered(keys) && j < |keys| && objectType <= keys[j]
    ensures StartOf(keys, objectType) <= j
  {
    BetweenHasPrefix(objectType, keys[j], keys[j]);
  }

  lemma TypeIsPrefix(key: string)
    ensures TypeOf(key) <= key
  {
  }

  /** With no intruder, every key from the start up to one of the type's own keys
      is of that type or of none. */
  lemma OnlyOwnBetween(keys: seq<string>, objectType: string, j: nat)
    requires Ordered(keys) && j < |keys| && objectType != "" && TypeOf(keys[j]) == objectType
    requires Contiguous(keys, objectType)
    ensures StartOf(keys, objectType) <= j
    ensures forall m | StartOf(keys, objectType) <= m < j :: TypeOf(keys[m]) == "" || TypeOf(keys[m]) == objectType
  {
    TypeIsPrefix(keys[j]);
    StartBefore(keys, objectType, j);
    var start := StartOf(keys, objectType);
    forall m | start <= m < j
      ensures TypeOf(keys[m]) == "" || TypeOf(keys[m]) == objectType
    {
      assert !Less(keys[m], objectType) by {
        if Less(keys[m], objectType) {
          if start < m {
            LessTransitive(keys[start], keys[m], objectType);
          }
        }
      }
      LessAsymmetric(keys[m], keys[j]);
      BetweenHasPrefix(objectType, keys[j], keys[m]);
      assert !Intruder(keys, objectType, m);
    }
  }

  /** The scan of a type delivers exactly the type's matching objects, whatever
      the filter, just when no key of another type intrudes among the type's own. */
  lemma {:induction false} ScanExactlyWhen(keys: seq<string>, objectType: string, store: map<string, Object>)
    requires Ordered(keys) && objectType != "" && forall k | k in keys :: k in store
    ensures (forall f :: DeliversType(keys, objectType, f, store)) <==> Contiguous(keys, objectType)
  {
    if Contiguous(keys, objectType) {
      forall f
        ensures DeliversType(keys, objectType, f, store)
      {
        ContiguousScan(keys, objectType, f, store);
      }
    } else {
      var i: nat :| i < |keys| && Intruder(keys, objectType, i);
      var j :| i < j < |keys| && TypeOf(keys[j]) == objectType;
      StartBefore(keys, objectType, i);
      ScanStops(keys, StartOf(keys, objectType), i, objectType, Accept, store);
      assert keys[j] in keys && Selects(Accept, store, keys[j]);
      assert !DeliversType(keys, objectType, Accept, store);
    }
  }

  lemma {:induction false} ContiguousScan(keys: seq<string>, objectType: string, f: Filter, store: map<string, Object>)
    requires Ordered(keys) && objectType != ""
    requires Contiguous(keys, objectType)
    ensures DeliversType(keys, objectType, f, store)
  {
    var start := StartOf(keys, objectType);
    ScanSound(keys, start, Some(objectType), f, store);
    forall k | k in keys && TypeOf(k) == objectType && Selects(f, store, k)
      ensures k in Scan(keys, Some(objectType), f, store)
    {
      var j :| 0 <= j < |keys| && keys[j] == k;
      OnlyOwnBetween(keys, objectType, j);
      ScanReaches(keys, start, j, objectType, f, store);
    }
  }

  /** The scan of everything delivers exactly the matching objects that have a type. */
  lemma {:induction false} WholeScan(keys: seq<string>, i: nat, f: Filter, store: map<string, Object>)
    requires i <= |keys|
    ensures forall k :: k in ScanFrom(keys, i, None, f, store) <==> k in keys[i..] && TypeOf(k) != "" && Selects(f, store, k)
    decreases |keys| - i
  {
    if i < |keys| {
      WholeScan(keys, i + 1, f, store);
      assert keys[i..] == [keys[i]] + keys[i + 1..];
    }
  }

  /** Every scan delivers in key order, so nothing twice. */
  lemma {:induction false} ScanIsOrdered(keys: seq<string>, i: nat, wanted: Option<string>, f: Filter,
                                         store: map<string, Object>)
    requires i <= |keys| && Ordered(keys)
    ensures Ordered(ScanFrom(keys, i, wanted, f, store))
    decreases |keys| - i
  {
    hide Less, Selects, Ends;
    if i < |keys| {
      ScanIsOrdered(keys, i + 1, wanted, f, store);
      ScanSound(keys, i + 1, wanted, f, store);
      var rest := ScanFrom(keys, i + 1, wanted, f, store);
      forall j | 0 <= j < |rest|
        ensures Less(keys[i], rest[j])
      {
        assert rest[j] in keys[i + 1..];
      }
    }
  }

  /** No stored type name a proper prefix of another is enough. */
  lemma {:induction false} PrefixFreeIsContiguous(keys: seq<string>, objectType: string)
    requires objectType != ""
    requires forall k | k in keys && TypeOf(k) != "" && TypeOf(k) != objectType ::
      !(objectType <= TypeOf(k)) && !(TypeOf(k) <= objectType)
    ensures Contiguous(keys, objectType)
  {
    forall i: nat | i < |keys|
      ensures !Intruder(keys, objectType, i)
    {
      var k := keys[i];
      assert k in keys;
      TypeIsPrefix(k);
      if objectType <= k {
        PrefixesComparable(objectType, TypeOf(k), k);
      }
    }
  }

  lemma PrefixesComparable(a: string, b: string, k: string)
    requires a <= k && b <= k
    ensures a <= b || b <= a
  {
    if |a| <= |b| {
      assert a == k[..|a|] == b[..|a|];
    } else {
      assert b == k[..|b|] == a[..|b|];
    }
  }

  const CAT := "Cat" + "zzzzzzzzzzzzzzzz"
  const CATS := "Cats" + "0123456789abcdef"

  /** Two types, `Cat` and `Cats`: the key of a `Cats` object sorts before the
      uuid `z...` of a `Cat` object, and the scan of `Cat` delivers nothing. */
  lemma PrefixNameHidesObject(store: map<string, Object>)
    ensures Ordered([CATS, CAT]) && TypeOf(CAT) == "Cat"
    ensures Scan([CATS, CAT], Some("Cat"), Accept, store) == []
  {
    hide TypeOf, Less;
    KeyRoundTrip("Cat", "zzzzzzzzzzzzzzzz", "");
    KeyRoundTrip("Cats", "0123456789abcdef", "");
    CatsBeforeCat();
    BetweenHasPrefix("Cat", CATS, CATS);
    FirstEndsScan(CATS, CAT, "Cat", store);
  }

  lemma CatsBeforeCat()
    ensures Less(CATS, CAT) && "Cat" <= CATS
  {
    var rest, other := "s0123456789abcdef", "zzzzzzzzzzzzzzzz";
    assert rest[0] < other[0];
    CommonPrefix("Cat", rest, other);
    assert "Cats" + "0123456789abcdef" == "Cat" + rest;
  }

  lemma FirstEndsScan(a: string, b: string, objectType: string, store: map<string, Object>)
    requires Less(a, b) && !Less(a, objectType) && TypeOf(a) != "" && TypeOf(a) != objectType
    ensures Ordered([a, b]) && Scan([a, b], Some(objectType), Accept, store) == []
  {
    hide TypeOf, Less;
  }

  lemma {:induction false} CommonPrefix(p: string, a: string, b: string)
    requires Less(a, b)
    ensures Less(p + a, p + b)
  {
    if p == "" {
      assert p + a == a && p + b == b;
    } else {
      CommonPrefix(p[1..], a, b);
      assert (p + a)[1..] == p[1..] + a && (p + b)[1..] == p[1..] + b;
    }
  }
}
