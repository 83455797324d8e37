/** The vfs map: prefixes of object ids and the directories they stand for, kept in
    an array in an order in which the first match is the longest. */
module VfsMap {
  import opened Basics

  datatype Entry = Entry(prefix: string, directory: string)

  /** Longer prefixes first, then octet order. */
  predicate Precedes(a: Entry, b: Entry) {
    |a.prefix| > |b.prefix| || (|a.prefix| == |b.prefix| && Less(a.prefix, b.prefix))
  }

  predicate Ordered(s: seq<Entry>) {
    forall i, j | 0 <= i < j < |s| :: Precedes(s[i], s[j])
  }

  lemma PrecedesTotal(a: Entry, b: Entry)
    ensures Precedes(a, b) || Precedes(b, a) || a.prefix == b.prefix
    ensures Precedes(a, b) ==> !Precedes(b, a) && a.prefix != b.prefix
  {
    LessTotal(a.prefix, b.prefix);
    if Less(a.prefix, b.prefix) {
      LessAsymmetric(a.prefix, b.prefix);
    }
  }

  lemma PrecedesTransitive(a: Entry, b: Entry, c: Entry)
    requires Precedes(a, b) && Precedes(b, c)
    ensures Precedes(a, c)
  {
    if |a.prefix| == |b.prefix| == |c.prefix| {
      LessTransitive(a.prefix, b.prefix, c.prefix);
    }
  }

  /** How far the new entry moves: to just behind the last one that precedes it. */
  function Place(s: seq<Entry>, x: Entry): (i: nat)
    ensures i <= |s|
  {
    if s == [] then 0 else if Precedes(s[|s| - 1], x) then |s| else Place(s[..|s| - 1], x)
  }

  /** An entry it passes on the way has the same prefix. */
  predicate Clashes(s: seq<Entry>, x: Entry) {
    s != [] && !Precedes(s[|s| - 1], x) && (s[|s| - 1].prefix == x.prefix || Clashes(s[..|s| - 1], x))
  }

  function Inserted(s: seq<Entry>, x: Entry): seq<Entry> {
    s[..Place(s, x)] + [x] + s[Place(s, x)..]
  }

  /** In an ordered map every duplicate is met. */
  lemma {:induction false} ClashExactlyWhen(s: seq<Entry>, x: Entry)
    requires Ordered(s)
    ensures Clashes(s, x) <==> exists i | 0 <= i < |s| :: s[i].prefix == x.prefix
    decreases s
  {
    if s != [] {
      var last := s[|s| - 1];
      PrecedesTotal(last, x);
      if Precedes(last, x) {
        forall i | 0 <= i < |s|
          ensures s[i].prefix != x.prefix
        {
          if i < |s| - 1 {
            PrecedesTransitive(s[i], last, x);
          }
          PrecedesTotal(s[i], x);
        }
      } else {
        ClashExactlyWhen(s[..|s| - 1], x);
      }
    }
  }

  lemma {:induction false} PlaceSplits(s: seq<Entry>, x: Entry)
    requires Ordered(s) && !Clashes(s, x)
    ensures forall i | 0 <= i < Place(s, x) :: Precedes(s[i], x)
    ensures forall i | Place(s, x) <= i < |s| :: Precedes(x, s[i])
    decreases s
  {
    if s != [] {
      var last := s[|s| - 1];
      PrecedesTotal(last, x);
      if Precedes(last, x) {
        forall i | 0 <= i < |s| - 1
          ensures Precedes(s[i], x)
        {
          PrecedesTransitive(s[i], last, x);
        }
      } else {
        PlaceSplits(s[..|s| - 1], x);
      }
    }
  }

  /** An insertion without a clash keeps the order. */
  lemma InsertedIsOrdered(s: seq<Entry>, x: Entry)
    requires Ordered(s) && !Clashes(s, x)
    ensures Ordered(Inserted(s, x))
  {
    hide Precedes, Clashes, Place;
    PlaceSplits(s, x);
  }

  /** It adds the entry and loses none. */
  lemma InsertedAdds(s: seq<Entry>, x: Entry)
    ensures multiset(Inserted(s, x)) == multiset(s) + multiset{x}
  {
    hide Place;
    assert s == s[..Place(s, x)] + s[Place(s, x)..];
  }

  lemma SameFirst(s: seq<Entry>, t: seq<Entry>)
    requires Ordered(s) && Ordered(t) && multiset(s) == multiset(t) && s != []
    ensures t != [] && s[0] == t[0]
  {
    hide Precedes;
    assert s[0] in multiset(s) && s[0] in t;
    assert t[0] in multiset(t) && t[0] in s;
    var i :| 0 <= i < |s| && s[i] == t[0];
    var j :| 0 <= j < |t| && t[j] == s[0];
    if i > 0 && j > 0 {
      PrecedesTotal(s[0], t[0]);
    }
  }

  /** The map has one order only, whatever order its entries were given in. */
  lemma {:induction false} OrderIsUnique(s: seq<Entry>, t: seq<Entry>)
    requires Ordered(s) && Ordered(t) && multiset(s) == multiset(t)
    ensures s == t
    decreases s
  {
    hide Precedes;
    if s == [] {
      assert |t| == |multiset(t)|;
    } else {
      SameFirst(s, t);
      assert s == [s[0]] + s[1..] && t == [t[0]] + t[1..];
      assert multiset(s[1..]) == multiset(s) - multiset{s[0]} && multiset(t[1..]) == multiset(t) - multiset{t[0]};
      OrderIsUnique(s[1..], t[1..]);
    }
  }

  /** The first prefix of an object id, in map order. */
  function FirstMatch(s: seq<Entry>, id: string): (i: nat)
    ensures i <= |s|
    ensures i < |s| ==> s[i].prefix <= id
    ensures forall j | 0 <= j < i :: !(s[j].prefix <= id)
  {
    if s == [] || s[0].prefix <= id then 0 else 1 + FirstMatch(s[1..], id)
  }

  /** In an ordered map that is the longest one, and there is no other of its length. */
  lemma FirstMatchIsLongest(s: seq<Entry>, id: string)
    requires Ordered(s)
    ensures FirstMatch(s, id) == |s| <==> forall e | e in s :: !(e.prefix <= id)
    ensures forall e | FirstMatch(s, id) < |s| && e in s && e.prefix <= id && e != s[FirstMatch(s, id)] ::
              |e.prefix| < |s[FirstMatch(s, id)].prefix|
  {
    var i := FirstMatch(s, id);
    if i < |s| {
      forall e | e in s && e.prefix <= id && e != s[i]
        ensures |e.prefix| < |s[i].prefix|
      {
        var j :| 0 <= j < |s| && s[j] == e;
        assert Precedes(s[i], e);
        if |e.prefix| == |s[i].prefix| {
          assert e.prefix == id[..|e.prefix|] == s[i].prefix;
          PrecedesTotal(s[i], e);
        }
      }
    }
  }

  predicate NoRepeat(configured: seq<Entry>) {
    forall i, j | 0 <= i < j < |configured| :: configured[i].prefix != configured[j].prefix
  }

  /** `s` is the map of the list `t`. */
  ghost predicate MapOf(s: seq<Entry>, t: seq<Entry>) {
    Ordered(s) && multiset(s) == multiset(t) && NoRepeat(t)
  }

  lemma SamePrefixes(s: seq<Entry>, t: seq<Entry>, x: Entry)
    requires multiset(s) == multiset(t)
    ensures (exists i | 0 <= i < |s| :: s[i].prefix == x.prefix) <==> exists i | 0 <= i < |t| :: t[i].prefix == x.prefix
  {
    if i :| 0 <= i < |s| && s[i].prefix == x.prefix {
      assert s[i] in multiset(t) && s[i] in t;
    }
    if i :| 0 <= i < |t| && t[i].prefix == x.prefix {
      assert t[i] in multiset(s) && t[i] in s;
    }
  }

  lemma NoRepeatOneMore(t: seq<Entry>, k: nat)
    requires k < |t| && NoRepeat(t[..k])
    ensures NoRepeat(t[..k + 1]) <==> !(exists i | 0 <= i < |t[..k]| :: t[..k][i].prefix == t[k].prefix)
    ensures NoRepeat(t) ==> NoRepeat(t[..k + 1])
  {
    assert forall i | 0 <= i < k :: t[..k + 1][i] == t[..k][i];
    assert t[..k + 1][k] == t[k];
  }

  /** One more entry of the list: refused exactly when its prefix is there already. */
  lemma MapOneMore(s: seq<Entry>, t: seq<Entry>, k: nat)
    requires k < |t| && MapOf(s, t[..k])
    ensures Clashes(s, t[k]) ==> !NoRepeat(t)
    ensures !Clashes(s, t[k]) ==> MapOf(Inserted(s, t[k]), t[..k + 1])
  {
    hide Precedes, Clashes, Inserted, Ordered, NoRepeat;
    SamePrefixes(s, t[..k], t[k]);
    ClashExactlyWhen(s, t[k]);
    NoRepeatOneMore(t, k);
    if !Clashes(s, t[k]) {
      InsertedIsOrdered(s, t[k]);
      InsertedAdds(s, t[k]);
      assert t[..k + 1] == t[..k] + [t[k]];
    }
  }

  // ---- the array

  lemma PlaceStep(s: seq<Entry>, e: nat, x: Entry)
    requires e <= |s|
    ensures e == 0 ==> Place(s[..e], x) == 0 && !Clashes(s[..e], x)
    ensures e > 0 && Precedes(s[e - 1], x) ==> Place(s[..e], x) == e && !Clashes(s[..e], x)
    ensures e > 0 && !Precedes(s[e - 1], x) ==>
      && Place(s[..e], x) == Place(s[..e - 1], x)
      && (Clashes(s[..e], x) <==> s[e - 1].prefix == x.prefix || Clashes(s[..e - 1], x))
  {
    if e > 0 {
      assert s[..e][..e - 1] == s[..e - 1];
    }
  }

  /** Move the entry at `count` to its place among those before it. */
  method MoveToPlace(entries: array<Entry>, count: nat) returns (ok: bool)
    requires count < entries.Length
    modifies entries
    ensures ok <==> !Clashes(old(entries[..count]), old(entries[count]))
    ensures ok ==> entries[..count + 1] == Inserted(old(entries[..count]), old(entries[count]))
    ensures entries[count + 1..] == old(entries[count + 1..])
  {
    hide Precedes, Clashes, Place;
    ghost var s, x := entries[..count], entries[count];
    var e := count;
    assert s[..e] == s;
    while e > 0
      invariant 0 <= e <= count
      invariant entries[..e] == s[..e] && entries[e] == x && entries[e + 1..count + 1] == s[e..]
      invariant entries[count + 1..] == old(entries[count + 1..])
      invariant Clashes(s[..e], x) == Clashes(s, x) && Place(s[..e], x) == Place(s, x)
    {
      PlaceStep(s, e, x);
      assert entries[e - 1] == s[e - 1];
      if Precedes(entries[e - 1], entries[e]) {
        break;
      }
      if entries[e - 1].prefix == entries[e].prefix {
        return false;
      }
      entries[e - 1], entries[e] := entries[e], entries[e - 1];
      e := e - 1;
    }
    ok := true;
    PlaceStep(s, e, x);
    assert entries[..count + 1] == s[..e] + [x] + s[e..];
  }

  // ---- configured entries, `prefix=directory`

  /** Where the first `=` is, or the length if there is none. */
  function EqualAt(text: string): (k: nat)
    ensures k <= |text| && '=' !in text[..k] && (k < |text| ==> text[k] == '=')
    ensures k < |text| <==> '=' in text
  {
    if text == "" || text[0] == '=' then 0
    else
      var k := 1 + EqualAt(text[1..]);
      assert text[..k] == [text[0]] + text[1..][..k - 1];
      k
  }

  /** The source's test for an entry without `=` or without a directory behind it. */
  predicate TestRefuses(text: string) {
    EqualAt(text) + |text| == 2
  }

  predicate EndsInSlash(s: string) {
    s != "" && s[|s| - 1] == '/'
  }

  function EntryOf(text: string): Entry
    requires '=' in text
  {
    Entry(text[..EqualAt(text)], text[EqualAt(text) + 1..])
  }

  predicate Accepted(text: string, isDirectory: string -> bool)
    requires '=' in text
  {
    var e := EntryOf(text);
    && !TestRefuses(text) && (e.prefix == "" || EndsInSlash(e.prefix))
    && EndsInSlash(e.directory) && isDirectory(e.directory)
  }

  lemma {:induction false} EqualIs(text: string, c: nat)
    requires c <= |text| && '=' !in text[..c] && (c < |text| ==> text[c] == '=')
    ensures EqualAt(text) == c
  {
    assert c > 0 ==> text[0] in text[..c];
    if c > 0 {
      assert text[..c][1..] == text[1..][..c - 1];
      EqualIs(text[1..], c - 1);
    }
  }

  /** What the documentation asks of an entry. */
  ghost predicate WellFormed(text: string, isDirectory: string -> bool) {
    exists prefix, directory :: Spells(text, prefix, directory, isDirectory)
  }

  predicate Spells(text: string, prefix: string, directory: string, isDirectory: string -> bool) {
    && text == prefix + "=" + directory && '=' !in prefix && (prefix == "" || EndsInSlash(prefix))
    && EndsInSlash(directory) && isDirectory(directory)
  }

  lemma OneSpelling(text: string, prefix: string, directory: string)
    requires text == prefix + "=" + directory && '=' !in prefix
    ensures '=' in text && EntryOf(text) == Entry(prefix, directory)
  {
    var k := |prefix|;
    assert text[k] == '=' && text[..k] == prefix && text[k + 1..] == directory;
    EqualIs(text, k);
  }

  /** The test catches an entry without `=` only if it has one octet, and it catches
      every entry that is `=` and one octet more. */
  lemma TestRefusesExactlyWhen(text: string)
    ensures TestRefuses(text) <==> ('=' !in text && |text| == 1) || (|text| == 2 && text[0] == '=')
  {
    if |text| == 2 {
      assert text[0] == '=' <==> EqualAt(text) == 0;
    }
  }

  /** Of the entries that have an `=` the source accepts the well-formed ones, except
      the root directory for the empty prefix. */
  lemma AcceptedExactlyWhen(text: string, isDirectory: string -> bool)
    requires '=' in text
    ensures Accepted(text, isDirectory) <==> WellFormed(text, isDirectory) && text != "=/"
  {
    hide EqualAt;
    TestRefusesExactlyWhen(text);
    var e := EntryOf(text);
    assert text == e.prefix + "=" + e.directory && '=' !in e.prefix;
    if prefix, directory :| Spells(text, prefix, directory, isDirectory) {
      OneSpelling(text, prefix, directory);
      if |text| == 2 && text[0] == '=' {
        RootOnly(prefix, directory);
      }
    }
    if Accepted(text, isDirectory) {
      assert Spells(text, e.prefix, e.directory, isDirectory);
    }
  }

  /** An entry of two octets that begins with `=` stands for a directory of one octet. */
  lemma RootOnly(prefix: string, directory: string)
    requires |prefix| + 1 + |directory| == 2 && directory != "" && EndsInSlash(directory)
    ensures prefix + "=" + directory == "=/"
  {
    assert directory == [directory[0]];
  }

  /** One entry of the configuration; nothing when it is refused. */
  method ParseEntry(text: string, isDirectory: string -> bool) returns (r: Option<Entry>)
    requires '=' in text
    ensures r == if Accepted(text, isDirectory) then Some(EntryOf(text)) else None
  {
    var c := 0;
    while c < |text| && text[c] != '='
      invariant 0 <= c <= |text| && '=' !in text[..c]
    {
      assert text[..c + 1] == text[..c] + [text[c]];
      c := c + 1;
    }
    EqualIs(text, c);
    if c + |text| == 2 {
      return None;
    }
    var prefix, directory := text[..c], text[c + 1..];
    if prefix != "" && !EndsInSlash(prefix) {
      return None;
    }
    if directory == "" || !EndsInSlash(directory) {
      return None;
    }
    if !isDirectory(directory) {
      return None;
    }
    r := Some(Entry(prefix, directory));
  }

  function EntriesOf(configured: seq<string>): (r: seq<Entry>)
    requires forall t | t in configured :: '=' in t
    ensures |r| == |configured| && forall i | 0 <= i < |r| :: r[i] == EntryOf(configured[i])
  {
    seq(|configured|, i requires 0 <= i < |configured| => EntryOf(configured[i]))
  }

  /** The next entry of the list `all`, moved to its place. */
  method AddEntry(entries: array<Entry>, k: nat, e: Entry, ghost all: seq<Entry>) returns (ok: bool)
    requires k < entries.Length == |all| && e == all[k] && MapOf(entries[..k], all[..k])
    modifies entries
    ensures ok ==> MapOf(entries[..k + 1], all[..k + 1])
    ensures !ok ==> !NoRepeat(all)
  {
    hide Precedes, Clashes, Inserted, NoRepeat, Ordered, MapOf;
    ghost var s := entries[..k];
    entries[k] := e;
    assert entries[..k] == s;
    MapOneMore(s, all, k);
    ok := MoveToPlace(entries, k);
  }

  lemma MapIs(s: seq<Entry>, t: seq<Entry>)
    requires MapOf(s, t)
    ensures Ordered(s) && multiset(s) == multiset(t) && NoRepeat(t)
  {
  }

  /** The map of a configured list.  A list without entries is refused, and so are an
      entry that is not accepted and two equal prefixes. */
  method BuildMap(configured: seq<string>, isDirectory: string -> bool) returns (ok: bool, entries: array<Entry>)
    requires forall t | t in configured :: '=' in t
    ensures fresh(entries)
    ensures ok <==> configured != [] && (forall t | t in configured :: Accepted(t, isDirectory)) && NoRepeat(EntriesOf(configured))
    ensures ok ==> Ordered(entries[..]) && multiset(entries[..]) == multiset(EntriesOf(configured))
  {
    hide Precedes, NoRepeat, Ordered, EntryOf, Accepted, MapOf;
    entries := new Entry[|configured|](_ => Entry("", ""));
    if configured == [] {
      return false, entries;
    }
    ghost var all := EntriesOf(configured);
    var k := 0;
    EmptyMap();
    assert entries[..0] == [] && all[..0] == [];
    while k < |configured|
      invariant 0 <= k <= |configured| && MapOf(entries[..k], all[..k])
      invariant forall j | 0 <= j < k :: Accepted(configured[j], isDirectory)
    {
      assert configured[k] in configured;
      var e := ParseEntry(configured[k], isDirectory);
      if e == None {
        return false, entries;
      }
      ok := AddEntry(entries, k, e.value, all);
      if !ok {
        return;
      }
      k := k + 1;
    }
    assert entries[..] == entries[..k] && all[..k] == all;
    MapIs(entries[..], all);
    ok := true;
  }

  lemma EmptyMap()
    ensures MapOf([], [])
  {
  }

  /** get_vfs_entry. */
  method GetEntry(entries: array<Entry>, id: string) returns (r: Option<Entry>)
    requires Ordered(entries[..])
    ensures r == None <==> forall e | e in entries[..] :: !(e.prefix <= id)
    ensures r.Some? ==> r.value in entries[..] && r.value.prefix <= id
    ensures r.Some? ==> forall e | e in entries[..] && e.prefix <= id && e != r.value :: |e.prefix| < |r.value.prefix|
  {
    var i := 0;
    while i < entries.Length && !(entries[i].prefix <= id)
      invariant 0 <= i <= entries.Length
      invariant forall j | 0 <= j < i :: !(entries[j].prefix <= id)
    {
      i := i + 1;
    }
    assert i == FirstMatch(entries[..], id);
    FirstMatchIsLongest(entries[..], id);
    r := if i < entries.Length then Some(entries[i]) else None;
  }
}
