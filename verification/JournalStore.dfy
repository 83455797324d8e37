/** The journal over its database: entries under big-endian keys, consumer records
    beside them, each call tied to the step of the state machine it performs. */
module JournalStore {
  import opened Basics
  import opened BigEndian
  import opened Journal

  /** The width of a journal key in octets. */
  const KEY_SIZE := 8

  /** The keys 1 to `n` as the journal stores them. */
  ghost predicate KeysAre(db: map<string, JournalEntry>, n: nat, w: nat) {
    && n < Pow256(w)
    && (forall i: nat | 1 <= i <= n :: Encode(i, w) in db)
    && (forall k | k in db :: exists i: nat | 1 <= i <= n :: k == Encode(i, w))
  }

  ghost predicate IsLast(db: map<string, JournalEntry>, key: string) {
    key in db && forall k | k in db :: k == key || Less(k, key)
  }

  /** In octet order the last key is that of the highest number, and the next
      number's key comes after every key, so appending it is legal. */
  lemma LastAndNext(db: map<string, JournalEntry>, n: nat, w: nat)
    requires KeysAre(db, n, w)
    ensures db == map[] <==> n == 0
    ensures forall key :: IsLast(db, key) <==> n > 0 && key == Encode(n, w)
    ensures n + 1 < Pow256(w) ==> forall k | k in db :: Less(k, Encode(n + 1, w))
  {
    if n > 0 {
      assert Encode(n, w) in db;
    }
    forall k | k in db
      ensures n > 0 && (k == Encode(n, w) || Less(k, Encode(n, w)))
      ensures n + 1 < Pow256(w) ==> Less(k, Encode(n + 1, w))
    {
      var i: nat :| 1 <= i <= n && k == Encode(i, w);
      OrderPreserved(i, n, w);
      if n + 1 < Pow256(w) {
        OrderPreserved(i, n + 1, w);
      }
    }
    forall key | IsLast(db, key)
      ensures key == Encode(n, w)
    {
      LessAsymmetricIf(key, Encode(n, w));
    }
    if db != map[] {
      var k :| k in db;
      assert n > 0;
    }
  }

  lemma LessAsymmetricIf(a: string, b: string)
    ensures Less(a, b) ==> !Less(b, a)
  {
    if Less(a, b) {
      LessAsymmetric(a, b);
    }
  }

  /** The database holds the entries under the keys of their numbers, and nothing else. */
  ghost predicate Holds(db: map<string, JournalEntry>, entries: seq<JournalEntry>, w: nat) {
    && KeysAre(db, |entries|, w)
    && forall i: nat | 1 <= i <= |entries| :: db[Encode(i, w)] == entries[i - 1]
  }

  lemma AppendHolds(db: map<string, JournalEntry>, entries: seq<JournalEntry>, entry: JournalEntry, w: nat)
    requires Holds(db, entries, w)
    ensures |entries| < Pow256(w)
    ensures |entries| + 1 < Pow256(w) ==> Holds(db[Encode(|entries| + 1, w) := entry], entries + [entry], w)
  {
    hide Encode, Pow256;
    if |entries| + 1 < Pow256(w) {
      OrderOfNext(|entries|, w);
      AppendKeeps(db, |entries|, entry, w);
    }
  }

  class Store {
    const prefix: string
    const width: nat
    var db: map<string, JournalEntry>
    var records: map<string, Peer>
    ghost var entries: seq<JournalEntry>

    ghost predicate Valid()
      reads this
    {
      Holds(db, entries, width)
    }

    ghost function State(): State
      reads this
    {
      Journal.State.State(entries, records)
    }

    constructor (prefix: string, records: map<string, Peer>)
      ensures Valid() && State() == Journal.State.State([], records) && this.prefix == prefix
      ensures width == KEY_SIZE
    {
      this.prefix, this.width, this.records := prefix, KEY_SIZE, records;
      db, entries := map[], [];
    }

    /** get_entry_object: the entry under a number's key. */
    method GetEntry(cursor: nat) returns (r: Option<JournalEntry>)
      requires Valid() && cursor < Pow256(width)
      ensures r == EntryAt(entries, cursor)
    {
      var key := Encode(cursor, width);
      if key in db {
        ghost var i: nat :| 1 <= i <= |entries| && key == Encode(i, width);
        OrderPreserved(i, cursor, width);
        r := Some(db[key]);
      } else {
        r := None;
      }
    }

    /** Append an entry under the number after the last one; refused when the
        number wraps to 0, which is not above the last key. */
    method AddEntry(entry: JournalEntry) returns (token: Option<nat>)
      requires Valid()
      modifies this`db, this`entries
      ensures Valid()
      ensures token.Some? <==> |old(entries)| + 1 < Pow256(width)
      ensures token.Some? ==> token.value == |entries| && State() == Step(old(State()), prefix, Add(entry))
      ensures token.None? ==> State() == old(State())
    {
      hide Holds, Encode, Pow256;
      AppendHolds(db, entries, entry, width);
      var t := LastNumber();
      t := t + 1;
      if t == Pow256(width) {
        return None;
      }
      db := db[Encode(t, width) := entry];
      entries := entries + [entry];
      token := Some(t);
    }

    /** MDB_LAST: the number of the key that is above all others, or 0. */
    method LastNumber() returns (t: nat)
      requires Valid()
      ensures t == |entries|
    {
      LastAndNext(db, |entries|, width);
      if db == map[] {
        return 0;
      }
      assert IsLast(db, Encode(|entries|, width));
      var last :| last in db && forall k | k in db :: k == last || Less(k, last);
      assert IsLast(db, last);
      RoundTrip(|entries|, width);
      t := Decode(last);
    }

    /** Read the record, scan from its cursors, and write what they become. */
    method GetNextForConsumer(consumer: string, limit: nat) returns (r: Response)
      requires Valid()
      modifies this`records
      ensures Valid() && State() == Step(old(State()), prefix, GetNext(consumer))
      ensures r == if consumer in old(records) then GetResponse(entries, old(records)[consumer]) else Error
    {
      if consumer !in records {
        return Error;
      }
      var peer := records[consumer];
      var cursor := StartOf(peer);
      var stop := ScanStore(peer.peerId, cursor, limit);
      if stop.Thrown? {
        return Error;
      }
      var reissue := peer.consume.Some?;
      peer := Moved(peer, stop);
      records := records[prefix + consumer := peer];
      if stop.found {
        ScanFound(entries, peer.peerId, cursor);
        var entry := GetEntry(stop.cursor);
        r := Delivered(stop.cursor, entry.value, reissue);
      } else {
        r := Nothing;
      }
    }

    method AdvanceCursorForConsumer(consumer: string, limit: nat) returns (r: Response)
      requires Valid()
      modifies this`records
      ensures Valid() && State() == Step(old(State()), prefix, Advance(consumer))
      ensures r == if consumer in old(records) then AdvanceResponse(entries, old(records)[consumer]) else Error
    {
      if consumer !in records {
        return Error;
      }
      var peer := records[consumer];
      var stop := ScanStore(peer.peerId, StartOf(peer), limit);
      if stop.Thrown? {
        return Error;
      }
      records := records[prefix + consumer := Moved(peer, stop)];
      r := if stop.found then Advanced(stop.cursor, peer.consume.Some?) else Nothing;
    }

    method GetNextForConsumerAfterCursor(consumer: string, cursor: nat, limit: nat) returns (r: Response)
      requires Valid()
      modifies this`records
      ensures Valid() && entries == old(entries)
      ensures consumer !in old(records) ==> r == Error
      ensures consumer in old(records) ==>
        var p := old(records)[consumer];
        var stop := ScanFrom(entries, p.peerId, cursor);
        if stop.Thrown? then r == Error && records == old(records)
        else records == old(records)[prefix + consumer := Sought(p, stop)]
             && if stop.found then EntryAt(entries, stop.cursor).Some?
                                   && r == Delivered(stop.cursor, EntryAt(entries, stop.cursor).value, false)
                else r == Nothing
    {
      if consumer !in records {
        return Error;
      }
      var peer := records[consumer];
      var stop := ScanStore(peer.peerId, cursor, limit);
      if stop.Thrown? {
        return Error;
      }
      records := records[prefix + consumer := Sought(peer, stop)];
      if stop.found {
        ScanFound(entries, peer.peerId, cursor);
        var entry := GetEntry(stop.cursor);
        r := Delivered(stop.cursor, entry.value, false);
      } else {
        r := Nothing;
      }
    }

    /** Accepted only for the cursor that is being consumed. */
    method MarkEntryConsumed(consumer: string, cursor: nat) returns (ok: bool)
      requires Valid()
      modifies this`records
      ensures Valid() && State() == Step(old(State()), prefix, Mark(consumer, cursor))
      ensures ok == (consumer in old(records) && old(records)[consumer].consume == Some(cursor))
    {
      if consumer !in records || records[consumer].consume != Some(cursor) {
        return false;
      }
      records := records[prefix + consumer := records[consumer].(consume := None)];
      ok := true;
    }

    /** The scan loop.  Its condition is `i < limit || !found`, so `limit` never cuts
        a search short; a large one only repeats the last test. */
    method ScanStore(id: Option<string>, start: nat, limit: nat) returns (r: Stop)
      requires Valid()
      ensures r == ScanFrom(entries, id, start)
    {
      var cursor: nat := start;
      var found, i := false, 0;
      while i < limit || !found
        invariant ScanFrom(entries, id, start) == ScanFrom(entries, id, cursor)
        invariant found ==> EntryAt(entries, cursor).Some? && Judge(EntryAt(entries, cursor).value, id) == Yes
        decreases !found, if found || cursor > |entries| then 0 else |entries| + 1 - cursor, limit - i
      {
        var entry := None;
        if cursor < Pow256(width) {
          entry := GetEntry(cursor);
        }
        if entry.None? {
          break;
        }
        match Judge(entry.value, id) {
          case Throws =>
            return Thrown;
          case Yes =>
            found := true;
          case No =>
            cursor := cursor + 1;
        }
        i := i + 1;
      }
      r := Stop(cursor, found);
    }
  }

  lemma {:induction false} ScanFound(entries: seq<JournalEntry>, id: Option<string>, cursor: nat)
    ensures var r := ScanFrom(entries, id, cursor);
      r.Stop? && r.found ==> EntryAt(entries, r.cursor).Some? && Judge(EntryAt(entries, r.cursor).value, id) == Yes
    decreases |entries| + 1 - cursor
  {
    if 1 <= cursor <= |entries| && Judge(entries[cursor - 1], id) == No {
      ScanFound(entries, id, cursor + 1);
    }
  }

  lemma AppendKeeps(db: map<string, JournalEntry>, n: nat, entry: JournalEntry, w: nat)
    requires KeysAre(db, n, w) && n + 1 < Pow256(w)
    ensures KeysAre(db[Encode(n + 1, w) := entry], n + 1, w)
  {
    var next := db[Encode(n + 1, w) := entry];
    forall k | k in next
      ensures exists i: nat | 1 <= i <= n + 1 :: k == Encode(i, w)
    {
      if k in db {
        var i: nat :| 1 <= i <= n && k == Encode(i, w);
      }
    }
  }

  lemma OrderOfNext(n: nat, w: nat)
    requires n + 1 < Pow256(w)
    ensures forall i: nat | i <= n :: Encode(i, w) != Encode(n + 1, w)
  {
    forall i: nat | i <= n
      ensures Encode(i, w) != Encode(n + 1, w)
    {
      OrderPreserved(i, n + 1, w);
    }
  }
}
