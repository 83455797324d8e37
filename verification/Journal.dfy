/** The journal consumer protocol: one append-only list of entries, and for each
    consumer a peer record with three cursors.  Every call is one transaction. */
module Journal {
  import opened Basics

  /** The part of an entry the protocol reads is the peer it came from. */
  datatype JournalEntry = JournalEntry(peerId: Option<string>, body: string)

  /** A consumer's record.  Cursors are stored as decimal text; the numbers stand
      for it here. */
  datatype Peer = Peer(peerId: Option<string>, consume: Option<nat>, advance: Option<nat>, current: Option<nat>)

  datatype Verdict = Yes | No | Throws

  function EntryAt(entries: seq<JournalEntry>, cursor: nat): Option<JournalEntry> {
    if 1 <= cursor <= |entries| then Some(entries[cursor - 1]) else None
  }

  /** An entry is applicable unless it came from this very peer; an entry that has
      a peer cannot be judged for a consumer that has none. */
  function Judge(e: JournalEntry, id: Option<string>): Verdict {
    if e.peerId.None? then Yes
    else if id.None? then Throws
    else if e.peerId != id then Yes else No
  }

  datatype Stop = Stop(cursor: nat, found: bool) | Thrown

  /** Where the scan ends: the first entry that is not skipped, or past the last. */
  function ScanFrom(entries: seq<JournalEntry>, id: Option<string>, cursor: nat): Stop
    decreases |entries| + 1 - cursor
  {
    match EntryAt(entries, cursor)
    case None => Stop(cursor, false)
    case Some(e) =>
      match Judge(e, id)
      case Yes => Stop(cursor, true)
      case No => ScanFrom(entries, id, cursor + 1)
      case Throws => Thrown
  }

  predicate Skips(entries: seq<JournalEntry>, id: Option<string>, cursor: nat) {
    1 <= cursor <= |entries| && Judge(entries[cursor - 1], id) == No
  }

  /** The scan stops at the least applicable cursor at or after its start, or one
      past the last entry. */
  lemma {:induction false} ScanIsLeast(entries: seq<JournalEntry>, id: Option<string>, start: nat)
    requires 1 <= start <= |entries| + 1 && ScanFrom(entries, id, start).Stop?
    ensures var r := ScanFrom(entries, id, start);
      && start <= r.cursor <= |entries| + 1
      && (forall c | start <= c < r.cursor :: Skips(entries, id, c))
      && (r.found <==> r.cursor <= |entries|)
      && (r.found ==> Judge(entries[r.cursor - 1], id) == Yes)
    decreases |entries| + 1 - start
  {
    if start <= |entries| && Judge(entries[start - 1], id) == No {
      ScanIsLeast(entries, id, start + 1);
    }
  }

  /** The scan read off the peers of the entries.  With a peer of its own the consumer
      is never turned away and passes over its own entries; without one it stops at
      the first entry it meets, and is turned away exactly when that has a peer. */
  lemma {:induction false} ScanByPeers(entries: seq<JournalEntry>, id: Option<string>, start: nat)
    requires 1 <= start <= |entries| + 1
    ensures var r := ScanFrom(entries, id, start);
      && (r.Thrown? <==> id.None? && start <= |entries| && entries[start - 1].peerId.Some?)
      && (r.Stop? ==>
            && start <= r.cursor <= |entries| + 1 && (r.found <==> r.cursor <= |entries|)
            && (forall i | start - 1 <= i < r.cursor - 1 :: id.Some? && entries[i].peerId == id)
            && (r.found ==> entries[r.cursor - 1].peerId.None? || (id.Some? && entries[r.cursor - 1].peerId != id)))
    decreases |entries| + 1 - start
  {
    if start <= |entries| && id.Some? && entries[start - 1].peerId == id {
      ScanByPeers(entries, id, start + 1);
    }
  }

  // ---- one call, as a function of the entries and the consumer's record

  datatype Response =
    | Delivered(cursor: nat, entry: JournalEntry, reissue: bool)
    | Advanced(cursor: nat, reissue: bool)
    | Nothing
    | Error

  function StartOf(p: Peer): nat {
    if p.consume.Some? then p.consume.value
    else if p.advance.Some? then p.advance.value
    else if p.current.Some? then p.current.value + 1
    else 1
  }

  /** The record after a scan from its own cursors. */
  function Moved(p: Peer, stop: Stop): Peer
    requires stop.Stop?
  {
    if stop.found then
      if p.consume.Some? then p
      else p.(consume := Some(stop.cursor), current := Some(stop.cursor), advance := None)
    else if p.advance.Some? then p
    else p.(advance := Some(stop.cursor))
  }

  function NextFor(entries: seq<JournalEntry>, p: Peer): Option<Peer> {
    match ScanFrom(entries, p.peerId, StartOf(p))
    case Thrown => None
    case Stop(c, found) => Some(Moved(p, Stop(c, found)))
  }

  function GetResponse(entries: seq<JournalEntry>, p: Peer): Response {
    match ScanFrom(entries, p.peerId, StartOf(p))
    case Thrown => Error
    case Stop(c, found) =>
      if found && EntryAt(entries, c).Some? then Delivered(c, EntryAt(entries, c).value, p.consume.Some?) else Nothing
  }

  function AdvanceResponse(entries: seq<JournalEntry>, p: Peer): Response {
    match ScanFrom(entries, p.peerId, StartOf(p))
    case Thrown => Error
    case Stop(c, found) => if found then Advanced(c, p.consume.Some?) else Nothing
  }

  /** The record after a client-chosen seek: a hit replaces all three cursors even
      while another entry is being consumed. */
  function Sought(p: Peer, stop: Stop): Peer
    requires stop.Stop?
  {
    if stop.found then p.(consume := Some(stop.cursor), current := Some(stop.cursor), advance := None)
    else if p.advance.Some? then p
    else p.(advance := Some(stop.cursor))
  }

  function MarkFor(p: Peer, cursor: nat): Option<Peer> {
    if p.consume == Some(cursor) then Some(p.(consume := None)) else None
  }

  // ---- the state machine

  /** Peer records by database key.  They are looked up under the consumer's bare
      uuid and written back under `prefix + uuid`. */
  datatype State = State(entries: seq<JournalEntry>, records: map<string, Peer>)

  datatype Op =
    | Add(entry: JournalEntry)
    | GetNext(consumer: string)
    | Advance(consumer: string)
    | Mark(consumer: string, cursor: nat)

  const UUID_SIZE := 16

  /** What the source writes under, and what it must mean to write under. */
  const WRITTEN_PREFIX := "_AdaptiveJournalEntry_"
  const INTENDED_PREFIX := ""

  function Put(s: State, prefix: string, consumer: string, p: Option<Peer>): State {
    if p.Some? then s.(records := s.records[prefix + consumer := p.value]) else s
  }

  function Step(s: State, prefix: string, op: Op): State {
    match op
    case Add(e) => s.(entries := s.entries + [e])
    case GetNext(c) => if c in s.records then Put(s, prefix, c, NextFor(s.entries, s.records[c])) else s
    case Advance(c) => if c in s.records then Put(s, prefix, c, NextFor(s.entries, s.records[c])) else s
    case Mark(c, n) => if c in s.records then Put(s, prefix, c, MarkFor(s.records[c], n)) else s
  }

  function RunOps(s: State, prefix: string, ops: seq<Op>): State
    decreases |ops|
  {
    if ops == [] then s else RunOps(Step(s, prefix, ops[0]), prefix, ops[1..])
  }

  predicate Marks(s: State, consumer: string, op: Op) {
    op.Mark? && op.consumer == consumer && consumer in s.records && MarkFor(s.records[consumer], op.cursor).Some?
  }

  /** The cursors a consumer marks consumed over a run, in order. */
  function MarkedBy(s: State, prefix: string, consumer: string, ops: seq<Op>): seq<nat>
    decreases |ops|
  {
    if ops == [] then []
    else (if Marks(s, consumer, ops[0]) then [ops[0].cursor] else [])
         + MarkedBy(Step(s, prefix, ops[0]), prefix, consumer, ops[1..])
  }

  // ---- the applicable cursors

  /** The applicable cursors below `bound`, in increasing order. */
  function Applicable(entries: seq<JournalEntry>, id: Option<string>, bound: nat): seq<nat> {
    if bound <= 1 then []
    else
      Applicable(entries, id, bound - 1)
      + if bound - 1 <= |entries| && Judge(entries[bound - 2], id) == Yes then [bound - 1] else []
  }

  lemma {:induction false} ApplicableExactly(entries: seq<JournalEntry>, id: Option<string>, bound: nat)
    ensures forall c :: (c in Applicable(entries, id, bound)
                         <==> 1 <= c < bound && c <= |entries| && Judge(entries[c - 1], id) == Yes)
    ensures forall i, j | 0 <= i < j < |Applicable(entries, id, bound)| ::
      Applicable(entries, id, bound)[i] < Applicable(entries, id, bound)[j]
  {
    if bound > 1 {
      ApplicableExactly(entries, id, bound - 1);
      var before := Applicable(entries, id, bound - 1);
      var last := if bound - 1 <= |entries| && Judge(entries[bound - 2], id) == Yes then [bound - 1] else [];
      assert Applicable(entries, id, bound) == before + last;
      assert forall c :: c in before + last <==> c in before || c in last;
      forall i | 0 <= i < |before|
        ensures before[i] < bound - 1
      {
        assert before[i] in before;
      }
    }
  }

  /** For a consumer with a peer those are the entries that did not come from it, for
      one without a peer the entries that have none. */
  lemma ApplicableByPeers(entries: seq<JournalEntry>, id: Option<string>)
    ensures var all := Applicable(entries, id, |entries| + 1);
      && (forall c | c in all :: 1 <= c <= |entries|)
      && (forall i | 0 <= i < |entries| ::
            i + 1 in all <==> (id.Some? && entries[i].peerId != id) || (id.None? && entries[i].peerId.None?))
  {
    hide Applicable;
    var bound := |entries| + 1;
    ApplicableExactly(entries, id, bound);
    var all := Applicable(entries, id, bound);
    forall i | 0 <= i < |entries|
      ensures i + 1 in all <==> (id.Some? && entries[i].peerId != id) || (id.None? && entries[i].peerId.None?)
    {
      var c := i + 1;
      assert c in all <==> Judge(entries[c - 1], id) == Yes;
    }
  }

  lemma {:induction false} ApplicableGrows(entries: seq<JournalEntry>, e: JournalEntry, id: Option<string>, bound: nat)
    requires bound <= |entries| + 1
    ensures Applicable(entries + [e], id, bound) == Applicable(entries, id, bound)
  {
    if bound > 1 {
      ApplicableGrows(entries, e, id, bound - 1);
    }
  }

  lemma {:induction false} ApplicablePrefix(entries: seq<JournalEntry>, id: Option<string>, low: nat, high: nat)
    requires low <= high
    ensures Applicable(entries, id, low) <= Applicable(entries, id, high)
  {
    if low < high {
      ApplicablePrefix(entries, id, low, high - 1);
    }
  }

  lemma {:induction false} ApplicableOverSkips(entries: seq<JournalEntry>, id: Option<string>, low: nat, high: nat)
    requires 1 <= low <= high && forall c | low <= c < high :: Skips(entries, id, c)
    ensures Applicable(entries, id, low) == Applicable(entries, id, high)
  {
    if low < high {
      ApplicableOverSkips(entries, id, low, high - 1);
      assert Skips(entries, id, high - 1);
    }
  }

  // ---- the invariant

  /** The consumer has marked exactly the applicable cursors below its start, where
      nothing turned it away; what it is consuming is applicable; and everything
      between its current and its advance cursor is skipped. */
  ghost predicate Inv(entries: seq<JournalEntry>, p: Peer, marked: seq<nat>) {
    && 1 <= StartOf(p) <= |entries| + 1
    && marked == Applicable(entries, p.peerId, StartOf(p))
    && (forall i | 0 <= i < StartOf(p) - 1 :: Judge(entries[i], p.peerId) != Throws)
    && (p.consume.Some? ==>
          p.advance.None? && p.current == p.consume && StartOf(p) <= |entries|
          && Judge(entries[p.consume.value - 1], p.peerId) == Yes)
    && (p.advance.Some? ==>
          var low := if p.current.Some? then p.current.value + 1 else 1;
          1 <= low <= p.advance.value && forall c | low <= c < p.advance.value :: Skips(entries, p.peerId, c))
  }

  lemma NextKeepsInv(entries: seq<JournalEntry>, p: Peer, marked: seq<nat>)
    requires Inv(entries, p, marked) && NextFor(entries, p).Some?
    ensures Inv(entries, NextFor(entries, p).value, marked) && NextFor(entries, p).value.peerId == p.peerId
  {
    ScanIsLeast(entries, p.peerId, StartOf(p));
    ApplicableOverSkips(entries, p.peerId, StartOf(p), ScanFrom(entries, p.peerId, StartOf(p)).cursor);
  }

  lemma MarkMeans(p: Peer, cursor: nat)
    ensures MarkFor(p, cursor).Some? <==> p.consume == Some(cursor)
  {
  }

  lemma MarkKeepsInv(entries: seq<JournalEntry>, p: Peer, marked: seq<nat>, cursor: nat)
    requires Inv(entries, p, marked) && MarkFor(p, cursor).Some?
    ensures Inv(entries, MarkFor(p, cursor).value, marked + [cursor]) && MarkFor(p, cursor).value.peerId == p.peerId
  {
  }

  lemma AddKeepsInv(entries: seq<JournalEntry>, e: JournalEntry, p: Peer, marked: seq<nat>)
    requires Inv(entries, p, marked)
    ensures Inv(entries + [e], p, marked)
  {
    ApplicableGrows(entries, e, p.peerId, StartOf(p));
    forall c | Skips(entries, p.peerId, c)
      ensures Skips(entries + [e], p.peerId, c)
    {
      assert (entries + [e])[c - 1] == entries[c - 1];
    }
  }

  ghost predicate InvOf(s: State, consumer: string, marked: seq<nat>) {
    consumer in s.records && Inv(s.entries, s.records[consumer], marked)
  }

  /** One step of anyone keeps a consumer's invariant, with its own mark added. */
  lemma StepKeepsInv(s: State, consumer: string, op: Op, marked: seq<nat>)
    requires InvOf(s, consumer, marked)
    ensures InvOf(Step(s, INTENDED_PREFIX, op), consumer, marked + if Marks(s, consumer, op) then [op.cursor] else [])
    ensures Step(s, INTENDED_PREFIX, op).records[consumer].peerId == s.records[consumer].peerId
    ensures s.entries <= Step(s, INTENDED_PREFIX, op).entries
  {
    hide Inv, NextFor, MarkFor;
    assert marked + [] == marked;
    assert forall c: string :: INTENDED_PREFIX + c == c;
    var p := s.records[consumer];
    MarkMeans(p, if op.Mark? then op.cursor else 0);
    if op.Add? {
      AddKeepsInv(s.entries, op.entry, p, marked);
    } else if op.consumer == consumer {
      if op.Mark? {
        if MarkFor(p, op.cursor).Some? {
          MarkKeepsInv(s.entries, p, marked, op.cursor);
        }
      } else if NextFor(s.entries, p).Some? {
        NextKeepsInv(s.entries, p, marked);
      }
    }
  }

  lemma {:induction false} RunKeepsInv(s: State, consumer: string, ops: seq<Op>, marked: seq<nat>)
    requires InvOf(s, consumer, marked)
    ensures InvOf(RunOps(s, INTENDED_PREFIX, ops), consumer, marked + MarkedBy(s, INTENDED_PREFIX, consumer, ops))
    ensures RunOps(s, INTENDED_PREFIX, ops).records[consumer].peerId == s.records[consumer].peerId
    decreases |ops|
  {
    hide Inv, Step;
    if ops == [] {
      assert marked + [] == marked;
    } else {
      StepKeepsInv(s, consumer, ops[0], marked);
      var mine := if Marks(s, consumer, ops[0]) then [ops[0].cursor] else [];
      var next := Step(s, INTENDED_PREFIX, ops[0]);
      RunKeepsInv(next, consumer, ops[1..], marked + mine);
      assert marked + mine + MarkedBy(next, INTENDED_PREFIX, consumer, ops[1..])
          == marked + MarkedBy(s, INTENDED_PREFIX, consumer, ops);
    }
  }

  predicate Fresh(p: Peer) {
    p.consume.None? && p.advance.None? && p.current.None?
  }

  lemma FreshKeeps(entries: seq<JournalEntry>, p: Peer)
    requires Fresh(p)
    ensures Inv(entries, p, [])
  {
  }

  /** Over any interleaving of calls by anyone, the cursors that a fresh consumer
      marks are a prefix of the increasing list of its applicable cursors: none is
      skipped and none comes twice. */
  lemma {:induction false} ExactlyOnce(s: State, consumer: string, ops: seq<Op>)
    requires consumer in s.records && Fresh(s.records[consumer])
    ensures var final := RunOps(s, INTENDED_PREFIX, ops);
      MarkedBy(s, INTENDED_PREFIX, consumer, ops)
      <= Applicable(final.entries, s.records[consumer].peerId, |final.entries| + 1)
  {
    hide Inv, RunOps, MarkedBy, Applicable, StartOf;
    FreshKeeps(s.entries, s.records[consumer]);
    RunKeepsInv(s, consumer, ops, []);
    var final := RunOps(s, INTENDED_PREFIX, ops);
    var marks := MarkedBy(s, INTENDED_PREFIX, consumer, ops);
    assert [] + marks == marks;
    InvStarts(final.entries, final.records[consumer], marks);
    ApplicablePrefix(final.entries, s.records[consumer].peerId, StartOf(final.records[consumer]), |final.entries| + 1);
  }

  /** What a call then delivers is the next of those cursors, and it finds nothing
      only when all of them are marked. */
  lemma {:induction false} NextIsNext(s: State, consumer: string, ops: seq<Op>)
    requires consumer in s.records && Fresh(s.records[consumer])
    ensures var final := RunOps(s, INTENDED_PREFIX, ops);
      var marks := MarkedBy(s, INTENDED_PREFIX, consumer, ops);
      consumer in final.records &&
      var all := Applicable(final.entries, s.records[consumer].peerId, |final.entries| + 1);
      match GetResponse(final.entries, final.records[consumer])
      case Delivered(c, e, _) => |marks| < |all| && all[|marks|] == c && EntryAt(final.entries, c) == Some(e)
      case Nothing => marks == all
      case Advanced(_, _) => false
      case Error => true
  {
    hide RunOps, MarkedBy;
    FreshKeeps(s.entries, s.records[consumer]);
    RunKeepsInv(s, consumer, ops, []);
    var final := RunOps(s, INTENDED_PREFIX, ops);
    var marks := MarkedBy(s, INTENDED_PREFIX, consumer, ops);
    assert [] + marks == marks;
    var p := final.records[consumer];
    var stop := ScanFrom(final.entries, p.peerId, StartOf(p));
    if stop.Stop? {
      ScanIsLeast(final.entries, p.peerId, StartOf(p));
      ApplicableOverSkips(final.entries, p.peerId, StartOf(p), stop.cursor);
      ApplicablePrefix(final.entries, p.peerId, stop.cursor, |final.entries| + 1);
      if stop.found {
        ApplicablePrefix(final.entries, p.peerId, stop.cursor + 1, |final.entries| + 1);
        assert Applicable(final.entries, p.peerId, stop.cursor + 1) == marks + [stop.cursor];
      }
    }
  }

  /** An entry is for a consumer that has a peer unless it came from that peer, and for
      one without a peer if it has none itself. */
  predicate IsFor(e: JournalEntry, id: Option<string>) {
    if id.Some? then e.peerId != id else e.peerId.None?
  }

  /** Every entry below the cursor is marked or came from the consumer's own peer. */
  ghost predicate PassedOver(entries: seq<JournalEntry>, id: Option<string>, marks: seq<nat>, cursor: nat) {
    cursor <= |entries| + 1
    && forall i | 0 <= i < cursor - 1 :: i + 1 in marks || (id.Some? && entries[i].peerId == id)
  }

  /** What has been marked is for the consumer, in increasing order, and a record that
      keeps the invariant has all of it below its start. */
  lemma MarkedByPeers(entries: seq<JournalEntry>, p: Peer, marked: seq<nat>)
    requires Inv(entries, p, marked)
    ensures forall c :: c in marked <==> 1 <= c < StartOf(p) && IsFor(entries[c - 1], p.peerId)
    ensures forall i, j | 0 <= i < j < |marked| :: marked[i] < marked[j]
    ensures PassedOver(entries, p.peerId, marked, StartOf(p))
  {
    ApplicableExactly(entries, p.peerId, StartOf(p));
  }

  /** Every reachable answer to get_next, read off the journal and the marks alone.
      What is delivered is an entry for the consumer that it has not marked, and before
      it there is none.  Nothing is found only when all entries for it are marked.
      It is turned away exactly when it has no peer and the first entry that it has not
      marked has one. */
  lemma {:induction false} GetNextByPeers(s: State, consumer: string, ops: seq<Op>)
    requires consumer in s.records && Fresh(s.records[consumer])
    ensures var final := RunOps(s, INTENDED_PREFIX, ops);
      var marks, id := MarkedBy(s, INTENDED_PREFIX, consumer, ops), s.records[consumer].peerId;
      && consumer in final.records
      && (forall c | c in marks :: 1 <= c <= |final.entries| && IsFor(final.entries[c - 1], id))
      && (forall i, j | 0 <= i < j < |marks| :: marks[i] < marks[j])
      && match GetResponse(final.entries, final.records[consumer])
         case Delivered(c, e, _) =>
           && 1 <= c <= |final.entries| && e == final.entries[c - 1] && c !in marks
           && (if id.Some? then e.peerId != id else e.peerId.None?)
           && PassedOver(final.entries, id, marks, c)
         case Nothing => PassedOver(final.entries, id, marks, |final.entries| + 1)
         case Error => id.None? && exists i | 0 <= i < |final.entries| ::
           final.entries[i].peerId.Some? && PassedOver(final.entries, id, marks, i + 1)
         case Advanced(_, _) => false
  {
    hide Inv, ScanFrom, MarkedBy, RunOps, Applicable, Judge, Skips, PassedOver;
    FreshKeeps(s.entries, s.records[consumer]);
    RunKeepsInv(s, consumer, ops, []);
    var final := RunOps(s, INTENDED_PREFIX, ops);
    var marks := MarkedBy(s, INTENDED_PREFIX, consumer, ops);
    assert [] + marks == marks;
    AnswerByPeers(final.entries, final.records[consumer], marks);
  }

  lemma AnswerByPeers(entries: seq<JournalEntry>, p: Peer, marks: seq<nat>)
    requires Inv(entries, p, marks)
    ensures forall c | c in marks :: 1 <= c <= |entries| && IsFor(entries[c - 1], p.peerId)
    ensures forall i, j | 0 <= i < j < |marks| :: marks[i] < marks[j]
    ensures match GetResponse(entries, p)
      case Delivered(c, e, reissue) =>
        && 1 <= c <= |entries| && e == entries[c - 1] && c !in marks && IsFor(e, p.peerId) && reissue == p.consume.Some?
        && PassedOver(entries, p.peerId, marks, c)
        && (p.consume.Some? ==> c == p.consume.value)
      case Nothing =>
        && p.consume.None?
        && PassedOver(entries, p.peerId, marks, |entries| + 1)
      case Error => p.peerId.None? && exists i | 0 <= i < |entries| ::
        entries[i].peerId.Some? && PassedOver(entries, p.peerId, marks, i + 1)
      case Advanced(_, _) => false
  {
    MarkedByPeers(entries, p, marks);
    ScanByPeers(entries, p.peerId, StartOf(p));
    var stop := ScanFrom(entries, p.peerId, StartOf(p));
    if stop.Thrown? {
      var i := StartOf(p) - 1;
      assert entries[i].peerId.Some? && PassedOver(entries, p.peerId, marks, i + 1);
    }
  }

  lemma AdvanceThenGet(entries: seq<JournalEntry>, p: Peer, marks: seq<nat>)
    requires Inv(entries, p, marks)
    ensures match GetResponse(entries, p)
      case Delivered(c, e, reissue) =>
        && AdvanceResponse(entries, p) == Advanced(c, reissue)
        && NextFor(entries, p).Some? && GetResponse(entries, NextFor(entries, p).value) == Delivered(c, e, true)
      case r => AdvanceResponse(entries, p) == r
  {
    if NextFor(entries, p).Some? {
      NextKeepsInv(entries, p, marks);
      ScanIsLeast(entries, p.peerId, StartOf(p));
    }
  }

  /** The entry a consumer holds after a run, by its own answers: the last one that
      get_next or advance_cursor gave it, until it marks that. */
  function Held(s: State, prefix: string, consumer: string, ops: seq<Op>, held: Option<nat>): Option<nat>
    decreases |ops|
  {
    if ops == [] then held
    else Held(Step(s, prefix, ops[0]), prefix, consumer, ops[1..], HeldAfter(s, consumer, ops[0], held))
  }

  function HeldAfter(s: State, consumer: string, op: Op, held: Option<nat>): Option<nat> {
    if op.Add? || op.consumer != consumer || consumer !in s.records then held
    else match op
      case GetNext(_) => (
        match GetResponse(s.entries, s.records[consumer])
        case Delivered(c, _, _) => Some(c)
        case _ => held)
      case Advance(_) => (
        match AdvanceResponse(s.entries, s.records[consumer])
        case Advanced(c, _) => Some(c)
        case _ => held)
      case _ => if Marks(s, consumer, op) then None else held
  }

  lemma {:induction false} HeldIsConsumed(s: State, consumer: string, ops: seq<Op>, marked: seq<nat>)
    requires InvOf(s, consumer, marked)
    ensures var final := RunOps(s, INTENDED_PREFIX, ops);
      consumer in final.records
      && final.records[consumer].consume == Held(s, INTENDED_PREFIX, consumer, ops, s.records[consumer].consume)
    decreases |ops|
  {
    hide Inv, ScanFrom, MarkedBy, Judge;
    if ops != [] {
      StepKeepsInv(s, consumer, ops[0], marked);
      assert forall c: string :: INTENDED_PREFIX + c == c;
      OneHeld(s, consumer, ops[0], marked);
      HeldIsConsumed(Step(s, INTENDED_PREFIX, ops[0]), consumer, ops[1..],
                     marked + if Marks(s, consumer, ops[0]) then [ops[0].cursor] else []);
    }
  }

  lemma OneHeld(s: State, consumer: string, op: Op, marked: seq<nat>)
    requires InvOf(s, consumer, marked)
    ensures var next := Step(s, INTENDED_PREFIX, op);
      consumer in next.records && next.records[consumer].consume == HeldAfter(s, consumer, op, s.records[consumer].consume)
  {
    hide Inv, ScanFrom, Applicable;
    InvStarts(s.entries, s.records[consumer], marked);
    assert forall c: string :: INTENDED_PREFIX + c == c;
    var p := s.records[consumer];
    AnswerByPeers(s.entries, p, marked);
    AdvanceThenGet(s.entries, p, marked);
    ScanIsLeastIf(s.entries, p.peerId, StartOf(p));
  }

  lemma ScanIsLeastIf(entries: seq<JournalEntry>, id: Option<string>, start: nat)
    requires 1 <= start <= |entries| + 1
    ensures ScanFrom(entries, id, start).Stop? ==>
      (ScanFrom(entries, id, start).found <==> ScanFrom(entries, id, start).cursor <= |entries|)
  {
    if ScanFrom(entries, id, start).Stop? {
      ScanIsLeast(entries, id, start);
    }
  }

  /** An answer is marked as issued again exactly when the consumer holds an entry, and
      then it is that entry. */
  lemma {:induction false} ReissueExactlyWhen(s: State, consumer: string, ops: seq<Op>)
    requires consumer in s.records && Fresh(s.records[consumer])
    ensures var final := RunOps(s, INTENDED_PREFIX, ops);
      var held := Held(s, INTENDED_PREFIX, consumer, ops, None);
      consumer in final.records
      && (match GetResponse(final.entries, final.records[consumer])
          case Delivered(c, _, reissue) => reissue == held.Some? && (held.Some? ==> held == Some(c))
          case _ => held == None)
  {
    hide Inv, ScanFrom, MarkedBy, RunOps, Held, Applicable, Judge, Skips;
    FreshKeeps(s.entries, s.records[consumer]);
    RunKeepsInv(s, consumer, ops, []);
    HeldIsConsumed(s, consumer, ops, []);
    var marks := MarkedBy(s, INTENDED_PREFIX, consumer, ops);
    var final := RunOps(s, INTENDED_PREFIX, ops);
    assert [] + marks == marks;
    AnswerByPeers(final.entries, final.records[consumer], marks);
    HeldIsFor(final.entries, final.records[consumer], marks);
  }

  /** Nobody who holds an entry is turned away. */
  lemma HeldIsFor(entries: seq<JournalEntry>, p: Peer, marks: seq<nat>)
    requires Inv(entries, p, marks)
    ensures p.consume.Some? ==> GetResponse(entries, p).Delivered?
  {
  }

  /** advance_cursor answers with the cursor that get_next would deliver then and does
      deliver next, marked as issued again exactly when it holds it already; it finds
      nothing, or is turned away, exactly when get_next does. */
  lemma {:induction false} AdvanceIsNext(s: State, consumer: string, ops: seq<Op>)
    requires consumer in s.records && Fresh(s.records[consumer])
    ensures var final := RunOps(s, INTENDED_PREFIX, ops);
      var marks := MarkedBy(s, INTENDED_PREFIX, consumer, ops);
      consumer in final.records &&
      var id, all := s.records[consumer].peerId, Applicable(final.entries, s.records[consumer].peerId, |final.entries| + 1);
      match AdvanceResponse(final.entries, final.records[consumer])
      case Advanced(c, reissue) =>
        && |marks| < |all| && all[|marks|] == c && 1 <= c <= |final.entries| && IsFor(final.entries[c - 1], id)
        && reissue == Held(s, INTENDED_PREFIX, consumer, ops, None).Some?
        && GetResponse(final.entries, final.records[consumer]) == Delivered(c, final.entries[c - 1], reissue)
        && var after := Step(final, INTENDED_PREFIX, Advance(consumer));
           && consumer in after.records && after.entries == final.entries
           && GetResponse(after.entries, after.records[consumer]) == Delivered(c, final.entries[c - 1], true)
      case Nothing => marks == all
      case Delivered(_, _, _) => false
      case Error => GetResponse(final.entries, final.records[consumer]) == Error
  {
    hide Inv, ScanFrom, MarkedBy, RunOps, Held, Applicable, Judge, Skips;
    NextIsNext(s, consumer, ops);
    GetNextByPeers(s, consumer, ops);
    ReissueExactlyWhen(s, consumer, ops);
    FreshKeeps(s.entries, s.records[consumer]);
    RunKeepsInv(s, consumer, ops, []);
    var final := RunOps(s, INTENDED_PREFIX, ops);
    var marks := MarkedBy(s, INTENDED_PREFIX, consumer, ops);
    assert [] + marks == marks && INTENDED_PREFIX + consumer == consumer;
    AdvanceThenGet(final.entries, final.records[consumer], marks);
  }

  /** A search that finds nothing leaves the consumer's place: it holds nothing and keeps
      its current cursor.  The next search starts behind all entries there are, unless an
      earlier one left an advance cursor: that is kept, and the search starts there. */
  lemma {:induction false} FruitlessKeepsPlace(s: State, consumer: string, ops: seq<Op>)
    requires consumer in s.records && Fresh(s.records[consumer])
    ensures var final := RunOps(s, INTENDED_PREFIX, ops);
      consumer in final.records &&
      var p := final.records[consumer];
      GetResponse(final.entries, p) == Nothing ==>
        && p.consume == None
        && (forall op | op == GetNext(consumer) || op == Advance(consumer) ::
              var after := Step(final, INTENDED_PREFIX, op);
              after.entries == final.entries && consumer in after.records
              && after.records[consumer] ==
                 p.(advance := Some(if p.advance.Some? then p.advance.value else |final.entries| + 1))
              && StartOf(after.records[consumer]) == if p.advance.Some? then p.advance.value else |final.entries| + 1)
  {
    hide Inv, MarkedBy, RunOps, Applicable, Judge, Skips;
    FreshKeeps(s.entries, s.records[consumer]);
    RunKeepsInv(s, consumer, ops, []);
    var final := RunOps(s, INTENDED_PREFIX, ops);
    var p := final.records[consumer];
    var marks := MarkedBy(s, INTENDED_PREFIX, consumer, ops);
    assert [] + marks == marks && INTENDED_PREFIX + consumer == consumer;
    AnswerByPeers(final.entries, p, marks);
    InvStarts(final.entries, p, marks);
    ScanByPeers(final.entries, p.peerId, StartOf(p));
  }

  lemma InvStarts(entries: seq<JournalEntry>, p: Peer, marks: seq<nat>)
    requires Inv(entries, p, marks)
    ensures 1 <= StartOf(p) <= |entries| + 1 && marks == Applicable(entries, p.peerId, StartOf(p))
  {
  }

  /** A consumer whose record names its peer is never turned away. */
  lemma {:induction false} NamedNeverThrows(entries: seq<JournalEntry>, id: Option<string>, cursor: nat)
    requires id.Some?
    ensures ScanFrom(entries, id, cursor).Stop?
    decreases |entries| + 1 - cursor
  {
    if 1 <= cursor <= |entries| && Judge(entries[cursor - 1], id) == No {
      NamedNeverThrows(entries, id, cursor + 1);
    }
  }

  /** Between marks an entry stays with its consumer: whatever anyone else does, and
      however often it asks, it is issued the same entry again. */
  lemma {:induction false} ReissuedUntilMarked(s: State, consumer: string, ops: seq<Op>, marked: seq<nat>)
    requires InvOf(s, consumer, marked) && s.records[consumer].consume.Some?
    requires MarkedBy(s, INTENDED_PREFIX, consumer, ops) == []
    ensures var final := RunOps(s, INTENDED_PREFIX, ops);
      && consumer in final.records && final.records[consumer] == s.records[consumer]
      && GetResponse(final.entries, final.records[consumer])
         == Delivered(s.records[consumer].consume.value, s.entries[s.records[consumer].consume.value - 1], true)
    decreases |ops|
  {
    if ops != [] {
      StepKeepsInv(s, consumer, ops[0], marked);
      assert forall c: string :: INTENDED_PREFIX + c == c;
      assert marked + [] == marked;
      assert Step(s, INTENDED_PREFIX, ops[0]).records[consumer] == s.records[consumer];
      ReissuedUntilMarked(Step(s, INTENDED_PREFIX, ops[0]), consumer, ops[1..], marked);
    }
  }

  /** In every reachable state, what lies between a fresh consumer's current and
      advance cursors is not for it. */
  lemma {:induction false} BetweenCursorsIsSkipped(s: State, consumer: string, ops: seq<Op>, c: nat)
    requires consumer in s.records && Fresh(s.records[consumer])
    ensures var final := RunOps(s, INTENDED_PREFIX, ops);
      && consumer in final.records
      && var p := final.records[consumer];
         (p.advance.Some? && (p.current.Some? ==> p.current.value < c) && 1 <= c < p.advance.value ==>
            Skips(final.entries, p.peerId, c))
  {
    RunKeepsInv(s, consumer, ops, []);
  }

  /** A seek delivers the least applicable cursor at or after the chosen one, and
      the consumer's next call issues that entry again. */
  lemma SeekThenReissue(entries: seq<JournalEntry>, p: Peer, start: nat)
    requires 1 <= start <= |entries| + 1 && ScanFrom(entries, p.peerId, start).Stop?
    ensures var stop := ScanFrom(entries, p.peerId, start);
      && (forall c | start <= c < stop.cursor :: Skips(entries, p.peerId, c))
      && (stop.found ==>
            1 <= stop.cursor <= |entries|
            && GetResponse(entries, Sought(p, stop)) == Delivered(stop.cursor, entries[stop.cursor - 1], true))
      && (stop.found ==> Sought(p, stop).advance == None && Sought(p, stop).current == Some(stop.cursor))
      && (!stop.found ==>
            && stop.cursor == |entries| + 1
            && Sought(p, stop) == p.(advance := Some(if p.advance.Some? then p.advance.value else |entries| + 1)))
  {
    ScanIsLeast(entries, p.peerId, start);
  }

  // ---- the protocol with the keys as the source writes them

  /** Written under a prefix, a record is never the one that is read: whatever the
      run, the consumer's record stays as it was. */
  lemma {:induction false} PrefixedNeverMoves(s: State, prefix: string, consumer: string, ops: seq<Op>)
    requires prefix != "" && consumer in s.records && |consumer| == UUID_SIZE
    requires forall op | op in ops && !op.Add? :: |op.consumer| == UUID_SIZE
    ensures var final := RunOps(s, prefix, ops);
      consumer in final.records && final.records[consumer] == s.records[consumer]
    ensures Fresh(s.records[consumer]) ==> MarkedBy(s, prefix, consumer, ops) == []
    decreases |ops|
  {
    if ops != [] {
      assert ops[0] in ops;
      if !ops[0].Add? {
        assert |prefix + ops[0].consumer| > UUID_SIZE;
      }
      PrefixedNeverMoves(Step(s, prefix, ops[0]), prefix, consumer, ops[1..]);
    }
  }

  /** A fresh consumer can ever mark something exactly when records are read where
      they are written, which the source's prefix rules out. */
  lemma ProgressExactlyWhen(prefix: string)
    ensures (exists s: State, consumer: string, ops: seq<Op> :: CanMark(s, prefix, consumer, ops)) <==> prefix == INTENDED_PREFIX
    ensures WRITTEN_PREFIX != INTENDED_PREFIX
  {
    if prefix == INTENDED_PREFIX {
      var consumer := "0123456789abcdef";
      var s := State([JournalEntry(None, "")], map[consumer := Peer(None, None, None, None)]);
      var ops := [GetNext(consumer), Mark(consumer, 1)];
      var next := Step(s, prefix, ops[0]);
      assert prefix + consumer == consumer;
      assert next.records[consumer] == Peer(None, Some(1), None, Some(1));
      assert ops[1..] == [Mark(consumer, 1)];
      assert MarkedBy(next, prefix, consumer, ops[1..]) == [1] + MarkedBy(Step(next, prefix, ops[1]), prefix, consumer, []);
      assert CanMark(s, prefix, consumer, ops);
    } else {
      forall s: State, consumer: string, ops: seq<Op>
        ensures !CanMark(s, prefix, consumer, ops)
      {
        if consumer in s.records && |consumer| == UUID_SIZE && forall op | op in ops && !op.Add? :: |op.consumer| == UUID_SIZE {
          PrefixedNeverMoves(s, prefix, consumer, ops);
        }
      }
    }
  }

  ghost predicate CanMark(s: State, prefix: string, consumer: string, ops: seq<Op>) {
    && consumer in s.records && Fresh(s.records[consumer]) && |consumer| == UUID_SIZE
    && (forall op | op in ops && !op.Add? :: |op.consumer| == UUID_SIZE)
    && MarkedBy(s, prefix, consumer, ops) != []
  }
}
