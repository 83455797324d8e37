/** The session and transaction cache of one execution context.  What it asks of
    adaptors, and in which order, is kept in a log. */
module SessionCache {
  import opened Basics
  import opened Registry

  datatype Session = Session(adaptor: Instance, serial: nat)

  datatype Transaction = Transaction(id: string, serial: nat)

  datatype Event =
    | Took(adaptor: Instance)
    | Gave(adaptor: Instance)
    | Began(transaction: Transaction)
    | Committed(transaction: Transaction)
    | Dropped(transaction: Transaction)

  /** References to an adaptor that were taken and not given back. */
  function Held(log: seq<Event>, x: Instance): int {
    if log == [] then 0
    else
      Held(log[..|log| - 1], x)
      + match log[|log| - 1]
        case Took(y) => if y == x then 1 else 0
        case Gave(y) => if y == x then -1 else 0
        case _ => 0
  }

  /** The transactions open at the end of a log, and whether the last of them has
      just been committed.  A log is broken when a transaction is committed or
      released that is not the one begun last, or is not released right after its
      commit. */
  datatype Nesting = Broken | Open(transactions: seq<Transaction>, committed: bool)

  function After(n: Nesting, e: Event): Nesting {
    if n == Broken then Broken
    else
      var ts := n.transactions;
      match e
      case Began(t) => if n.committed then Broken else Open(ts + [t], false)
      case Committed(t) => if !n.committed && ts != [] && ts[|ts| - 1] == t then Open(ts, true) else Broken
      case Dropped(t) => if ts != [] && ts[|ts| - 1] == t then Open(ts[..|ts| - 1], false) else Broken
      case _ => if n.committed then Broken else n
  }

  function NestingOf(log: seq<Event>): Nesting {
    if log == [] then Open([], false) else After(NestingOf(log[..|log| - 1]), log[|log| - 1])
  }

  /** What ending the transactions asks for: the last begun first, and no commit when
      the context aborts. */
  function Ending(ts: seq<Transaction>, abort: bool): seq<Event> {
    if ts == [] then []
    else
      var last := ts[|ts| - 1];
      (if abort then [] else [Committed(last)]) + [Dropped(last)] + Ending(ts[..|ts| - 1], abort)
  }

  function Commits(log: seq<Event>): seq<Transaction> {
    if log == [] then []
    else (if log[0].Committed? then [log[0].transaction] else []) + Commits(log[1..])
  }

  function Drops(log: seq<Event>): seq<Transaction> {
    if log == [] then []
    else (if log[0].Dropped? then [log[0].transaction] else []) + Drops(log[1..])
  }

  function Reversed(ts: seq<Transaction>): seq<Transaction> {
    if ts == [] then [] else [ts[|ts| - 1]] + Reversed(ts[..|ts| - 1])
  }

  lemma CountsHead(e: Event, rest: seq<Event>)
    ensures Commits([e] + rest) == (if e.Committed? then [e.transaction] else []) + Commits(rest)
    ensures Drops([e] + rest) == (if e.Dropped? then [e.transaction] else []) + Drops(rest)
  {
    assert ([e] + rest)[1..] == rest;
  }

  /** Commits come in exactly the reverse order of the begins, or not at all, and
      every transaction is released once. */
  lemma {:induction false} EndingReverses(ts: seq<Transaction>, abort: bool)
    ensures Commits(Ending(ts, abort)) == if abort then [] else Reversed(ts)
    ensures Drops(Ending(ts, abort)) == Reversed(ts)
    decreases ts
  {
    hide Commits, Drops;
    if ts == [] {
      NoCounts();
    } else {
      var last, rest := ts[|ts| - 1], Ending(ts[..|ts| - 1], abort);
      EndingReverses(ts[..|ts| - 1], abort);
      CountsHead(Dropped(last), rest);
      CountsHead(Committed(last), [Dropped(last)] + rest);
      assert [Committed(last)] + [Dropped(last)] + rest == [Committed(last)] + ([Dropped(last)] + rest);
      assert [] + [Dropped(last)] + rest == [Dropped(last)] + rest;
    }
  }

  lemma NoCounts()
    ensures Commits([]) == [] && Drops([]) == []
  {
  }

  /** In a log that is not broken a commit is of the transaction begun last and is
      followed by the release of that transaction at once. */
  lemma CommitThenDrop(n: Nesting, t: Transaction, e: Event)
    requires After(After(n, Committed(t)), e) != Broken
    ensures n.Open? && !n.committed && n.transactions != [] && n.transactions[|n.transactions| - 1] == t
    ensures e == Dropped(t)
    ensures After(After(n, Committed(t)), e) == Open(n.transactions[..|n.transactions| - 1], false)
  {
  }

  lemma LogOne(log: seq<Event>, e: Event)
    ensures NestingOf(log + [e]) == After(NestingOf(log), e)
    ensures forall x :: Held(log + [e], x)
                        == Held(log, x) + (match e case Took(y) => if y == x then 1 else 0
                                                   case Gave(y) => if y == x then -1 else 0
                                                   case _ => 0)
  {
    assert (log + [e])[..|log|] == log;
  }

  lemma {:induction false} EndingCloses(log: seq<Event>, ts: seq<Transaction>, abort: bool)
    requires NestingOf(log) == Open(ts, false)
    ensures NestingOf(log + Ending(ts, abort)) == Open([], false)
    ensures forall x :: Held(log + Ending(ts, abort), x) == Held(log, x)
    decreases ts
  {
    hide Held, NestingOf;
    if ts == [] {
      assert log + Ending(ts, abort) == log;
    } else {
      var last := ts[|ts| - 1];
      LogOne(log, Dropped(last));
      LogOne(log, Committed(last));
      LogOne(log + [Committed(last)], Dropped(last));
      var mid := if abort then log else log + [Committed(last)];
      EndingCloses(mid + [Dropped(last)], ts[..|ts| - 1], abort);
      assert mid + [Dropped(last)] + Ending(ts[..|ts| - 1], abort) == log + Ending(ts, abort);
    }
  }

  /** Every reference is that of a session in the cache or of one held outside it. */
  ghost predicate Balanced(log: seq<Event>, sessions: map<string, Session>, loose: multiset<Instance>) {
    && (forall id | id in sessions :: sessions[id].adaptor.id == id)
    && (forall x :: Held(log, x) == loose[x] + if x.id in sessions && sessions[x.id].adaptor == x then 1 else 0)
  }

  lemma TakingBalances(log: seq<Event>, sessions: map<string, Session>, loose: multiset<Instance>, x: Instance)
    requires Balanced(log, sessions, loose)
    ensures Balanced(log + [Took(x)], sessions, loose + multiset{x})
  {
    hide Held;
    LogOne(log, Took(x));
  }

  lemma AdoptingBalances(log: seq<Event>, sessions: map<string, Session>, loose: multiset<Instance>, s: Session)
    requires Balanced(log, sessions, loose) && s.adaptor.id !in sessions && s.adaptor in loose
    ensures Balanced(log, sessions[s.adaptor.id := s], loose - multiset{s.adaptor})
  {
    hide Held;
  }

  lemma GivingBalances(log: seq<Event>, sessions: map<string, Session>, loose: multiset<Instance>, s: Session)
    requires Balanced(log, sessions, loose)
    ensures s.adaptor.id in sessions && sessions[s.adaptor.id] == s ==>
      Balanced(log + [Gave(s.adaptor)], sessions - {s.adaptor.id}, loose)
    ensures s.adaptor in loose ==> Balanced(log + [Gave(s.adaptor)], sessions, loose - multiset{s.adaptor})
  {
    hide Held;
    LogOne(log, Gave(s.adaptor));
  }

  lemma OtherBalances(log: seq<Event>, sessions: map<string, Session>, loose: multiset<Instance>, e: Event)
    requires Balanced(log, sessions, loose) && !e.Took? && !e.Gave?
    ensures Balanced(log + [e], sessions, loose)
  {
    hide Held;
    LogOne(log, e);
  }

  lemma EndingBalances(log: seq<Event>, sessions: map<string, Session>, loose: multiset<Instance>,
                       ts: seq<Transaction>, abort: bool)
    requires NestingOf(log) == Open(ts, false) && Balanced(log, sessions, loose)
    ensures Balanced(log + Ending(ts, abort), sessions, loose)
  {
    EndingCloses(log, ts, abort);
    hide Held, NestingOf, Ending;
  }

  lemma EndingStep(ts: seq<Transaction>, i: nat, abort: bool, log: seq<Event>)
    requires i <= |ts|
    ensures i == 0 ==> log + Ending(ts[..i], abort) == log
    ensures i > 0 && abort ==> log + Ending(ts[..i], abort) == log + [Dropped(ts[i - 1])] + Ending(ts[..i - 1], abort)
    ensures i > 0 && !abort ==>
      log + Ending(ts[..i], abort) == log + [Committed(ts[i - 1])] + [Dropped(ts[i - 1])] + Ending(ts[..i - 1], abort)
  {
    if i > 0 {
      assert ts[..i][..i - 1] == ts[..i - 1];
    }
  }

  class Context {
    var sessions: map<string, Session>
    var transactions: seq<Transaction>
    var log: seq<Event>
    var serial: nat
    ghost var loose: multiset<Instance>

    /** At most one transaction for an adaptor id, a log that is properly nested so
        far, and a reference for every session. */
    ghost predicate Valid()
      reads this
    {
      && (forall i, j | 0 <= i < j < |transactions| :: transactions[i].id != transactions[j].id)
      && NestingOf(log) == Open(transactions, false)
      && Balanced(log, sessions, loose)
    }

    constructor ()
      ensures Valid() && sessions == map[] && transactions == [] && log == [] && loose == multiset{}
    {
      sessions, transactions, log, serial := map[], [], [], 0;
      loose := multiset{};
    }

    /** session_create: a reference to the adaptor, then a session of it; `active` is
        what the registry gives, and without one the call throws. */
    method Create(active: Option<Instance>) returns (r: Option<Session>)
      requires Valid()
      modifies this`log, this`serial, this`loose
      ensures Valid()
      ensures r == None <==> active == None
      ensures r == None ==> log == old(log) && loose == old(loose)
      ensures r.Some? ==> r.value == Session(active.value, old(serial)) && log == old(log) + [Took(active.value)]
      ensures r.Some? ==> loose == old(loose) + multiset{active.value}
    {
      hide Held, NestingOf, Balanced;
      if active == None {
        return None;
      }
      TakingBalances(log, sessions, loose, active.value);
      LogOne(log, Took(active.value));
      log := log + [Took(active.value)];
      loose := loose + multiset{active.value};
      r := Some(Session(active.value, serial));
      serial := serial + 1;
    }

    /** session_release: out of the cache if it is the one there, then the reference
        goes back. */
    method Release(session: Session)
      requires Valid()
      requires (session.adaptor.id in sessions && sessions[session.adaptor.id] == session) || session.adaptor in loose
      modifies this`log, this`sessions, this`loose
      ensures Valid() && log == old(log) + [Gave(session.adaptor)]
      ensures old(session.adaptor.id in sessions && sessions[session.adaptor.id] == session) ==>
        sessions == old(sessions) - {session.adaptor.id} && loose == old(loose)
      ensures !old(session.adaptor.id in sessions && sessions[session.adaptor.id] == session) ==>
        sessions == old(sessions) && loose == old(loose) - multiset{session.adaptor}
    {
      hide Held, NestingOf, Balanced;
      var id := session.adaptor.id;
      GivingBalances(log, sessions, loose, session);
      if id in sessions && sessions[id] == session {
        sessions := sessions - {id};
      } else {
        loose := loose - multiset{session.adaptor};
      }
      LogOne(log, Gave(session.adaptor));
      log := log + [Gave(session.adaptor)];
    }

    method EnsureSession(id: string, active: Option<Instance>) returns (r: Option<Session>)
      requires Valid() && (active.Some? ==> active.value.id == id)
      modifies this
      ensures Valid() && loose == old(loose) && transactions == old(transactions)
      ensures r == None <==> id !in old(sessions) && active == None
      ensures r == None ==> sessions == old(sessions) && log == old(log)
      ensures r.Some? ==> sessions == old(sessions)[id := r.value]
      ensures r.Some? && id in old(sessions) ==> r.value == old(sessions)[id] && log == old(log)
      ensures r.Some? && id !in old(sessions) ==> r.value.adaptor == active.value && log == old(log) + [Took(active.value)]
    {
      hide Held, NestingOf, Balanced;
      if id !in sessions {
        r := Create(active);
        if r == None {
          return;
        }
        AdoptingBalances(log, sessions, loose, r.value);
        sessions := sessions[id := r.value];
        loose := loose - multiset{active.value};
      }
      r := Some(sessions[id]);
    }

    /** Begin a transaction unless one is open for the id or the adaptor has none. */
    method EnsureTransaction(id: string, transacts: bool)
      requires Valid()
      modifies this`log, this`transactions, this`serial
      ensures Valid()
      ensures (exists t | t in old(transactions) :: t.id == id) || !transacts ==>
        transactions == old(transactions) && log == old(log)
      ensures (forall t | t in old(transactions) :: t.id != id) && transacts ==>
        && transactions == old(transactions) + [Transaction(id, old(serial))]
        && log == old(log) + [Began(Transaction(id, old(serial)))]
    {
      hide Held, NestingOf, Balanced;
      var i := 0;
      while i < |transactions| && transactions[i].id != id
        invariant 0 <= i <= |transactions| && forall j | 0 <= j < i :: transactions[j].id != id
      {
        i := i + 1;
      }
      if i == |transactions| && transacts {
        var t := Transaction(id, serial);
        LogOne(log, Began(t));
        OtherBalances(log, sessions, loose, Began(t));
        log := log + [Began(t)];
        transactions := transactions + [t];
        serial := serial + 1;
      }
    }

    /** The cached session of an adaptor id, made when there is none; with `begin` a
        transaction is open for it as well, unless the adaptor has none. */
    method GetCached(id: string, begin: bool, active: Option<Instance>, transacts: bool) returns (r: Option<Session>)
      requires Valid() && (active.Some? ==> active.value.id == id)
      modifies this
      ensures Valid() && loose == old(loose)
      ensures r == None <==> id !in old(sessions) && active == None
      ensures r == None ==> sessions == old(sessions) && transactions == old(transactions) && log == old(log)
      ensures r.Some? ==> sessions == old(sessions)[id := r.value]
      ensures r.Some? && id in old(sessions) ==> r.value == old(sessions)[id]
      ensures r.Some? && id !in old(sessions) ==> r.value.adaptor == active.value
      ensures r.Some? && begin && transacts ==> exists t | t in transactions :: t.id == id
      ensures transactions == old(transactions)
              || (begin && exists n :: transactions == old(transactions) + [Transaction(id, n)])
    {
      hide Held, NestingOf, Balanced;
      r := EnsureSession(id, active);
      if r == None {
        return;
      }
      if begin {
        ghost var n := serial;
        EnsureTransaction(id, transacts);
        if transactions != old(transactions) {
          assert transactions == old(transactions) + [Transaction(id, n)];
          assert transactions[|transactions| - 1] in transactions;
        }
      }
    }

    method EndTransactions(abort: bool)
      requires Valid()
      modifies this`log, this`transactions
      ensures Valid() && transactions == [] && log == old(log) + Ending(old(transactions), abort)
    {
      hide Held, NestingOf, Balanced, Ending;
      EndingBalances(log, sessions, loose, transactions, abort);
      EndingCloses(log, transactions, abort);
      var i := |transactions|;
      assert transactions[..i] == transactions;
      while i > 0
        invariant 0 <= i <= |transactions| && transactions == old(transactions)
        invariant log + Ending(transactions[..i], abort) == old(log) + Ending(transactions, abort)
      {
        var t := transactions[i - 1];
        EndingStep(transactions, i, abort, log);
        if !abort {
          log := log + [Committed(t)];
        }
        log := log + [Dropped(t)];
        i := i - 1;
      }
      EndingStep(transactions, 0, abort, log);
      transactions := [];
    }

    /** Every cached session, in no particular order. */
    method ReleaseSessions() returns (ghost gave: seq<Event>)
      requires Valid()
      modifies this`log, this`sessions, this`loose
      ensures Valid() && sessions == map[] && loose == old(loose)
      ensures log == old(log) + gave && |gave| == |old(sessions)| && forall e | e in gave :: e.Gave?
    {
      hide Held, NestingOf;
      gave := [];
      while sessions != map[]
        invariant Valid() && loose == old(loose)
        invariant log == old(log) + gave && forall e | e in gave :: e.Gave?
        invariant |gave| + |sessions| == |old(sessions)|
        decreases |sessions|
      {
        var id :| id in sessions;
        ghost var before := sessions;
        gave := gave + [Gave(sessions[id].adaptor)];
        Release(sessions[id]);
        assert sessions.Keys == before.Keys - {id} && |sessions| == |sessions.Keys| && |before| == |before.Keys|;
      }
    }

    /** Commit in reverse order of begin, or not at all when aborting; release every
        transaction and then every session once. */
    method CommitAndRelease(abort: bool) returns (ghost gave: seq<Event>)
      requires Valid()
      modifies this
      ensures Valid() && sessions == map[] && transactions == [] && loose == old(loose)
      ensures log == old(log) + Ending(old(transactions), abort) + gave
      ensures |gave| == |old(sessions)| && forall e | e in gave :: e.Gave?
      ensures forall x :: Held(log, x) == loose[x]
    {
      hide NestingOf, Ending, Held;
      EndTransactions(abort);
      gave := ReleaseSessions();
    }
  }
}
