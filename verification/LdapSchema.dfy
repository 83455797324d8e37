/** Inherited LDAP attributes: for each object class a linked list of attributes
    that ends in the list of its last parent. */
module LdapSchema {
  import opened Basics

  /** An object class: the properties it declares, in order, and its SUP classes. */
  datatype ClassDef = ClassDef(own: seq<string>, sup: seq<string>)

  type Classes = map<string, ClassDef>

  // ---- the specification: section 2.4 of RFC 4512

  /** `path` leads from a class to one of its registered ancestors, or is the class
      itself. */
  predicate IsLineage(classes: Classes, path: seq<string>) {
    && path != []
    && (forall c | c in path :: c in classes)
    && (forall i | 0 <= i < |path| - 1 :: path[i] in classes && path[i + 1] in classes[path[i]].sup)
  }

  /** The class or a registered ancestor declares the registered attribute. */
  ghost predicate Declares(classes: Classes, registered: set<string>, id: string, name: string) {
    name in registered
    && exists path :: DeclaredAt(classes, path, id, name)
  }

  /** The SUP graph has no cycle: parents have smaller ranks. */
  ghost predicate Acyclic(classes: Classes, rank: map<string, nat>) {
    && (forall c | c in classes :: c in rank)
    && forall c, p | c in classes && p in classes[c].sup && p in classes :: rank[p] < rank[c]
  }

  ghost predicate DeclaredAt(classes: Classes, path: seq<string>, id: string, name: string) {
    IsLineage(classes, path) && path[0] == id && name in classes[path[|path| - 1]].own
  }

  lemma LineageExtends(classes: Classes, id: string, p: string, name: string, path: seq<string>)
    requires id in classes && p in classes[id].sup && DeclaredAt(classes, path, p, name)
    ensures DeclaredAt(classes, [id] + path, id, name)
  {
    var longer := [id] + path;
    forall i | 0 <= i < |longer| - 1
      ensures longer[i] in classes && longer[i + 1] in classes[longer[i]].sup
    {
      if i > 0 {
        assert longer[i] == path[i - 1] && longer[i + 1] == path[i];
      }
    }
    assert longer[|longer| - 1] == path[|path| - 1];
  }

  lemma LineageShrinks(classes: Classes, id: string, name: string, path: seq<string>)
    requires DeclaredAt(classes, path, id, name) && |path| > 1
    ensures path[1] in classes && path[1] in classes[id].sup && DeclaredAt(classes, path[1..], path[1], name)
  {
    assert path[0] in path && path[1] in path;
    assert forall c | c in path[1..] :: c in path;
  }

  ghost function Declared(classes: Classes, registered: set<string>, id: string): iset<string> {
    iset x | Declares(classes, registered, id, x)
  }

  /** A registered parent among the first `k` declares the attribute. */
  ghost predicate Passed(classes: Classes, registered: set<string>, sup: seq<string>, k: nat, name: string) {
    exists i | 0 <= i < k && i < |sup| :: sup[i] in classes && Declares(classes, registered, sup[i], name)
  }

  /** A class declares what it lists itself and what its parents declare. */
  lemma DeclaresByLevel(classes: Classes, registered: set<string>, id: string, name: string)
    requires id in classes
    ensures Declares(classes, registered, id, name)
      <==> (name in classes[id].own && name in registered)
           || Passed(classes, registered, classes[id].sup, |classes[id].sup|, name)
  {
    var sup := classes[id].sup;
    if name in classes[id].own && name in registered {
      assert DeclaredAt(classes, [id], id, name);
    }
    if Passed(classes, registered, sup, |sup|, name) {
      var i :| 0 <= i < |sup| && sup[i] in classes && Declares(classes, registered, sup[i], name);
      var path :| DeclaredAt(classes, path, sup[i], name);
      LineageExtends(classes, id, sup[i], name, path);
    }
    if Declares(classes, registered, id, name) {
      var path :| DeclaredAt(classes, path, id, name);
      if |path| > 1 {
        LineageShrinks(classes, id, name, path);
        assert Declares(classes, registered, path[1], name);
      } else {
        assert path == [id];
      }
    }
  }

  ghost function OwnUpTo(own: seq<string>, registered: set<string>, i: nat): iset<string> {
    iset x | x in registered && exists j | 0 <= j < i && j < |own| :: own[j] == x
  }

  lemma OneMoreOwn(own: seq<string>, registered: set<string>, i: nat)
    requires i < |own|
    ensures OwnUpTo(own, registered, i + 1)
      == if own[i] in registered then OwnUpTo(own, registered, i) + iset{own[i]} else OwnUpTo(own, registered, i)
  {
  }

  /** What a class lists itself and what its first `k` parents pass on. */
  ghost function NamesUpTo(classes: Classes, registered: set<string>, id: string, k: nat): iset<string>
    requires id in classes
  {
    OwnUpTo(classes[id].own, registered, |classes[id].own|) + iset x | Passed(classes, registered, classes[id].sup, k, x)
  }

  lemma OneMoreParent(classes: Classes, registered: set<string>, id: string, k: nat)
    requires id in classes && k < |classes[id].sup|
    ensures NamesUpTo(classes, registered, id, k + 1)
      == if classes[id].sup[k] in classes
         then NamesUpTo(classes, registered, id, k) + Declared(classes, registered, classes[id].sup[k])
         else NamesUpTo(classes, registered, id, k)
  {
    hide Declares;
  }

  lemma AllParents(classes: Classes, registered: set<string>, id: string)
    requires id in classes
    ensures NamesUpTo(classes, registered, id, |classes[id].sup|) == Declared(classes, registered, id)
  {
    forall x {
      DeclaresByLevel(classes, registered, id, x);
    }
  }

  // ---- linked lists: pointers into the pool that all nodes come from

  datatype Node = Node(attribute: Option<string>, next: Option<nat>)

  type Pool = seq<Node>

  function Following(path: seq<nat>, i: nat): Option<nat> {
    if i + 1 < |path| then Some(path[i + 1]) else None
  }

  /** `path` is the finite list that starts at `first`; as it ends, it has no cycle. */
  predicate IsPath(pool: Pool, first: Option<nat>, path: seq<nat>) {
    && first == (if path == [] then None else Some(path[0]))
    && forall i | 0 <= i < |path| :: path[i] < |pool| && pool[path[i]].next == Following(path, i)
  }

  /** No node comes twice on a list that ends. */
  lemma {:induction false} NoNodeTwice(pool: Pool, first: Option<nat>, path: seq<nat>, i: nat, j: nat)
    requires IsPath(pool, first, path) && i < j < |path|
    ensures path[i] != path[j]
    decreases |path| - j
  {
    if path[i] == path[j] {
      assert Following(path, i) == Following(path, j);
      if j + 1 < |path| {
        NoNodeTwice(pool, first, path, i + 1, j + 1);
      }
    }
  }

  /** Following the list from its first node leads through these nodes. */
  predicate Leads(pool: Pool, run: seq<nat>) {
    && run != []
    && (forall i | 0 <= i < |run| :: run[i] < |pool|)
    && forall i | 0 <= i < |run| - 1 :: pool[run[i]].next == Some(run[i + 1])
  }

  predicate NoRepeat(run: seq<nat>) {
    forall i, j | 0 <= i < j < |run| :: run[i] != run[j]
  }

  lemma {:induction false} RunIsOnPath(pool: Pool, run: seq<nat>, path: seq<nat>, i: nat)
    requires Leads(pool, run) && IsPath(pool, Some(run[0]), path) && i < |run|
    ensures i < |path| && path[i] == run[i]
  {
    if i > 0 {
      RunIsOnPath(pool, run, path, i - 1);
      assert pool[run[i - 1]].next == Some(run[i - 1 + 1]) && pool[path[i - 1]].next == Following(path, i - 1);
    }
  }

  lemma {:induction false} DistinctSize(run: seq<nat>, n: nat)
    requires NoRepeat(run) && forall i | 0 <= i < |run| :: run[i] < n
    ensures |run| <= n
    decreases n
  {
    if run != [] {
      assert run[0] < n;
      if i :| 0 <= i < |run| && run[i] == n - 1 {
        var rest := run[..i] + run[i + 1..];
        forall j | 0 <= j < |rest|
          ensures rest[j] < n - 1
        {
          assert rest[j] == run[if j < i then j else j + 1];
        }
        DistinctSize(rest, n - 1);
      } else {
        DistinctSize(run, n - 1);
      }
    }
  }

  /** A run without repetition goes on until the list ends or a node comes again. */
  lemma {:induction false} EndsOrRepeats(pool: Pool, run: seq<nat>) returns (longer: seq<nat>)
    requires Leads(pool, run) && NoRepeat(run)
    requires forall n | 0 <= n < |pool| && pool[n].next.Some? :: pool[n].next.value < |pool|
    ensures Leads(pool, longer) && longer[0] == run[0]
    ensures IsPath(pool, Some(run[0]), longer) || !NoRepeat(longer)
    decreases |pool| - |run|
  {
    var last := run[|run| - 1];
    if pool[last].next == None {
      longer := run;
    } else {
      longer := run + [pool[last].next.value];
      if NoRepeat(longer) {
        DistinctSize(longer, |pool|);
        longer := EndsOrRepeats(pool, longer);
      }
    }
  }

  /** A list ends, and every walk along it, exactly when no run along it comes to a
      node for the second time. */
  lemma {:induction false} EndsExactlyWhen(pool: Pool, first: nat)
    requires first < |pool| && forall n | 0 <= n < |pool| && pool[n].next.Some? :: pool[n].next.value < |pool|
    ensures (exists path :: IsPath(pool, Some(first), path))
      <==> forall run | Leads(pool, run) && run[0] == first :: NoRepeat(run)
  {
    if path :| IsPath(pool, Some(first), path) {
      forall run | Leads(pool, run) && run[0] == first
        ensures NoRepeat(run)
      {
        forall i, j | 0 <= i < j < |run|
          ensures run[i] != run[j]
        {
          RunIsOnPath(pool, run, path, i);
          RunIsOnPath(pool, run, path, j);
          NoNodeTwice(pool, Some(first), path, i, j);
        }
      }
    } else {
      var longer := EndsOrRepeats(pool, [first]);
      assert Leads(pool, longer);
    }
  }

  ghost predicate Has(pool: Pool, path: seq<nat>, name: string) {
    exists n | n in path :: n < |pool| && pool[n].attribute == Some(name)
  }

  /** The attribute names on the list. */
  ghost function Names(pool: Pool, path: seq<nat>): iset<string> {
    iset x | Has(pool, path, x)
  }

  /** The nodes in `kept` are the same in both pools. */
  ghost predicate Same(pool: Pool, pool': Pool, kept: set<nat>) {
    forall n | n in kept :: n < |pool| && n < |pool'| && pool'[n] == pool[n]
  }

  lemma PathIsKept(pool: Pool, pool': Pool, kept: set<nat>, first: Option<nat>, path: seq<nat>)
    requires Same(pool, pool', kept) && IsPath(pool, first, path) && forall n | n in path :: n in kept
    ensures IsPath(pool', first, path)
    ensures forall x :: Has(pool', path, x) <==> Has(pool, path, x)
  {
    forall i | 0 <= i < |path|
      ensures path[i] < |pool'| && pool'[path[i]] == pool[path[i]]
    {
      assert path[i] in path;
    }
  }

  /** A list that still grows: its own nodes, then a finished list spliced to the
      last of them. */
  ghost predicate Open(pool: Pool, mine: seq<nat>, spliced: seq<nat>) {
    && mine != []
    && (forall i | 0 <= i < |mine| :: mine[i] < |pool|)
    && (forall i | 0 <= i < |mine| - 1 :: pool[mine[i]].next == Following(mine, i))
    && (forall i, j | 0 <= i < j < |mine| :: mine[i] != mine[j])
    && IsPath(pool, pool[mine[|mine| - 1]].next, spliced)
    && (forall n | n in mine :: n !in spliced)
  }

  lemma OpenIsPath(pool: Pool, mine: seq<nat>, spliced: seq<nat>)
    requires Open(pool, mine, spliced)
    ensures IsPath(pool, Some(mine[0]), mine + spliced)
    ensures forall x :: Has(pool, mine + spliced, x) <==> Has(pool, mine, x) || Has(pool, spliced, x)
  {
    var path := mine + spliced;
    forall i | 0 <= i < |path|
      ensures path[i] < |pool| && pool[path[i]].next == Following(path, i)
    {
      if i < |mine| - 1 {
        assert Following(path, i) == Following(mine, i);
      } else if i >= |mine| {
        assert path[i] == spliced[i - |mine|] && Following(path, i) == Following(spliced, i - |mine|);
      }
    }
  }

  /** The pool with a new node behind `tail`. */
  function Extended(pool: Pool, tail: nat, node: Node): Pool
    requires tail < |pool|
  {
    pool[tail := pool[tail].(next := Some(|pool|))] + [node]
  }

  lemma ExtendedIsOpen(pool: Pool, mine: seq<nat>, spliced: seq<nat>, node: Node, path: seq<nat>)
    requires Open(pool, mine, spliced) && IsPath(pool, node.next, path) && forall n | n in mine :: n !in path
    ensures Open(Extended(pool, mine[|mine| - 1], node), mine + [|pool|], path)
  {
    var tail := mine[|mine| - 1];
    assert tail in mine;
    var pool' := Extended(pool, tail, node);
    var mine' := mine + [|pool|];
    forall i | 0 <= i < |mine'| - 1
      ensures pool'[mine'[i]].next == Following(mine', i)
    {
      assert i < |mine| - 1 ==> Following(mine', i) == Following(mine, i) && mine[i] != tail;
    }
    forall i | 0 <= i < |path|
      ensures path[i] < |pool'| && pool'[path[i]].next == Following(path, i)
    {
      assert path[i] in path;
    }
  }

  lemma ExtendedHas(pool: Pool, mine: seq<nat>, node: Node, x: string)
    requires mine != [] && mine[|mine| - 1] < |pool| && forall n | n in mine :: n < |pool|
    ensures Has(Extended(pool, mine[|mine| - 1], node), mine + [|pool|], x)
      <==> Has(pool, mine, x) || node.attribute == Some(x)
  {
    var pool' := Extended(pool, mine[|mine| - 1], node);
    var mine' := mine + [|pool|];
    if Has(pool, mine, x) {
      var n :| n in mine && n < |pool| && pool[n].attribute == Some(x);
      assert n in mine' && pool'[n].attribute == Some(x);
    }
    if node.attribute == Some(x) {
      assert |pool| in mine' && pool'[|pool|].attribute == Some(x);
    }
  }

  lemma SetKeepsOpen(pool: Pool, mine: seq<nat>, spliced: seq<nat>, attribute: Option<string>)
    requires Open(pool, mine, spliced) && pool[mine[|mine| - 1]].attribute == None
    ensures var tail := mine[|mine| - 1]; var pool' := pool[tail := pool[tail].(attribute := attribute)];
            && Open(pool', mine, spliced)
            && forall x :: Has(pool', mine, x) <==> Has(pool, mine, x) || attribute == Some(x)
  {
    var tail := mine[|mine| - 1];
    var pool' := pool[tail := pool[tail].(attribute := attribute)];
    assert tail in mine;
    forall x
      ensures Has(pool', mine, x) <==> Has(pool, mine, x) || attribute == Some(x)
    {
      if n :| n in mine && n < |pool| && pool[n].attribute == Some(x) {
        assert n != tail && pool'[n].attribute == Some(x);
      }
      if attribute == Some(x) {
        assert pool'[tail].attribute == Some(x);
      }
    }
  }

  /** Nodes outside `mine` are as before, and what `mine` grew by is new. */
  ghost predicate Grew(pool: Pool, pool': Pool, mine: seq<nat>, mine': seq<nat>) {
    && |pool| <= |pool'| && mine <= mine'
    && (forall n | 0 <= n < |pool| && n !in mine :: pool'[n] == pool[n])
    && (forall n | n in mine' && n !in mine :: |pool| <= n)
  }

  /** The pool with the attribute in the last node if that is blank, else in a new
      node that ends the list. */
  function Appended(pool: Pool, tail: nat, attribute: Option<string>): Pool
    requires tail < |pool|
  {
    if pool[tail].attribute == None then pool[tail := pool[tail].(attribute := attribute)]
    else Extended(pool, tail, Node(attribute, None))
  }

  /** The list after that: its own nodes, and what stays spliced. */
  ghost function After(pool: Pool, mine: seq<nat>, spliced: seq<nat>): (seq<nat>, seq<nat>)
    requires mine != [] && mine[|mine| - 1] < |pool|
  {
    if pool[mine[|mine| - 1]].attribute == None then (mine, spliced) else (mine + [|pool|], [])
  }

  lemma AppendedIsOpen(pool: Pool, mine: seq<nat>, spliced: seq<nat>, attribute: Option<string>)
    requires Open(pool, mine, spliced)
    ensures Open(Appended(pool, mine[|mine| - 1], attribute),
                 After(pool, mine, spliced).0, After(pool, mine, spliced).1)
    ensures forall x :: (Has(Appended(pool, mine[|mine| - 1], attribute), After(pool, mine, spliced).0, x)
                         <==> Has(pool, mine, x) || attribute == Some(x))
  {
    if pool[mine[|mine| - 1]].attribute == None {
      SetKeepsOpen(pool, mine, spliced, attribute);
    } else {
      ExtendedIsOpen(pool, mine, spliced, Node(attribute, None), []);
      forall x {
        ExtendedHas(pool, mine, Node(attribute, None), x);
      }
    }
  }

  lemma AppendedGrew(pool: Pool, mine: seq<nat>, spliced: seq<nat>, attribute: Option<string>)
    requires mine != [] && mine[|mine| - 1] < |pool|
    ensures Grew(pool, Appended(pool, mine[|mine| - 1], attribute), mine, After(pool, mine, spliced).0)
  {
    assert mine[|mine| - 1] in mine;
  }

  ghost function With(names: iset<string>, attribute: Option<string>): iset<string> {
    if attribute == None then names else names + iset{attribute.value}
  }

  lemma NamesOneMore(pool: Pool, path: seq<nat>, j: nat, names: iset<string>)
    requires j < |path| && path[j] < |pool|
    ensures names + Names(pool, path[..j + 1]) == With(names + Names(pool, path[..j]), pool[path[j]].attribute)
  {
    assert path[..j + 1] == path[..j] + [path[j]];
    assert path[j] in path[..j + 1];
  }

  /** The list under construction has the names; what is spliced repeats some. */
  ghost predicate Growing(pool: Pool, mine: seq<nat>, spliced: seq<nat>, names: iset<string>) {
    Open(pool, mine, spliced) && Names(pool, mine) == names && Names(pool, spliced) <= names
  }

  lemma AppendedHasSpliced(pool: Pool, mine: seq<nat>, spliced: seq<nat>, attribute: Option<string>)
    requires Open(pool, mine, spliced)
    ensures forall x :: (Has(Appended(pool, mine[|mine| - 1], attribute), After(pool, mine, spliced).1, x)
                         ==> Has(pool, spliced, x))
  {
    assert mine[|mine| - 1] in mine;
  }

  lemma GrowingIsPath(pool: Pool, mine: seq<nat>, spliced: seq<nat>, names: iset<string>)
    requires Growing(pool, mine, spliced, names)
    ensures mine != [] && mine[|mine| - 1] < |pool| && IsPath(pool, Some(mine[0]), mine + spliced)
    ensures Grew(pool, pool, mine, mine) && forall x :: Has(pool, mine + spliced, x) <==> x in names
  {
    OpenIsPath(pool, mine, spliced);
  }

  lemma AppendedGrows(pool: Pool, mine: seq<nat>, spliced: seq<nat>, names: iset<string>, attribute: Option<string>)
    requires Growing(pool, mine, spliced, names)
    ensures Growing(Appended(pool, mine[|mine| - 1], attribute),
                    After(pool, mine, spliced).0, After(pool, mine, spliced).1, With(names, attribute))
    ensures Grew(pool, Appended(pool, mine[|mine| - 1], attribute), mine, After(pool, mine, spliced).0)
  {
    hide Open, Grew, Appended, After, Has, IsPath;
    GrowingIsPath(pool, mine, spliced, names);
    AppendedIsOpen(pool, mine, spliced, attribute);
    AppendedGrew(pool, mine, spliced, attribute);
    AppendedHasSpliced(pool, mine, spliced, attribute);
  }

  lemma GrowthStarts(pool: Pool, mine: seq<nat>, spliced: seq<nat>, names: iset<string>, path: seq<nat>)
    requires Growing(pool, mine, spliced, names)
    ensures mine != [] && mine[|mine| - 1] < |pool| && Grew(pool, pool, mine, mine)
    ensures forall n | n in mine :: n < |pool|
    ensures names + Names(pool, path[..0]) == names
  {
  }

  lemma PathStart(pool: Pool, first: nat, path: seq<nat>)
    requires IsPath(pool, Some(first), path)
    ensures path != [] && path[0] == first
  {
  }

  lemma PathStep(pool: Pool, first: nat, path: seq<nat>, j: nat)
    requires IsPath(pool, Some(first), path) && j < |path|
    ensures path[j] < |pool| && pool[path[j]].next == Following(path, j) && path[j] in path
  {
  }

  /** The list at `first` ends, is built for good, and has exactly the names. */
  ghost predicate Listed(pool: Pool, first: nat, path: seq<nat>, done: set<nat>, names: iset<string>) {
    IsPath(pool, Some(first), path) && (forall n | n in path :: n in done) && Names(pool, path) == names
  }

  lemma ListedIsKept(pool: Pool, pool': Pool, mine: seq<nat>, mine': seq<nat>, first: nat, path: seq<nat>,
                     done: set<nat>, names: iset<string>)
    requires Listed(pool, first, path, done, names)
    requires Grew(pool, pool', mine, mine') && forall n | n in done :: n < |pool| && n !in mine
    ensures Listed(pool', first, path, done, names)
  {
    PathIsKept(pool, pool', done, Some(first), path);
  }

  lemma GrowingIsKept(pool: Pool, pool': Pool, mine: seq<nat>, spliced: seq<nat>, names: iset<string>)
    requires Growing(pool, mine, spliced, names) && pool <= pool'
    ensures Growing(pool', mine, spliced, names)
  {
    assert forall i | 0 <= i < |spliced| :: spliced[i] < |pool|;
    PathIsKept(pool, pool', (set n | n in spliced), pool[mine[|mine| - 1]].next, spliced);
    assert forall x :: Has(pool', mine, x) <==> Has(pool, mine, x);
  }

  lemma SplicedGrows(pool: Pool, mine: seq<nat>, spliced: seq<nat>, names: iset<string>, first: nat, path: seq<nat>)
    requires Growing(pool, mine, spliced, names) && mine != [] && mine[|mine| - 1] < |pool|
    requires IsPath(pool, Some(first), path) && Names(pool, path) <= names && forall n | n in path :: n !in mine
    ensures Growing(Extended(pool, mine[|mine| - 1], Node(None, Some(first))), mine + [|pool|], path, names)
    ensures Grew(pool, Extended(pool, mine[|mine| - 1], Node(None, Some(first))), mine, mine + [|pool|])
  {
    var tail := mine[|mine| - 1];
    var pool' := Extended(pool, tail, Node(None, Some(first)));
    ExtendedIsOpen(pool, mine, spliced, Node(None, Some(first)), path);
    forall x {
      ExtendedHas(pool, mine, Node(None, Some(first)), x);
    }
    assert tail in mine;
    forall n | n in path
      ensures n < |pool| && pool'[n] == pool[n]
    {
    }
  }

  lemma PathInPool(pool: Pool, first: nat, path: seq<nat>)
    requires IsPath(pool, Some(first), path)
    ensures forall n | n in path :: n < |pool|
  {
  }

  lemma GrewApart(pool: Pool, pool': Pool, mine: seq<nat>, mine': seq<nat>, first: nat, path: seq<nat>)
    requires IsPath(pool, Some(first), path)
    requires Grew(pool, pool', mine, mine') && forall n | n in path :: n < |pool| && n !in mine
    ensures IsPath(pool', Some(first), path) && Names(pool', path) == Names(pool, path)
    ensures forall n | n in path :: n !in mine'
  {
    PathIsKept(pool, pool', (set n | n in path), Some(first), path);
  }

  lemma GrewMeans(pool: Pool, pool': Pool, mine: seq<nat>, mine': seq<nat>)
    requires Grew(pool, pool', mine, mine')
    ensures |pool| <= |pool'| && forall n | 0 <= n < |pool| && n !in mine :: pool'[n] == pool[n]
    ensures forall n | n in mine' :: n in mine || |pool| <= n
  {
  }

  lemma StaysApart(pool: Pool, pool': Pool, mine: seq<nat>, mine': seq<nat>, done: set<nat>)
    requires Grew(pool, pool', mine, mine') && forall n | n in done :: n < |pool|
    requires forall n | n in mine :: n !in done
    ensures forall n | n in mine' :: n !in done
  {
  }

  lemma NewNode(pool: Pool)
    ensures Growing(pool + [Node(None, None)], [|pool|], [], iset{})
    ensures Grew(pool, pool + [Node(None, None)], [], [|pool|])
  {
  }

  lemma NoParents(classes: Classes, registered: set<string>, id: string)
    requires id in classes
    ensures NamesUpTo(classes, registered, id, 0) == OwnUpTo(classes[id].own, registered, |classes[id].own|)
  {
  }

  lemma GrewBehind(pool: Pool, pool': Pool, pool'': Pool, mine: seq<nat>, mine': seq<nat>)
    requires pool <= pool' && Grew(pool', pool'', mine, mine')
    ensures Grew(pool, pool'', mine, mine')
  {
  }

  lemma GrewOn(pool: Pool, pool': Pool, pool'': Pool, mine: seq<nat>, mine': seq<nat>, mine'': seq<nat>)
    requires Grew(pool, pool', mine, mine') && Grew(pool', pool'', mine', mine'')
    requires forall n | n in mine :: n < |pool|
    ensures Grew(pool, pool'', mine, mine'')
  {
    forall n | 0 <= n < |pool| && n !in mine
      ensures pool''[n] == pool[n]
    {
      assert n !in mine';
    }
  }

  lemma GrewKeepsNode(pool: Pool, pool': Pool, mine: seq<nat>, mine': seq<nat>, n: nat)
    requires Grew(pool, pool', mine, mine') && n < |pool| && n !in mine
    ensures n < |pool'| && pool'[n] == pool[n] && n !in mine'
  {
  }

  /** Every class met is under construction or has its final list. */
  ghost predicate Tables(classes: Classes, registered: set<string>, pool: Pool, attributes: map<string, nat>,
                         chains: map<string, seq<nat>>, done: set<nat>, building: set<string>)
  {
    && (forall n | n in done :: n < |pool|)
    && (forall c | c in attributes :: c in classes && (c in building || c in chains))
    && (forall b | b in building :: b !in chains)
    && (forall c | c in chains ::
          && c in attributes && c in classes
          && Listed(pool, attributes[c], chains[c], done, Declared(classes, registered, c)))
  }

  lemma TablesGive(classes: Classes, registered: set<string>, pool: Pool, attributes: map<string, nat>,
                   chains: map<string, seq<nat>>, done: set<nat>, building: set<string>, c: string)
    requires Tables(classes, registered, pool, attributes, chains, done, building) && c in chains
    ensures forall n | n in done :: n < |pool|
    ensures c in attributes && IsPath(pool, Some(attributes[c]), chains[c]) && forall n | n in chains[c] :: n in done
    ensures Names(pool, chains[c]) == Declared(classes, registered, c)
  {
  }

  lemma TablesApart(classes: Classes, registered: set<string>, pool: Pool, attributes: map<string, nat>,
                    chains: map<string, seq<nat>>, done: set<nat>, building: set<string>)
    requires Tables(classes, registered, pool, attributes, chains, done, building)
    ensures forall b | b in building :: b !in chains
    ensures forall c | c in chains :: c in attributes
    ensures forall c | c in attributes :: c in building || c in chains
    ensures forall n | n in done :: n < |pool|
  {
  }

  lemma TablesBegin(classes: Classes, registered: set<string>, pool: Pool, attributes: map<string, nat>,
                    chains: map<string, seq<nat>>, done: set<nat>, building: set<string>, id: string, first: nat)
    requires Tables(classes, registered, pool, attributes, chains, done, building) && id in classes && id !in attributes
    ensures Tables(classes, registered, pool, attributes[id := first], chains, done, building + {id})
  {
    hide Listed, Declared;
  }

  lemma TablesAreKept(classes: Classes, registered: set<string>, pool: Pool, attributes: map<string, nat>,
                      chains: map<string, seq<nat>>, done: set<nat>, building: set<string>,
                      pool': Pool, mine: seq<nat>, mine': seq<nat>)
    requires Tables(classes, registered, pool, attributes, chains, done, building)
    requires Grew(pool, pool', mine, mine') && forall n | n in mine :: n !in done
    ensures Tables(classes, registered, pool', attributes, chains, done, building)
  {
    forall c | c in chains
      ensures Listed(pool', attributes[c], chains[c], done, Declared(classes, registered, c))
    {
      ListedIsKept(pool, pool', mine, mine', attributes[c], chains[c], done, Declared(classes, registered, c));
    }
  }

  lemma TakenIsListed(pool: Pool, mine: seq<nat>, spliced: seq<nat>, names: iset<string>, done: set<nat>)
    requires Growing(pool, mine, spliced, names) && forall n | n in mine || n in spliced :: n in done
    ensures mine != [] && Listed(pool, mine[0], mine + spliced, done, names) && forall n | n in mine :: n < |pool|
  {
    OpenIsPath(pool, mine, spliced);
  }

  lemma TablesTake(classes: Classes, registered: set<string>, pool: Pool, attributes: map<string, nat>,
                   chains: map<string, seq<nat>>, done: set<nat>, building: set<string>,
                   id: string, mine: seq<nat>, spliced: seq<nat>)
    requires Tables(classes, registered, pool, attributes, chains, done, building)
    requires Growing(pool, mine, spliced, Declared(classes, registered, id))
    requires mine != [] && id in attributes && attributes[id] == mine[0] && forall n | n in spliced :: n in done
    ensures Tables(classes, registered, pool, attributes,
                   chains[id := mine + spliced], done + (set n | n in mine), building - {id})
  {
    hide Open, Growing, Names, Has, IsPath, Declared;
    var done' := done + (set n | n in mine);
    TakenIsListed(pool, mine, spliced, Declared(classes, registered, id), done');
    forall c | c in chains && c != id
      ensures Listed(pool, attributes[c], chains[c], done', Declared(classes, registered, c))
    {
    }
  }

  class Metadata {
    const classes: Classes
    const registered: set<string>
    ghost const rank: map<string, nat>
    var nodes: Pool
    var attributes: map<string, nat>
    ghost var chains: map<string, seq<nat>>
    ghost var done: set<nat>
    ghost var building: set<string>

    ghost predicate Valid()
      reads this
    {
      Acyclic(classes, rank) && Tables(classes, registered, nodes, attributes, chains, done, building)
    }

    /** Lists that were there are still there. */
    twostate predicate Grown()
      reads this
    {
      && (forall c | c in old(attributes) :: c in attributes && attributes[c] == old(attributes[c]))
      && (forall c | c in old(chains) :: c in chains && chains[c] == old(chains[c]))
      && old(done) <= done
    }

    constructor (classes: Classes, registered: set<string>, ghost rank: map<string, nat>)
      requires Acyclic(classes, rank)
      ensures Valid() && this.classes == classes && this.registered == registered && this.rank == rank
      ensures nodes == [] && attributes == map[] && building == {}
    {
      this.classes, this.registered, this.rank := classes, registered, rank;
      nodes, attributes, chains, done, building := [], map[], map[], {}, {};
    }

    /** get_object_type_attribute: the first node of the name. */
    method Lookup(first: Option<nat>, name: string, ghost path: seq<nat>) returns (r: Option<nat>)
      requires IsPath(nodes, first, path)
      ensures r.Some? <==> Has(nodes, path, name)
      ensures r.Some? ==> r.value in path && r.value < |nodes| && nodes[r.value].attribute == Some(name)
    {
      r := first;
      ghost var i := 0;
      while r.Some? && nodes[r.value].attribute != Some(name)
        invariant 0 <= i <= |path| && r == if i < |path| then Some(path[i]) else None
        invariant forall j | 0 <= j < i :: nodes[path[j]].attribute != Some(name)
        decreases |path| - i
      {
        assert nodes[r.value].next == Following(path, i);
        r := nodes[r.value].next;
        i := i + 1;
      }
    }

    /** Put an attribute in the last node if that is blank, else in a new one. */
    method Append(tail: nat, attribute: Option<string>) returns (last: nat)
      requires tail < |nodes|
      modifies this`nodes
      ensures nodes == Appended(old(nodes), tail, attribute)
      ensures last == if old(nodes)[tail].attribute == None then tail else |old(nodes)|
    {
      last := tail;
      if nodes[tail].attribute.Some? {
        last := |nodes|;
        nodes := Extended(nodes, tail, Node(None, None));
      }
      nodes := nodes[last := nodes[last].(attribute := attribute)];
    }

    /** The class's own properties; one that is not a registered attribute leaves its
        node blank. */
    method AddOwn(first: nat, own: seq<string>) returns (last: nat, ghost mine: seq<nat>)
      requires Growing(nodes, [first], [], iset{})
      modifies this`nodes
      ensures Grew(old(nodes), nodes, [first], mine)
      ensures Growing(nodes, mine, [], OwnUpTo(own, registered, |own|))
      ensures mine != [] && mine[0] == first && mine[|mine| - 1] == last
    {
      hide Open, Growing, Grew, Names, Has, IsPath, Appended;
      GrowthStarts(nodes, [first], [], iset{}, []);
      assert OwnUpTo(own, registered, 0) == iset{};
      last, mine := first, [first];
      ghost var spliced := [];
      var i := 0;
      while i < |own|
        invariant 0 <= i <= |own| && Grew(old(nodes), nodes, [first], mine)
        invariant mine != [] && mine[0] == first && mine[|mine| - 1] == last && spliced == []
        invariant Growing(nodes, mine, spliced, OwnUpTo(own, registered, i))
      {
        var attribute := if own[i] in registered then Some(own[i]) else None;
        ghost var pool, shorter := nodes, mine;
        OneMoreOwn(own, registered, i);
        GrowingIsPath(nodes, mine, spliced, OwnUpTo(own, registered, i));
        AppendedGrows(nodes, mine, spliced, OwnUpTo(own, registered, i), attribute);
        mine, spliced := After(nodes, mine, spliced).0, After(nodes, mine, spliced).1;
        last := Append(last, attribute);
        GrewOn(old(nodes), pool, nodes, [first], shorter, mine);
        i := i + 1;
      }
    }

    /** An attribute of a parent is copied when the list so far lacks its name. */
    method CopyOne(first: nat, tail: nat, name: string, ghost mine: seq<nat>, ghost spliced: seq<nat>,
                   ghost names: iset<string>)
      returns (last: nat, ghost mine': seq<nat>, ghost spliced': seq<nat>)
      requires Growing(nodes, mine, spliced, names) && first == mine[0] && tail == mine[|mine| - 1]
      modifies this`nodes
      ensures Grew(old(nodes), nodes, mine, mine')
      ensures Growing(nodes, mine', spliced', names + iset{name})
      ensures mine' != [] && mine'[0] == first && mine'[|mine'| - 1] == last
    {
      hide Open, Grew, Growing, Names, Has, IsPath, Appended;
      GrowingIsPath(nodes, mine, spliced, names);
      last, mine', spliced' := tail, mine, spliced;
      var found := Lookup(Some(first), name, mine + spliced);
      if found == None {
        AppendedGrows(nodes, mine, spliced, names, Some(name));
        mine', spliced' := After(nodes, mine, spliced).0, After(nodes, mine, spliced).1;
        last := Append(tail, Some(name));
      } else {
        assert names + iset{name} == names;
      }
    }

    /** Copy every attribute of a parent's list that the list so far lacks. */
    method CopyUnique(first: nat, tail: nat, parent: nat, ghost mine: seq<nat>, ghost spliced: seq<nat>,
                      ghost names: iset<string>,
                      ghost path: seq<nat>)
      returns (last: nat, ghost mine': seq<nat>, ghost spliced': seq<nat>)
      requires Growing(nodes, mine, spliced, names) && first == mine[0] && tail == mine[|mine| - 1]
      requires IsPath(nodes, Some(parent), path) && forall n | n in path :: n !in mine
      modifies this`nodes
      ensures Grew(old(nodes), nodes, mine, mine')
      ensures Growing(nodes, mine', spliced', names + Names(old(nodes), path))
      ensures mine' != [] && mine'[0] == first && mine'[|mine'| - 1] == last
    {
      hide Open, Grew, Growing, Names, Has, IsPath;
      GrowthStarts(nodes, mine, spliced, names, path);
      last, mine', spliced' := tail, mine, spliced;
      PathStart(nodes, parent, path);
      var node := Some(parent);
      ghost var j := 0;
      ghost var all := names;
      while node.Some?
        invariant 0 <= j <= |path| && node == if j < |path| then Some(path[j]) else None
        invariant Grew(old(nodes), nodes, mine, mine')
        invariant Growing(nodes, mine', spliced', all) && all == names + Names(old(nodes), path[..j])
        invariant mine' != [] && mine'[0] == first && mine'[|mine'| - 1] == last
        decreases |path| - j
      {
        PathStep(old(nodes), parent, path, j);
        GrewKeepsNode(old(nodes), nodes, mine, mine', path[j]);
        NamesOneMore(old(nodes), path, j, names);
        var next := nodes[node.value];
        if next.attribute.Some? {
          ghost var pool, longer := nodes, mine';
          last, mine', spliced' := CopyOne(first, last, next.attribute.value, mine', spliced', all);
          GrewOn(old(nodes), pool, nodes, mine, longer, mine');
          all := all + iset{next.attribute.value};
        }
        node := next.next;
        j := j + 1;
      }
      assert path[..j] == path;
    }

    /** A blank node behind the list, and the parent's list behind that. */
    method Splice(tail: nat, parent: nat, ghost mine: seq<nat>, ghost spliced: seq<nat>, ghost names: iset<string>,
                  ghost path: seq<nat>)
      returns (last: nat)
      requires Growing(nodes, mine, spliced, names) && mine != [] && tail == mine[|mine| - 1] && tail < |nodes|
      requires IsPath(nodes, Some(parent), path) && Names(nodes, path) <= names && forall n | n in path :: n !in mine
      modifies this`nodes
      ensures last == |old(nodes)| && Grew(old(nodes), nodes, mine, mine + [last])
      ensures Growing(nodes, mine + [last], path, names)
    {
      hide Open, Growing, Grew, Names, Has, IsPath;
      SplicedGrows(nodes, mine, spliced, names, parent, path);
      last := |nodes|;
      nodes := Extended(nodes, tail, Node(None, None));
      nodes := nodes[last := nodes[last].(next := Some(parent))];
      assert nodes == Extended(old(nodes), tail, Node(None, Some(parent)));
    }

    /** The list of class `id` is under construction. */
    ghost predicate Partial(id: string, mine: seq<nat>, spliced: seq<nat>, names: iset<string>)
      reads this
    {
      && Valid() && id in building && id in attributes && mine != [] && attributes[id] == mine[0]
      && Growing(nodes, mine, spliced, names)
      && (forall n | n in mine :: n !in done) && (forall n | n in spliced :: n in done)
    }

    /** What was there before is untouched, and only new nodes joined final lists. */
    twostate predicate Added()
      reads this
    {
      old(nodes) <= nodes && Grown() && forall n | n in done :: n in old(done) || |old(nodes)| <= n
    }

    /** What a parent's list adds, copied and spliced. */
    method Inherit(first: nat, tail: nat, parent: nat, ghost mine: seq<nat>, ghost spliced: seq<nat>,
                   ghost names: iset<string>,
                   ghost path: seq<nat>, ghost more: iset<string>)
      returns (last: nat, ghost mine': seq<nat>)
      requires Growing(nodes, mine, spliced, names) && first == mine[0] && tail == mine[|mine| - 1]
      requires IsPath(nodes, Some(parent), path) && Names(nodes, path) == more && forall n | n in path :: n !in mine
      modifies this`nodes
      ensures Grew(old(nodes), nodes, mine, mine') && Growing(nodes, mine', path, names + more)
      ensures mine' != [] && mine'[0] == first && mine'[|mine'| - 1] == last
    {
      hide Open, Growing, Grew, Names, Has, IsPath;
      GrowthStarts(nodes, mine, spliced, names, path);
      PathInPool(nodes, parent, path);
      ghost var spliced';
      last, mine', spliced' := CopyUnique(first, tail, parent, mine, spliced, names, path);
      ghost var pool, longer := nodes, mine';
      GrowthStarts(nodes, mine', spliced', names + more, path);
      GrewApart(old(nodes), nodes, mine, mine', parent, path);
      last := Splice(last, parent, mine', spliced', names + more, path);
      mine' := mine' + [last];
      GrewOn(old(nodes), pool, nodes, mine, longer, mine');
    }

    /** One parent: its list first, then what that adds. */
    method AddParent(id: string, parent: string, tail: nat, ghost mine: seq<nat>, ghost spliced: seq<nat>,
                     ghost names: iset<string>)
      returns (last: nat, ghost mine': seq<nat>, ghost spliced': seq<nat>)
      requires Partial(id, mine, spliced, names) && tail == mine[|mine| - 1]
      requires id in classes && parent in classes && parent in classes[id].sup
      requires forall b | b in building :: b in classes && (b == id || rank[id] < rank[b])
      modifies this
      ensures Partial(id, mine', spliced', names + Declared(classes, registered, parent)) && building == old(building)
      ensures last == mine'[|mine'| - 1] && Grew(old(nodes), nodes, mine, mine') && Grown()
      ensures forall n | n in done :: n in old(done) || |old(nodes)| <= n
      decreases rank[id], 0, 0
    {
      hide Open, Growing, Grew, Names, Has, IsPath, Declared, Tables, Listed;
      GrowthStarts(nodes, mine, spliced, names, []);
      var node := Build(parent);
      GrowingIsKept(old(nodes), nodes, mine, spliced, names);
      ghost var pool := nodes;
      spliced' := chains[parent];
      TablesGive(classes, registered, nodes, attributes, chains, done, building, parent);
      last, mine' := Inherit(attributes[id], tail, node, mine, spliced, names, spliced', Declared(classes, registered, parent));
      TablesAreKept(classes, registered, pool, attributes, chains, done, building, nodes, mine, mine');
      GrewBehind(old(nodes), pool, nodes, mine, mine');
      GrewApart(pool, nodes, mine, mine', node, spliced');
      StaysApart(pool, nodes, mine, mine', done);
    }

    /** Every parent in turn; then the list is final. */
    method AddParents(id: string, tail: nat, ghost start: seq<nat>)
      requires id in classes
      requires Partial(id, start, [], NamesUpTo(classes, registered, id, 0)) && tail == start[|start| - 1]
      requires forall b | b in building :: b in classes && (b == id || rank[id] < rank[b])
      modifies this
      ensures Valid() && building == old(building) - {id} && id in chains && id in attributes && Grown()
      ensures |old(nodes)| <= |nodes| && forall n | 0 <= n < |old(nodes)| && n !in start :: nodes[n] == old(nodes)[n]
      ensures forall n | n in done :: n in old(done) || n in start || |old(nodes)| <= n
      decreases rank[id], 0, 1
    {
      hide Open, Growing, Grew, Names, Has, IsPath, Declared, Tables, Listed, NamesUpTo;
      var last := tail;
      ghost var mine, spliced := start, [];
      GrowthStarts(nodes, start, [], NamesUpTo(classes, registered, id, 0), []);
      TablesApart(classes, registered, nodes, attributes, chains, done, building);
      var sup := classes[id].sup;
      var k := 0;
      while k < |sup|
        invariant 0 <= k <= |sup| && building == old(building)
        invariant Partial(id, mine, spliced, NamesUpTo(classes, registered, id, k)) && last == mine[|mine| - 1]
        invariant Grown() && Grew(old(nodes), nodes, start, mine)
        invariant forall n | n in done :: n in old(done) || |old(nodes)| <= n
      {
        OneMoreParent(classes, registered, id, k);
        if sup[k] in classes {
          ghost var pool, shorter := nodes, mine;
          GrewMeans(old(nodes), pool, start, mine);
          last, mine, spliced := AddParent(id, sup[k], last, mine, spliced, NamesUpTo(classes, registered, id, k));
          GrewOn(old(nodes), pool, nodes, start, shorter, mine);
        }
        k := k + 1;
      }
      AllParents(classes, registered, id);
      GrewMeans(old(nodes), nodes, start, mine);
      TablesTake(classes, registered, nodes, attributes, chains, done, building, id, mine, spliced);
      chains, done, building := chains[id := mine + spliced], done + (set n | n in mine), building - {id};
    }

    /** The list of a class.  A class that has its list already keeps it. */
    method Build(id: string) returns (first: nat)
      requires Valid() && id in classes && forall b | b in building :: b in classes && rank[id] < rank[b]
      modifies this
      ensures Valid() && building == old(building)
      ensures id in chains && id in attributes && first == attributes[id] && Added()
      ensures id in old(attributes) ==> nodes == old(nodes) && attributes == old(attributes)
      decreases rank[id], 1
    {
      hide Open, Growing, Grew, Names, Has, IsPath, Declared, Listed, Tables, OwnUpTo;
      TablesApart(classes, registered, nodes, attributes, chains, done, building);
      if id in attributes {
        return attributes[id];
      }
      first := |nodes|;
      NewNode(nodes);
      nodes := nodes + [Node(None, None)];
      attributes, building := attributes[id := first], building + {id};
      ghost var pool := nodes;
      var last: nat;
      ghost var mine: seq<nat>;
      last, mine := AddOwn(first, classes[id].own);
      NoParents(classes, registered, id);
      GrewOn(old(nodes), pool, nodes, [], [first], mine);
      StaysApart(old(nodes), nodes, [], mine, done);
      TablesAreKept(classes, registered, old(nodes), old(attributes), chains, done, old(building), nodes, [], mine);
      TablesBegin(classes, registered, nodes, old(attributes), chains, done, old(building), id, first);
      GrewMeans(old(nodes), nodes, [], mine);
      AddParents(id, last, mine);
    }

    /** Every class, in whatever order the hash table gives them. */
    method BuildAll(order: seq<string>)
      requires Valid() && building == {} && forall id | id in order :: id in classes
      modifies this
      ensures Valid() && building == {} && Added() && forall id | id in order :: id in chains
    {
      hide Tables;
      for i := 0 to |order|
        invariant Valid() && building == {} && Added() && forall j | 0 <= j < i :: order[j] in chains
      {
        var _ := Build(order[i]);
      }
    }

    /** An attribute is found on the list of a class exactly when the class or a
        registered ancestor declares it. */
    method Find(id: string, name: string) returns (found: bool)
      requires Valid() && id in chains
      ensures found <==> Declares(classes, registered, id, name)
    {
      hide Tables, Listed, IsPath;
      TablesGive(classes, registered, nodes, attributes, chains, done, building, id);
      var r := Lookup(Some(attributes[id]), name, chains[id]);
      assert Has(nodes, chains[id], name) <==> name in Names(nodes, chains[id]);
      found := r.Some?;
    }
  }
}
