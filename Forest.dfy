/** The shape of a collection tree held as an arena: nodes keyed by collection id, each
    listing the keys of its children, and a sequence of root keys. Reachability is the
    existence of a path that starts at a root and follows children lists. */
module Forest {
  import opened Records

  predicate NoDups<T(==)>(s: seq<T>)
  {
    forall i, j :: 0 <= i < j < |s| ==> s[i] != s[j]
  }

  /** Dropping the head of a list without repeats, then appending a disjoint list without
      repeats, leaves a list without repeats. */
  lemma NoDupsShiftAppend(a: seq<int>, b: seq<int>)
    requires a != [] && NoDups(a) && NoDups(b)
    requires forall x :: x in b ==> x !in a
    ensures NoDups(a[1..] + b)
  {
    var q := a[1..] + b;
    forall i, j | 0 <= i < j < |q|
      ensures q[i] != q[j]
    {
      if j < |a| - 1 {
        assert q[i] == a[i + 1] && q[j] == a[j + 1];
      } else if i < |a| - 1 {
        assert q[i] in a && q[j] in b;
      } else {
        assert q[i] == b[i - (|a| - 1)] && q[j] == b[j - (|a| - 1)];
      }
    }
  }

  function Last<T>(s: seq<T>): T
    requires |s| >= 1
  {
    s[|s| - 1]
  }

  /** The children lists of the arena, by key. */
  function Kids(nodes: map<int, CollectionNode>): (kids: map<int, seq<int>>)
    ensures kids.Keys == nodes.Keys
  {
    map k | k in nodes :: nodes[k].childrenNodes
  }

  /** What `build` establishes and the rest of the tree relies on: keys are the nodes'
      ids; a listed child is a node whose parent is the listing node (never the `-1`
      sentinel); roots are nodes without a parent; no list repeats a key. */
  ghost predicate WellFormed(nodes: map<int, CollectionNode>, roots: seq<int>)
  {
    && (forall k :: k in nodes ==> nodes[k].collectionID == k)
    && (forall k, c :: k in nodes && c in nodes[k].childrenNodes ==>
          c in nodes && nodes[c].parentCollectionID == k && k != NoParent)
    && (forall k :: k in nodes ==> NoDups(nodes[k].childrenNodes))
    && (forall r :: r in roots ==> r in nodes && nodes[r].parentCollectionID == NoParent)
    && NoDups(roots)
  }

  /** What `build` links: a node lists exactly the nodes whose parent it is (the `-1` sentinel
      lists none), and the roots are exactly the nodes without a parent. */
  ghost predicate Linked(nodes: map<int, CollectionNode>, roots: seq<int>)
  {
    ChildrenLinked(nodes) && RootsLinked(nodes, roots)
  }

  ghost predicate ChildrenLinked(nodes: map<int, CollectionNode>)
  {
    forall k, c :: k in nodes ==>
      (c in nodes[k].childrenNodes <==> c in nodes && nodes[c].parentCollectionID == k && k != NoParent)
  }

  ghost predicate RootsLinked(nodes: map<int, CollectionNode>, roots: seq<int>)
  {
    forall r :: r in roots <==> r in nodes && nodes[r].parentCollectionID == NoParent
  }

  /** Linked lists with keys that are their nodes' ids and no repeats are well formed. */
  lemma LinkedIsWellFormed(nodes: map<int, CollectionNode>, roots: seq<int>)
    requires Linked(nodes, roots)
    requires forall k :: k in nodes ==> nodes[k].collectionID == k && NoDups(nodes[k].childrenNodes)
    requires NoDups(roots)
    ensures WellFormed(nodes, roots)
  {
    forall k, c | k in nodes && c in nodes[k].childrenNodes
      ensures c in nodes && nodes[c].parentCollectionID == k && k != NoParent
    {
    }
  }

  /** `p` starts at a root and each next key is a child of the previous one. */
  ghost predicate IsPath(kids: map<int, seq<int>>, roots: seq<int>, p: seq<int>)
  {
    && |p| >= 1
    && p[0] in roots
    && (forall i :: 0 <= i < |p| - 1 ==> p[i] in kids && p[i + 1] in kids[p[i]])
  }

  ghost predicate Reachable(kids: map<int, seq<int>>, roots: seq<int>, k: int)
  {
    exists p :: IsPath(kids, roots, p) && Last(p) == k
  }

  lemma RootFacts(nodes: map<int, CollectionNode>, roots: seq<int>, r: int)
    requires WellFormed(nodes, roots) && r in roots
    ensures r in nodes && nodes[r].parentCollectionID == NoParent
  {
  }

  lemma ChildFacts(nodes: map<int, CollectionNode>, roots: seq<int>, k: int, c: int)
    requires WellFormed(nodes, roots) && k in Kids(nodes) && c in Kids(nodes)[k]
    ensures k in nodes && c in nodes[k].childrenNodes
    ensures c in nodes && nodes[c].parentCollectionID == k != NoParent
  {
  }

  lemma {:induction false} PathNodes(nodes: map<int, CollectionNode>, roots: seq<int>, p: seq<int>)
    requires WellFormed(nodes, roots) && IsPath(Kids(nodes), roots, p)
    ensures forall i :: 0 <= i < |p| ==> p[i] in nodes
    ensures |p| == 1 ==> nodes[p[0]].parentCollectionID == NoParent
    ensures |p| > 1 ==> nodes[Last(p)].parentCollectionID == p[|p| - 2] != NoParent
  {
    forall i | 0 <= i < |p|
      ensures p[i] in nodes
    {
      if i > 0 {
        assert 0 <= i - 1 < |p| - 1;
        ChildFacts(nodes, roots, p[i - 1], p[i]);
      } else {
        RootFacts(nodes, roots, p[0]);
      }
    }
    if |p| > 1 {
      assert 0 <= |p| - 2 < |p| - 1;
      ChildFacts(nodes, roots, p[|p| - 2], p[|p| - 1]);
    } else {
      RootFacts(nodes, roots, p[0]);
    }
  }

  lemma PathPrefix(kids: map<int, seq<int>>, roots: seq<int>, p: seq<int>, j: nat)
    requires IsPath(kids, roots, p) && 1 <= j <= |p|
    ensures IsPath(kids, roots, p[..j])
  {
  }

  /** A node is reached along exactly one path. */
  lemma {:induction false} PathUnique(nodes: map<int, CollectionNode>, roots: seq<int>, p: seq<int>, q: seq<int>)
    requires WellFormed(nodes, roots)
    requires IsPath(Kids(nodes), roots, p) && IsPath(Kids(nodes), roots, q) && Last(p) == Last(q)
    ensures p == q
    decreases |p|
  {
    PathNodes(nodes, roots, p);
    PathNodes(nodes, roots, q);
    if |p| > 1 && |q| > 1 {
      PathPrefix(Kids(nodes), roots, p, |p| - 1);
      PathPrefix(Kids(nodes), roots, q, |q| - 1);
      PathUnique(nodes, roots, p[..|p| - 1], q[..|q| - 1]);
      assert p == p[..|p| - 1] + [Last(p)];
      assert q == q[..|q| - 1] + [Last(q)];
    }
  }

  lemma ReachableChild(nodes: map<int, CollectionNode>, roots: seq<int>, m: int, c: int)
    requires m in nodes && c in nodes[m].childrenNodes && Reachable(Kids(nodes), roots, m)
    ensures Reachable(Kids(nodes), roots, c)
  {
    var p :| IsPath(Kids(nodes), roots, p) && Last(p) == m;
    assert IsPath(Kids(nodes), roots, p + [c]);
  }

  lemma RootReachable(nodes: map<int, CollectionNode>, roots: seq<int>, r: int)
    requires r in roots
    ensures Reachable(Kids(nodes), roots, r)
  {
    assert IsPath(Kids(nodes), roots, [r]);
  }

  /** A reachable node is a root, or a listed child of its reachable parent. */
  lemma ReachableCases(nodes: map<int, CollectionNode>, roots: seq<int>, k: int)
    requires WellFormed(nodes, roots) && Reachable(Kids(nodes), roots, k)
    ensures k in nodes
    ensures k in roots || (
      var par := nodes[k].parentCollectionID;
      par in nodes && k in nodes[par].childrenNodes && Reachable(Kids(nodes), roots, par))
  {
    var p :| IsPath(Kids(nodes), roots, p) && Last(p) == k;
    PathNodes(nodes, roots, p);
    if |p| > 1 {
      PathPrefix(Kids(nodes), roots, p, |p| - 1);
      assert Last(p[..|p| - 1]) == p[|p| - 2];
    }
  }

  /** A set holding every root and closed under children holds every reachable node:
      this is what a completed breadth-first walk establishes. */
  lemma {:induction false} ClosedSetHoldsReachable(nodes: map<int, CollectionNode>, roots: seq<int>, e: set<int>, p: seq<int>)
    requires forall r :: r in roots ==> r in e
    requires forall m, c :: m in e && m in nodes && c in nodes[m].childrenNodes ==> c in e
    requires IsPath(Kids(nodes), roots, p)
    ensures Last(p) in e
    decreases |p|
  {
    if |p| > 1 {
      PathPrefix(Kids(nodes), roots, p, |p| - 1);
      ClosedSetHoldsReachable(nodes, roots, e, p[..|p| - 1]);
      assert 0 <= |p| - 2 < |p| - 1;
      var m, c := p[|p| - 2], p[|p| - 1];
      assert m in Kids(nodes) && c in Kids(nodes)[m];
      assert m in e && m in nodes && c in nodes[m].childrenNodes;
    } else {
      var r := p[0];
      assert r in roots;
    }
  }

  /** A node is listed by at most one node, and never both as a root and as a child:
      the reachable part is a forest. */
  lemma AtMostOneOwner(nodes: map<int, CollectionNode>, roots: seq<int>, a: int, b: int, c: int)
    requires WellFormed(nodes, roots)
    requires a in nodes && b in nodes && c in nodes[a].childrenNodes
    ensures c in nodes[b].childrenNodes ==> a == b
    ensures c !in roots
  {
  }

  /** A node whose parent id is neither `-1` nor a node is not reachable. */
  lemma DanglingUnreachable(nodes: map<int, CollectionNode>, roots: seq<int>, k: int)
    requires WellFormed(nodes, roots)
    requires k in nodes && nodes[k].parentCollectionID != NoParent && nodes[k].parentCollectionID !in nodes
    ensures !Reachable(Kids(nodes), roots, k)
  {
    if Reachable(Kids(nodes), roots, k) {
      ReachableCases(nodes, roots, k);
    }
  }

  /** `c` is a cycle of real parent links: each entry's parent is the next, the last one's
      parent is the first; a node that is its own parent is a cycle of length one. */
  ghost predicate IsParentCycle(nodes: map<int, CollectionNode>, c: seq<int>)
  {
    && |c| >= 1
    && (forall i :: 0 <= i < |c| ==> c[i] in nodes && nodes[c[i]].parentCollectionID != NoParent)
    && (forall i :: 0 <= i < |c| - 1 ==> nodes[c[i]].parentCollectionID == c[i + 1])
    && nodes[Last(c)].parentCollectionID == c[0]
  }

  lemma {:induction false} WalkUp(nodes: map<int, CollectionNode>, roots: seq<int>, p: seq<int>, c: seq<int>, j: nat)
    requires WellFormed(nodes, roots) && IsParentCycle(nodes, c)
    requires IsPath(Kids(nodes), roots, p) && Last(p) == c[0]
    requires j < |c|
    ensures |p| > j && IsPath(Kids(nodes), roots, p[..|p| - j]) && Last(p[..|p| - j]) == c[j]
  {
    if j > 0 {
      WalkUp(nodes, roots, p, c, j - 1);
      var q := p[..|p| - (j - 1)];
      PathNodes(nodes, roots, q);
      assert |q| > 1;
      PathPrefix(Kids(nodes), roots, q, |q| - 1);
      assert q[..|q| - 1] == p[..|p| - j];
    }
  }

  /** Nodes on a parent cycle, self-parents included, are never reached from the roots. */
  lemma CycleUnreachable(nodes: map<int, CollectionNode>, roots: seq<int>, c: seq<int>)
    requires WellFormed(nodes, roots) && IsParentCycle(nodes, c)
    ensures !Reachable(Kids(nodes), roots, c[0])
  {
    if Reachable(Kids(nodes), roots, c[0]) {
      var p :| IsPath(Kids(nodes), roots, p) && Last(p) == c[0];
      WalkUp(nodes, roots, p, c, |c| - 1);
      var q := p[..|p| - (|c| - 1)];
      PathNodes(nodes, roots, q);
      PathPrefix(Kids(nodes), roots, q, |q| - 1);
      var q' := q[..|q| - 1];
      assert Last(q') == c[0];
      PathUnique(nodes, roots, p, q');
      assert false;
    }
  }

  /** The one path from a root to a reachable node. */
  ghost function PathOf(nodes: map<int, CollectionNode>, roots: seq<int>, k: int): (p: seq<int>)
    requires Reachable(Kids(nodes), roots, k)
    ensures IsPath(Kids(nodes), roots, p) && Last(p) == k
  {
    var p :| IsPath(Kids(nodes), roots, p) && Last(p) == k; p
  }

  /** The collection names along a sequence of keys. */
  function Names(nodes: map<int, CollectionNode>, p: seq<int>): (r: seq<string>)
    requires forall i :: 0 <= i < |p| ==> p[i] in nodes
    ensures |r| == |p|
  {
    seq(|p|, i requires 0 <= i < |p| => nodes[p[i]].collectionName)
  }

  /** The relative output directory of a reachable node: the names from its root down to it. */
  ghost function RelPath(nodes: map<int, CollectionNode>, roots: seq<int>, k: int): Path
    requires WellFormed(nodes, roots) && Reachable(Kids(nodes), roots, k)
  {
    var p := PathOf(nodes, roots, k);
    PathNodes(nodes, roots, p);
    Names(nodes, p)
  }

  /** A root's relative path is its name; a child's is its parent's followed by its name. */
  lemma RelPathStep(nodes: map<int, CollectionNode>, roots: seq<int>, k: int)
    requires WellFormed(nodes, roots) && Reachable(Kids(nodes), roots, k)
    ensures k in nodes
    ensures k in roots ==> RelPath(nodes, roots, k) == [nodes[k].collectionName]
    ensures k !in roots ==>
      var par := nodes[k].parentCollectionID;
      par in nodes && Reachable(Kids(nodes), roots, par) &&
      RelPath(nodes, roots, k) == RelPath(nodes, roots, par) + [nodes[k].collectionName]
  {
    ReachableCases(nodes, roots, k);
    var p := PathOf(nodes, roots, k);
    PathNodes(nodes, roots, p);
    if k in roots {
      assert IsPath(Kids(nodes), roots, [k]);
      PathUnique(nodes, roots, p, [k]);
    } else {
      var par := nodes[k].parentCollectionID;
      var pp := PathOf(nodes, roots, par);
      PathNodes(nodes, roots, pp);
      assert IsPath(Kids(nodes), roots, pp + [k]);
      PathUnique(nodes, roots, p, pp + [k]);
      assert Names(nodes, p) == Names(nodes, pp) + [nodes[k].collectionName];
    }
  }

  /** Every prefix of a reachable node's relative path is the relative path of an ancestor. */
  lemma RelPathPrefix(nodes: map<int, CollectionNode>, roots: seq<int>, k: int, j: nat)
    requires WellFormed(nodes, roots) && Reachable(Kids(nodes), roots, k)
    requires 1 <= j <= |RelPath(nodes, roots, k)|
    ensures exists a :: Reachable(Kids(nodes), roots, a) && RelPath(nodes, roots, a) == RelPath(nodes, roots, k)[..j]
  {
    var p := PathOf(nodes, roots, k);
    PathNodes(nodes, roots, p);
    PathPrefix(Kids(nodes), roots, p, j);
    var a := Last(p[..j]);
    var pa := PathOf(nodes, roots, a);
    PathUnique(nodes, roots, pa, p[..j]);
    assert Names(nodes, p[..j]) == Names(nodes, p)[..j];
  }

  // ---------------------------------------------------------------------------
  // The breadth-first walks of `find`, `remove` and `write_pdfs`.

  /** The state of a breadth-first walk from the roots: `queue` holds reachable nodes not yet
      popped, without repeats; every root and every child of a popped node has been queued;
      every queued or popped node is a root or has a popped parent. */
  ghost predicate BfsInv(nodes: map<int, CollectionNode>, roots: seq<int>, queue: seq<int>, popped: set<int>)
  {
    && WellFormed(nodes, roots)
    && (forall x :: x in queue ==> x in nodes && Reachable(Kids(nodes), roots, x) && x !in popped)
    && NoDups(queue)
    && (forall x :: x in popped ==> x in nodes && Reachable(Kids(nodes), roots, x))
    && (forall r :: r in roots ==> r in popped || r in queue)
    && (forall m, c :: m in popped && c in nodes[m].childrenNodes ==> c in popped || c in queue)
    && (forall x :: x in popped || x in queue ==> x in roots || nodes[x].parentCollectionID in popped)
  }

  lemma BfsStart(nodes: map<int, CollectionNode>, roots: seq<int>)
    requires WellFormed(nodes, roots)
    ensures BfsInv(nodes, roots, roots, {})
  {
    forall x | x in roots
      ensures x in nodes && Reachable(Kids(nodes), roots, x)
    {
      RootFacts(nodes, roots, x);
      RootReachable(nodes, roots, x);
    }
  }

  /** A node whose parent is queued is neither popped nor queued itself. */
  lemma ChildUnseen(nodes: map<int, CollectionNode>, roots: seq<int>, queue: seq<int>, popped: set<int>, n: int, c: int)
    requires BfsInv(nodes, roots, queue, popped)
    requires n in queue && c in nodes && nodes[c].parentCollectionID == n != NoParent
    ensures c !in popped && c !in queue
  {
    if c in popped || c in queue {
      if c in roots {
        RootFacts(nodes, roots, c);
      }
      assert false;
    }
  }

  /** The children of the head of the queue are tree nodes that are neither popped nor queued. */
  lemma FreshKids(nodes: map<int, CollectionNode>, roots: seq<int>, queue: seq<int>, popped: set<int>)
    requires BfsInv(nodes, roots, queue, popped) && queue != []
    ensures queue[0] in nodes
    ensures forall c :: c in nodes[queue[0]].childrenNodes ==>
      && c in nodes && Reachable(Kids(nodes), roots, c) && c !in popped && c != queue[0] && c !in queue
      && nodes[c].parentCollectionID == queue[0]
  {
    var n := queue[0];
    assert n in queue;
    forall c | c in nodes[n].childrenNodes
      ensures c in nodes && Reachable(Kids(nodes), roots, c) && c !in popped && c != n && c !in queue
      ensures nodes[c].parentCollectionID == n
    {
      ChildFacts(nodes, roots, n, c);
      ReachableChild(nodes, roots, n, c);
      ChildUnseen(nodes, roots, queue, popped, n, c);
    }
  }

  /** Popping the head and queueing its children keeps the invariant and pops a new node. */
  lemma BfsStep(nodes: map<int, CollectionNode>, roots: seq<int>, queue: seq<int>, popped: set<int>)
    requires BfsInv(nodes, roots, queue, popped) && queue != []
    ensures queue[0] in nodes && queue[0] !in popped
    ensures BfsInv(nodes, roots, queue[1..] + nodes[queue[0]].childrenNodes, popped + {queue[0]})
    ensures |nodes.Keys - (popped + {queue[0]})| < |nodes.Keys - popped|
  {
    var n := queue[0];
    var kids := nodes[n].childrenNodes;
    var q' := queue[1..] + kids;
    var p' := popped + {n};
    assert n in queue;
    FreshKids(nodes, roots, queue, popped);
    NoDupsShiftAppend(queue, kids);
    forall m, c | m in p' && c in nodes[m].childrenNodes
      ensures c in p' || c in q'
    {
      if m == n {
        assert c in kids;
      }
    }
    PopShrinks(nodes.Keys, popped, n);
  }

  /** Popping a key not popped before leaves fewer keys to pop. */
  lemma PopShrinks(keys: set<int>, popped: set<int>, n: int)
    requires n in keys && n !in popped
    ensures |keys - (popped + {n})| < |keys - popped|
  {
    assert keys - popped == (keys - (popped + {n})) + {n};
  }

  /** When the queue is empty, every reachable node has been popped. */
  lemma BfsDone(nodes: map<int, CollectionNode>, roots: seq<int>, popped: set<int>, k: int)
    requires BfsInv(nodes, roots, [], popped) && Reachable(Kids(nodes), roots, k)
    ensures k in popped
  {
    var p :| IsPath(Kids(nodes), roots, p) && Last(p) == k;
    ClosedSetHoldsReachable(nodes, roots, popped, p);
  }

  // ---------------------------------------------------------------------------
  // Erasing the first occurrence of a key from a list.

  function Erased(s: seq<int>, x: int): (r: seq<int>)
    ensures x !in s ==> r == s
    ensures x in s ==> |r| == |s| - 1
    ensures forall y :: y in r ==> y in s
  {
    if s == [] then []
    else if s[0] == x then s[1..]
    else [s[0]] + Erased(s[1..], x)
  }

  /** Erasing the first occurrence at index `i` keeps the other elements in order. */
  lemma {:induction false} ErasedAt(s: seq<int>, x: int, i: nat)
    requires i < |s| && s[i] == x && x !in s[..i]
    ensures Erased(s, x) == s[..i] + s[i + 1..]
  {
    if i > 0 {
      var t := s[1..];
      assert t[..i - 1] == s[1..i];
      assert s[0] != x by { assert s[0] == s[..i][0]; }
      ErasedAt(t, x, i - 1);
      calc {
        Erased(s, x);
        [s[0]] + Erased(t, x);
        [s[0]] + (t[..i - 1] + t[i..]);
        { assert t[i..] == s[i + 1..]; }
        [s[0]] + s[1..i] + s[i + 1..];
        { assert [s[0]] + s[1..i] == s[..i]; }
        s[..i] + s[i + 1..];
      }
    }
  }

  /** On a list without repeats, erasing removes exactly that key and keeps no repeats. */
  lemma {:induction false} ErasedNoDups(s: seq<int>, x: int)
    requires NoDups(s)
    ensures NoDups(Erased(s, x))
    ensures forall y :: y in Erased(s, x) <==> y in s && y != x
  {
    if s != [] {
      ErasedNoDups(s[1..], x);
      if s[0] != x {
        var t := Erased(s[1..], x);
        assert [s[0]] + t == Erased(s, x);
        assert s[0] !in s[1..];
      } else {
        assert x !in s[1..];
      }
    }
  }

  /** A well-formed arena stays well formed with any repeat-free selection of its roots. */
  lemma FewerRoots(nodes: map<int, CollectionNode>, roots: seq<int>, roots': seq<int>)
    requires WellFormed(nodes, roots) && NoDups(roots') && forall r :: r in roots' ==> r in roots
    ensures WellFormed(nodes, roots')
  {
    forall r | r in roots'
      ensures r in nodes && nodes[r].parentCollectionID == NoParent
    {
      RootFacts(nodes, roots, r);
    }
  }

  /** Erasing a root from the root list keeps the forest well formed and drops that root. */
  lemma EraseRoot(nodes: map<int, CollectionNode>, roots: seq<int>, id: int)
    requires WellFormed(nodes, roots) && id in roots
    ensures WellFormed(nodes, Erased(roots, id))
    ensures !Reachable(Kids(nodes), Erased(roots, id), id)
  {
    var roots' := Erased(roots, id);
    ErasedNoDups(roots, id);
    FewerRoots(nodes, roots, roots');
    RootFacts(nodes, roots, id);
    if Reachable(Kids(nodes), roots', id) {
      ReachableCases(nodes, roots', id);
      assert false;
    }
  }

  /** Erasing a listed child from its parent keeps the forest well formed and cuts that child off. */
  lemma EraseChild(nodes: map<int, CollectionNode>, roots: seq<int>, n: int, id: int)
    requires WellFormed(nodes, roots) && n in nodes && id in nodes[n].childrenNodes
    ensures var nodes' := nodes[n := nodes[n].(childrenNodes := Erased(nodes[n].childrenNodes, id))];
      WellFormed(nodes', roots) && !Reachable(Kids(nodes'), roots, id)
  {
    var nodes' := nodes[n := nodes[n].(childrenNodes := Erased(nodes[n].childrenNodes, id))];
    ErasedNoDups(nodes[n].childrenNodes, id);
    forall k, c | k in nodes' && c in nodes'[k].childrenNodes
      ensures c in nodes' && nodes'[c].parentCollectionID == k && k != NoParent
    {
      if k == n {
        assert nodes'[k].childrenNodes == Erased(nodes[n].childrenNodes, id);
      } else {
        assert nodes'[k] == nodes[k];
      }
      assert c in nodes[k].childrenNodes;
      ChildFacts(nodes, roots, k, c);
      assert nodes'[c].parentCollectionID == nodes[c].parentCollectionID;
    }
    assert WellFormed(nodes', roots);
    assert nodes[id].parentCollectionID == n;
    if Reachable(Kids(nodes'), roots, id) {
      ReachableCases(nodes', roots, id);
      if id in roots {
        RootFacts(nodes, roots, id);
      }
      assert false;
    }
  }

  /** Two arenas with the same keys whose nodes agree on everything but their files. */
  ghost predicate SameShape(nodes: map<int, CollectionNode>, nodes': map<int, CollectionNode>)
  {
    && nodes'.Keys == nodes.Keys
    && forall k :: k in nodes ==>
         nodes'[k] == nodes[k].(collectionPDFItems := nodes'[k].collectionPDFItems)
  }

  lemma SameShapeTrans(a: map<int, CollectionNode>, b: map<int, CollectionNode>, c: map<int, CollectionNode>)
    requires SameShape(a, b) && SameShape(b, c)
    ensures SameShape(a, c)
  {
  }

  /** Changing only the files of nodes keeps the forest well formed and its children lists,
      hence which nodes are reachable. */
  lemma ShapeKeepsTree(nodes: map<int, CollectionNode>, nodes': map<int, CollectionNode>, roots: seq<int>)
    requires WellFormed(nodes, roots) && SameShape(nodes, nodes')
    ensures WellFormed(nodes', roots)
    ensures Kids(nodes') == Kids(nodes)
  {
    forall k | k in nodes'
      ensures nodes'[k].collectionID == k && NoDups(nodes'[k].childrenNodes)
      ensures forall c :: c in nodes'[k].childrenNodes ==> c in nodes' && nodes'[c].parentCollectionID == k && k != NoParent
    {
      var n, n' := nodes[k], nodes'[k];
      assert n'.collectionID == n.collectionID && n'.childrenNodes == n.childrenNodes;
      forall c | c in n'.childrenNodes
        ensures c in nodes' && nodes'[c].parentCollectionID == k && k != NoParent
      {
        assert c in n.childrenNodes;
        assert nodes'[c].parentCollectionID == nodes[c].parentCollectionID;
      }
    }
    forall r | r in roots
      ensures r in nodes' && nodes'[r].parentCollectionID == NoParent
    {
      RootFacts(nodes, roots, r);
      assert nodes'[r].parentCollectionID == nodes[r].parentCollectionID;
    }
    SameKids(nodes, nodes');
  }

  lemma SameKids(nodes: map<int, CollectionNode>, nodes': map<int, CollectionNode>)
    requires SameShape(nodes, nodes')
    ensures Kids(nodes') == Kids(nodes)
  {
    var a, b := Kids(nodes'), Kids(nodes);
    forall k | k in b
      ensures a[k] == b[k]
    {
      assert nodes'[k].childrenNodes == nodes[k].childrenNodes;
    }
  }

  /** The links `build` establishes survive a change of files alone. */
  lemma ShapeKeepsLinks(nodes: map<int, CollectionNode>, nodes': map<int, CollectionNode>, roots: seq<int>)
    requires SameShape(nodes, nodes') && Linked(nodes, roots)
    ensures Linked(nodes', roots)
  {
    forall k, c | k in nodes'
      ensures c in nodes'[k].childrenNodes <==> c in nodes' && nodes'[c].parentCollectionID == k && k != NoParent
    {
      assert nodes'[k].childrenNodes == nodes[k].childrenNodes;
      if c in nodes' {
        assert nodes'[c].parentCollectionID == nodes[c].parentCollectionID;
      }
    }
  }
}
