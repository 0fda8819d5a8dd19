/** The collection tree: an arena of collection nodes keyed by collection id, the ordered
    list of root keys, and the breadth-first walks that search, prune and write it. */
module Tree {
  import opened Records
  import opened Forest
  import opened OutputFs

  /** `m` is `collectionNodes` with the children lists that linking every node outside
      `todo` produces: same keys and payloads, duplicate-free lists, and `c` is listed
      under `k` exactly when `c` is done and has `k` as its (real) parent. */
  ghost predicate LinkedExcept(collectionNodes: map<int, CollectionNode>, m: map<int, CollectionNode>, todo: set<int>)
  {
    && todo <= m.Keys == collectionNodes.Keys
    && (forall k :: k in m ==> m[k] == collectionNodes[k].(childrenNodes := m[k].childrenNodes))
    && (forall k :: k in m ==> NoDups(m[k].childrenNodes))
    && (forall k, c :: k in m ==>
         (c in m[k].childrenNodes <==> c in m && c !in todo && m[c].parentCollectionID == k && k != NoParent))
  }

  /** Linking one more node to its parent, when it has one among the nodes, keeps `LinkedExcept`. */
  lemma LinkStep(collectionNodes: map<int, CollectionNode>, m: map<int, CollectionNode>, todo: set<int>, id: int,
                 m': map<int, CollectionNode>)
    requires LinkedExcept(collectionNodes, m, todo) && id in todo
    requires var parent := m[id].parentCollectionID;
      m' == if parent != NoParent && parent in m then m[parent := m[parent].(childrenNodes := m[parent].childrenNodes + [id])] else m
    ensures LinkedExcept(collectionNodes, m', todo - {id})
  {
    var parent := m[id].parentCollectionID;
    if parent != NoParent && parent in m {
      assert id !in m[parent].childrenNodes;
      forall k | k in m'
        ensures m'[k] == collectionNodes[k].(childrenNodes := m'[k].childrenNodes)
        ensures NoDups(m'[k].childrenNodes)
      {
      }
    }
  }

  /** The first loop of `build`: every node is appended to its parent's children when it has a
      parent and that parent is among the nodes. */
  method LinkChildren(collectionNodes: map<int, CollectionNode>) returns (m: map<int, CollectionNode>)
    requires forall k :: k in collectionNodes ==> collectionNodes[k].childrenNodes == []
    ensures m.Keys == collectionNodes.Keys
    ensures forall k :: k in m ==> m[k] == collectionNodes[k].(childrenNodes := m[k].childrenNodes)
    ensures forall k :: k in m ==> NoDups(m[k].childrenNodes)
    ensures ChildrenLinked(m)
  {
    m := collectionNodes;
    var todo := m.Keys;
    while todo != {}
      invariant LinkedExcept(collectionNodes, m, todo)
      decreases todo
    {
      HasMember(todo);
      var id :| id in todo;
      var parent := m[id].parentCollectionID;
      ghost var m0 := m;
      if parent != NoParent && parent in m {
        m := m[parent := m[parent].(childrenNodes := m[parent].childrenNodes + [id])];
      }
      LinkStep(collectionNodes, m0, todo, id, m);
      todo := todo - {id};
    }
  }

  /** The second loop of `build`: the keys of the parentless nodes, each once. */
  method CollectRoots(m: map<int, CollectionNode>) returns (rs: seq<int>)
    ensures NoDups(rs)
    ensures RootsLinked(m, rs)
  {
    rs := [];
    var todo := m.Keys;
    while todo != {}
      invariant todo <= m.Keys
      invariant NoDups(rs)
      invariant forall r :: r in rs <==> r in m && r !in todo && m[r].parentCollectionID == NoParent
      decreases todo
    {
      HasMember(todo);
      var id :| id in todo;
      if m[id].parentCollectionID == NoParent {
        rs := rs + [id];
      }
      todo := todo - {id};
    }
  }

  /** Going from (`dirs0`, `files0`) to (`dirs`, `files`) created directory `dir` with its
      ancestors and put a file at `dir` + name for each item; every other file kept its
      contents, and without overwriting so did every file that was there before. */
  ghost predicate CopiedNode(dir: Path, items: seq<CollectionPDFItem>, overwrite: bool,
                             dirs0: set<Path>, files0: map<Path, Path>, dirs: set<Path>, files: map<Path, Path>)
  {
    && dirs == dirs0 + Prefixes(dir)
    && (forall j :: 0 <= j < |items| ==> dir + [items[j].pdfName] in files)
    && files0.Keys <= files.Keys
    && (forall f :: f in files ==>
         || (f in files0 && files[f] == files0[f])
         || exists j :: 0 <= j < |items| && f == dir + [items[j].pdfName] && files[f] == items[j].pdfFilePath)
    && (!overwrite ==> forall f :: f in files0 ==> files[f] == files0[f])
  }

  /** After the first `i` files of `items` were handled, starting from `files0`: each has a file
      at its destination, every file is as before or one of theirs, and without overwriting
      the old files are untouched. */
  ghost predicate CopiedSoFar(dir: Path, items: seq<CollectionPDFItem>, overwrite: bool, files0: map<Path, Path>,
                              i: nat, files: map<Path, Path>)
  {
    && i <= |items|
    && (forall j :: 0 <= j < i ==> dir + [items[j].pdfName] in files)
    && files0.Keys <= files.Keys
    && (forall f :: f in files ==>
         || (f in files0 && files[f] == files0[f])
         || exists j :: 0 <= j < i && f == dir + [items[j].pdfName] && files[f] == items[j].pdfFilePath)
    && (!overwrite ==> forall f :: f in files0 ==> files[f] == files0[f])
  }

  /** Skipping file `i` because its destination exists and overwriting is off, or else copying
      it, keeps `CopiedSoFar`. */
  lemma CopyStep(dir: Path, items: seq<CollectionPDFItem>, overwrite: bool, files0: map<Path, Path>,
                 i: nat, files: map<Path, Path>, files': map<Path, Path>)
    requires CopiedSoFar(dir, items, overwrite, files0, i, files) && i < |items|
    requires var dst := dir + [items[i].pdfName];
      files' == if dst in files && !overwrite then files else files[dst := items[i].pdfFilePath]
    ensures CopiedSoFar(dir, items, overwrite, files0, i + 1, files')
  {
    var dst := dir + [items[i].pdfName];
    forall f | f in files'
      ensures || (f in files0 && files'[f] == files0[f])
              || exists j :: 0 <= j < i + 1 && f == dir + [items[j].pdfName] && files'[f] == items[j].pdfFilePath
    {
      if f == dst && files'[f] == items[i].pdfFilePath {
      } else {
        assert f in files && files'[f] == files[f];
      }
    }
  }

  /** The copies one node asks for, in the order of its files: each file's source to the
      directory plus the file's name. */
  function NodeJobs(dir: Path, items: seq<CollectionPDFItem>): (r: seq<CopyJob>)
    ensures |r| == |items|
    ensures forall j :: 0 <= j < |items| ==> r[j] == (dir + [items[j].pdfName], items[j].pdfFilePath)
  {
    seq(|items|, j requires 0 <= j < |items| => (dir + [items[j].pdfName], items[j].pdfFilePath))
  }

  /** Skipping or copying file `i` is the next step of the run of the node's jobs. */
  lemma NodeJobsStep(dir: Path, items: seq<CollectionPDFItem>, overwrite: bool, files0: map<Path, Path>, i: nat,
                     files: map<Path, Path>, written: nat, skipped: nat,
                     files': map<Path, Path>, written': nat, skipped': nat)
    requires i < |items|
    requires CopyOutcome(files, written, skipped) == Copies(CopyOutcome(files0, 0, 0), NodeJobs(dir, items[..i]), overwrite)
    requires var dst := dir + [items[i].pdfName];
      if dst in files && !overwrite then files' == files && written' == written && skipped' == skipped + 1
      else files' == files[dst := items[i].pdfFilePath] && written' == written + 1 && skipped' == skipped
    ensures CopyOutcome(files', written', skipped') == Copies(CopyOutcome(files0, 0, 0), NodeJobs(dir, items[..i + 1]), overwrite)
  {
    assert NodeJobs(dir, items[..i + 1])[..i] == NodeJobs(dir, items[..i]);
  }

  /** The body of the `write_pdfs` walk for one node: create the node's directory, then copy
      each of its files into it. A destination that exists is skipped unless overwriting is
      asked for; every file is either written or skipped. */
  method WriteNodeItems(fs: FileSystem, dir: Path, items: seq<CollectionPDFItem>, overwrite: bool)
    returns (written: nat, skipped: nat)
    modifies fs
    ensures CopiedNode(dir, items, overwrite, old(fs.dirs), old(fs.files), fs.dirs, fs.files)
    ensures written + skipped == |items|
    ensures overwrite ==> skipped == 0
    ensures !overwrite && (forall j :: 0 <= j < |items| ==> dir + [items[j].pdfName] in old(fs.files)) ==> written == 0
    ensures CopyOutcome(fs.files, written, skipped) == Copies(CopyOutcome(old(fs.files), 0, 0), NodeJobs(dir, items), overwrite)
  {
    ghost var allPresent := !overwrite && forall j :: 0 <= j < |items| ==> dir + [items[j].pdfName] in fs.files;
    fs.CreateDirectories(dir);
    written, skipped := 0, 0;
    for i := 0 to |items|
      invariant fs.dirs == old(fs.dirs) + Prefixes(dir)
      invariant CopiedSoFar(dir, items, overwrite, old(fs.files), i, fs.files)
      invariant CopyOutcome(fs.files, written, skipped) == Copies(CopyOutcome(old(fs.files), 0, 0), NodeJobs(dir, items[..i]), overwrite)
    {
      ghost var files, written0, skipped0 := fs.files, written, skipped;
      var dst := dir + [items[i].pdfName];
      var present := fs.FileExists(dst);
      if present && !overwrite {
        skipped := skipped + 1;
      } else {
        fs.Copy(items[i].pdfFilePath, dst);
        written := written + 1;
      }
      CopyStep(dir, items, overwrite, old(fs.files), i, files, fs.files);
      NodeJobsStep(dir, items, overwrite, old(fs.files), i, files, written0, skipped0, fs.files, written, skipped);
    }
    assert items[..|items|] == items;
    if allPresent {
      CopiesSkipped(CopyOutcome(old(fs.files), 0, 0), NodeJobs(dir, items));
      PreexistingAll(old(fs.files), NodeJobs(dir, items));
    }
  }

  /** The keys of a queue of (node, relative path) pairs. */
  function QueueKeys(queue: seq<(int, Path)>): (r: seq<int>)
    ensures |r| == |queue| && forall i :: 0 <= i < |queue| ==> r[i] == queue[i].0
  {
    seq(|queue|, i requires 0 <= i < |queue| => queue[i].0)
  }

  lemma QueueKeysAppend(a: seq<(int, Path)>, b: seq<(int, Path)>)
    ensures QueueKeys(a + b) == QueueKeys(a) + QueueKeys(b)
  {
  }

  /** `visited` lists the keys of `done`, each once, all of them nodes. */
  ghost predicate Enumerates(nodes: map<int, CollectionNode>, visited: seq<int>, done: set<int>)
  {
    && NoDups(visited)
    && (forall k :: k in visited <==> k in done)
    && (forall i :: 0 <= i < |visited| ==> visited[i] in nodes)
  }

  /** Visiting one more node extends the enumeration and adds that node's files to the count. */
  lemma VisitStep(nodes: map<int, CollectionNode>, visited: seq<int>, done: set<int>, n: int)
    requires Enumerates(nodes, visited, done) && n in nodes && n !in done
    ensures Enumerates(nodes, visited + [n], done + {n})
    ensures ItemCount(nodes, visited + [n]) == ItemCount(nodes, visited) + |nodes[n].collectionPDFItems|
  {
    assert (visited + [n])[..|visited|] == visited;
  }

  /** The number of files bound to the listed nodes. */
  ghost function ItemCount(nodes: map<int, CollectionNode>, ks: seq<int>): nat
    requires forall i :: 0 <= i < |ks| ==> ks[i] in nodes
  {
    if ks == [] then 0 else ItemCount(nodes, ks[..|ks| - 1]) + |nodes[Last(ks)].collectionPDFItems|
  }

  class CollectionTree {
    /** Every node handed to `build`, by collection id; children are referred to by key. */
    var nodes: map<int, CollectionNode>
    /** The top-level nodes, in the order the tree lists them. */
    var roots: seq<int>

    ghost predicate Valid()
      reads this
    {
      WellFormed(nodes, roots)
    }

    /** The node with key `k` is in the tree, i.e. a walk from the roots meets it. */
    ghost predicate InTree(k: int)
      reads this
    {
      Reachable(Kids(nodes), roots, k)
    }

    /** `build`: link each node under its parent when the parent is among the nodes, then
        list the parentless nodes as roots. The map is unordered, so every visiting order is
        allowed; the resulting sets of children and of roots do not depend on it. */
    constructor Build(collectionNodes: map<int, CollectionNode>)
      requires forall k :: k in collectionNodes ==>
        collectionNodes[k].collectionID == k && collectionNodes[k].childrenNodes == []
      ensures Valid()
      ensures nodes.Keys == collectionNodes.Keys
      ensures forall k :: k in nodes ==>
        nodes[k] == collectionNodes[k].(childrenNodes := nodes[k].childrenNodes)
      ensures Linked(nodes, roots)
    {
      var m := LinkChildren(collectionNodes);
      var rs := CollectRoots(m);
      forall k | k in m
        ensures m[k].collectionID == k
      {
        assert m[k].collectionID == collectionNodes[k].collectionID;
      }
      LinkedIsWellFormed(m, rs);
      nodes := m;
      roots := rs;
    }

    /** `find`: a breadth-first walk from the roots; the node is found exactly when it is in
        the tree, and then it is the node with that id. */
    method Find(id: int) returns (r: Option<int>)
      requires Valid()
      ensures r == (if id in nodes && InTree(id) then Some(id) else None)
      ensures r.Some? ==> r.value in nodes && nodes[r.value].collectionID == id
    {
      var queue := roots;
      ghost var popped: set<int> := {};
      BfsStart(nodes, roots);
      while queue != []
        invariant BfsInv(nodes, roots, queue, popped)
        invariant forall x :: x in popped ==> x != id
        decreases |nodes.Keys - popped|
      {
        BfsStep(nodes, roots, queue, popped);
        var n := queue[0];
        if nodes[n].collectionID == id {
          return Some(n);
        }
        queue := queue[1..] + nodes[n].childrenNodes;
        popped := popped + {n};
      }
      if id in nodes && InTree(id) {
        BfsDone(nodes, roots, popped, id);
      }
      return None;
    }

    /** `erase_collection_node`: erase the first listed node whose id is `id`, reporting
        whether there was one. In a valid tree the ids are the keys, so this erases `id`. */
    method EraseCollectionNode(list: seq<int>, id: int) returns (found: bool, rest: seq<int>)
      requires forall i :: 0 <= i < |list| ==> list[i] in nodes
      ensures found <==> exists i :: 0 <= i < |list| && nodes[list[i]].collectionID == id
      ensures !found ==> rest == list
      ensures found ==> exists i ::
        && 0 <= i < |list| && nodes[list[i]].collectionID == id
        && (forall j :: 0 <= j < i ==> nodes[list[j]].collectionID != id)
        && rest == list[..i] + list[i + 1..]
      ensures Valid() ==> (found <==> id in list) && rest == Erased(list, id)
    {
      var i := 0;
      while i < |list|
        invariant 0 <= i <= |list|
        invariant forall j :: 0 <= j < i ==> nodes[list[j]].collectionID != id
      {
        if nodes[list[i]].collectionID == id {
          if Valid() {
            assert id !in list[..i];
            ErasedAt(list, id, i);
          }
          return true, list[..i] + list[i + 1..];
        }
        i := i + 1;
      }
      return false, list;
    }

    /** `remove`: erase the node from the roots, or else from the children of the first node a
        breadth-first walk meets that lists it. It succeeds exactly when the node is in the
        tree; afterwards the node is no longer in the tree and nothing else has changed. */
    method Remove(id: int) returns (removed: bool)
      requires Valid()
      modifies this
      ensures Valid()
      ensures removed <==> old(InTree(id))
      ensures removed ==> id in old(nodes)
      ensures !InTree(id)
      ensures !removed ==> nodes == old(nodes) && roots == old(roots)
      ensures removed && id in old(roots) ==> nodes == old(nodes) && roots == Erased(old(roots), id)
      ensures removed && id !in old(roots) ==>
        && roots == old(roots)
        && var par := old(nodes)[id].parentCollectionID;
        && par in old(nodes)
        && nodes == old(nodes)[par := old(nodes)[par].(childrenNodes := Erased(old(nodes)[par].childrenNodes, id))]
    {
      forall i | 0 <= i < |roots| {
        RootFacts(nodes, roots, roots[i]);
      }
      var found, rest := EraseCollectionNode(roots, id);
      if found {
        RootReachable(nodes, roots, id);
        RootFacts(nodes, roots, id);
        EraseRoot(nodes, roots, id);
        roots := rest;
        return true;
      }
      removed := EraseFromChildren(id);
    }

    /** The walk of `remove` once the node is not a root: erase it from the children of the
        first node met that lists it. */
    method EraseFromChildren(id: int) returns (removed: bool)
      requires Valid() && id !in roots
      modifies this
      ensures Valid()
      ensures removed <==> old(InTree(id))
      ensures !InTree(id)
      ensures roots == old(roots)
      ensures !removed ==> nodes == old(nodes)
      ensures removed ==>
        && id in old(nodes)
        && var par := old(nodes)[id].parentCollectionID;
        && par in old(nodes)
        && nodes == old(nodes)[par := old(nodes)[par].(childrenNodes := Erased(old(nodes)[par].childrenNodes, id))]
    {
      var found, n, rest := FindListing(id);
      if found {
        ChildFacts(nodes, roots, n, id);
        EraseChild(nodes, roots, n, id);
        nodes := nodes[n := nodes[n].(childrenNodes := rest)];
      }
      return found;
    }

    /** The walk of `remove` below the roots: the first node a breadth-first walk meets whose
        children list `id`, and that list with `id` erased. There is one exactly when the node
        is in the tree. */
    method FindListing(id: int) returns (found: bool, n: int, rest: seq<int>)
      requires Valid() && id !in roots
      ensures found <==> InTree(id)
      ensures found ==> n in nodes && id in nodes[n].childrenNodes && rest == Erased(nodes[n].childrenNodes, id)
    {
      var queue := roots;
      ghost var popped: set<int> := {};
      BfsStart(nodes, roots);
      while queue != []
        invariant BfsInv(nodes, roots, queue, popped)
        invariant forall x :: x in popped ==> id !in nodes[x].childrenNodes
        decreases |nodes.Keys - popped|
      {
        BfsStep(nodes, roots, queue, popped);
        n := queue[0];
        queue := queue[1..];
        var kids := nodes[n].childrenNodes;
        forall i | 0 <= i < |kids| {
          ChildFacts(nodes, roots, n, kids[i]);
        }
        found, rest := EraseCollectionNode(kids, id);
        if found {
          ReachableChild(nodes, roots, n, id);
          return;
        }
        queue := queue + kids;
        popped := popped + {n};
      }
      if InTree(id) {
        ReachableCases(nodes, roots, id);
        BfsDone(nodes, roots, popped, nodes[id].parentCollectionID);
        assert false;
      }
      return false, 0, [];
    }

    /** `write_pdfs`: walk the tree breadth first carrying each node's path relative to the
        output directory (a root's name, then the parent's path and the child's name), create
        that directory and copy the node's files into it. Afterwards every node has its
        directory and every file its destination; only tree directories and copies of the
        tree's files were added; existing files survive unless overwriting is asked for. The
        counts add up to the number of files of the visited nodes, which are exactly the nodes
        of the tree, each once. */
    method WritePdfs(fs: FileSystem, outputDir: Path, overwriteExistingFiles: bool)
      returns (written: nat, skipped: nat, ghost visited: seq<int>)
      requires Valid()
      modifies fs
      ensures NoDups(visited) && forall k :: k in visited <==> k in nodes && InTree(k)
      ensures forall i :: 0 <= i < |visited| ==> visited[i] in nodes && Reachable(Kids(nodes), roots, visited[i])
      ensures written + skipped == ItemCount(nodes, visited)
      ensures overwriteExistingFiles ==> skipped == 0
      ensures !overwriteExistingFiles && AllDestinationsIn(nodes, roots, outputDir, old(fs.files)) ==> written == 0
      ensures forall k :: k in nodes && InTree(k) ==> outputDir + RelPath(nodes, roots, k) in fs.dirs
      ensures AllDestinationsIn(nodes, roots, outputDir, fs.files)
      ensures forall d :: d in fs.dirs ==> d in old(fs.dirs) || TreeDir(nodes, roots, outputDir, d)
      ensures old(fs.files).Keys <= fs.files.Keys
      ensures forall f :: f in fs.files ==>
        (f in old(fs.files) && fs.files[f] == old(fs.files)[f]) || CopiedTo(nodes, roots, outputDir, f, fs.files[f])
      ensures !overwriteExistingFiles ==> forall f :: f in old(fs.files) ==> fs.files[f] == old(fs.files)[f]
      ensures CopyOutcome(fs.files, written, skipped)
        == Copies(CopyOutcome(old(fs.files), 0, 0), WalkJobs(nodes, roots, outputDir, visited), overwriteExistingFiles)
      ensures overwriteExistingFiles ==> fs.files == old(fs.files) + LaterWins(WalkJobs(nodes, roots, outputDir, visited))
      ensures !overwriteExistingFiles ==> fs.files == EarlierWins(WalkJobs(nodes, roots, outputDir, visited)) + old(fs.files)
      ensures !overwriteExistingFiles ==> skipped == Preexisting(old(fs.files), WalkJobs(nodes, roots, outputDir, visited))
    {
      written, skipped, visited := WriteForest(fs, nodes, roots, outputDir, overwriteExistingFiles);
    }
  }

  // ---------------------------------------------------------------------------
  // The walk of `write_pdfs`, over the tree's arena.

  /** Where file `j` of node `k` is copied to: the output directory, the node's relative path,
      the file's name. */
  ghost function Destination(nodes: map<int, CollectionNode>, roots: seq<int>, outputDir: Path, k: int, j: int): Path
    requires WellFormed(nodes, roots) && k in nodes && Reachable(Kids(nodes), roots, k)
    requires 0 <= j < |nodes[k].collectionPDFItems|
  {
    outputDir + RelPath(nodes, roots, k) + [nodes[k].collectionPDFItems[j].pdfName]
  }

  /** `f` is the destination of a file of some node of the tree and `src` that file's source. */
  ghost predicate CopiedTo(nodes: map<int, CollectionNode>, roots: seq<int>, outputDir: Path, f: Path, src: Path)
    requires WellFormed(nodes, roots)
  {
    exists k, j :: k in nodes && Reachable(Kids(nodes), roots, k) && 0 <= j < |nodes[k].collectionPDFItems| &&
      f == Destination(nodes, roots, outputDir, k, j) && src == nodes[k].collectionPDFItems[j].pdfFilePath
  }

  /** `d` is the directory of a node of the tree or one of its ancestors. */
  ghost predicate TreeDir(nodes: map<int, CollectionNode>, roots: seq<int>, outputDir: Path, d: Path)
    requires WellFormed(nodes, roots)
  {
    exists k :: k in nodes && Reachable(Kids(nodes), roots, k) && d in Prefixes(outputDir + RelPath(nodes, roots, k))
  }

  /** Every file of every node of the tree already has a file at its destination. */
  ghost predicate AllDestinationsIn(nodes: map<int, CollectionNode>, roots: seq<int>, outputDir: Path, files: map<Path, Path>)
    requires WellFormed(nodes, roots)
  {
    forall k, j :: k in nodes && Reachable(Kids(nodes), roots, k) && 0 <= j < |nodes[k].collectionPDFItems| ==>
      Destination(nodes, roots, outputDir, k, j) in files
  }

  /** After the walk has handled the nodes in `done`: their directories exist and the only new
      directories are tree directories (`DirsWritten`); their files are at their destinations,
      every file is as before or a copy of a tree file to its destination, and without
      overwriting the files that were there before are unchanged (`FilesWritten`). */
  ghost predicate WrittenSoFar(nodes: map<int, CollectionNode>, roots: seq<int>, outputDir: Path, overwrite: bool,
                               dirs0: set<Path>, files0: map<Path, Path>, dirs: set<Path>, files: map<Path, Path>,
                               done: set<int>)
    requires WellFormed(nodes, roots)
  {
    && DirsWritten(nodes, roots, outputDir, dirs0, dirs, done)
    && FilesWritten(nodes, roots, outputDir, overwrite, files0, files, done)
  }

  /** The directory half of `WrittenSoFar`. */
  ghost predicate DirsWritten(nodes: map<int, CollectionNode>, roots: seq<int>, outputDir: Path,
                              dirs0: set<Path>, dirs: set<Path>, done: set<int>)
    requires WellFormed(nodes, roots)
  {
    && (forall k :: k in done && k in nodes && Reachable(Kids(nodes), roots, k) ==>
          outputDir + RelPath(nodes, roots, k) in dirs)
    && (forall d :: d in dirs ==> d in dirs0 || TreeDir(nodes, roots, outputDir, d))
  }

  /** The file half of `WrittenSoFar`. */
  ghost predicate FilesWritten(nodes: map<int, CollectionNode>, roots: seq<int>, outputDir: Path, overwrite: bool,
                               files0: map<Path, Path>, files: map<Path, Path>, done: set<int>)
    requires WellFormed(nodes, roots)
  {
    && (forall k, j :: k in done && k in nodes && Reachable(Kids(nodes), roots, k) && 0 <= j < |nodes[k].collectionPDFItems| ==>
          Destination(nodes, roots, outputDir, k, j) in files)
    && files0.Keys <= files.Keys
    && (forall f :: f in files ==> (f in files0 && files[f] == files0[f]) || CopiedTo(nodes, roots, outputDir, f, files[f]))
    && (!overwrite ==> forall f :: f in files0 ==> files[f] == files0[f])
  }

  /** Handling one more node of the tree keeps `WrittenSoFar`. */
  lemma WriteStep(nodes: map<int, CollectionNode>, roots: seq<int>, outputDir: Path, overwrite: bool,
                  dirs0: set<Path>, files0: map<Path, Path>, dirs1: set<Path>, files1: map<Path, Path>,
                  dirs2: set<Path>, files2: map<Path, Path>, done: set<int>, n: int)
    requires WellFormed(nodes, roots) && n in nodes && Reachable(Kids(nodes), roots, n)
    requires WrittenSoFar(nodes, roots, outputDir, overwrite, dirs0, files0, dirs1, files1, done)
    requires CopiedNode(outputDir + RelPath(nodes, roots, n), nodes[n].collectionPDFItems, overwrite,
                        dirs1, files1, dirs2, files2)
    ensures WrittenSoFar(nodes, roots, outputDir, overwrite, dirs0, files0, dirs2, files2, done + {n})
  {
    DirsStep(nodes, roots, outputDir, dirs0, dirs1, dirs2, done, n);
    FilesStep(nodes, roots, outputDir, overwrite, files0, files1, files2, done, n, dirs1, dirs2);
  }

  /** Creating one more tree node's directory keeps `DirsWritten`. */
  lemma DirsStep(nodes: map<int, CollectionNode>, roots: seq<int>, outputDir: Path,
                 dirs0: set<Path>, dirs1: set<Path>, dirs2: set<Path>, done: set<int>, n: int)
    requires WellFormed(nodes, roots) && n in nodes && Reachable(Kids(nodes), roots, n)
    requires DirsWritten(nodes, roots, outputDir, dirs0, dirs1, done)
    requires dirs2 == dirs1 + Prefixes(outputDir + RelPath(nodes, roots, n))
    ensures DirsWritten(nodes, roots, outputDir, dirs0, dirs2, done + {n})
  {
    var dir := outputDir + RelPath(nodes, roots, n);
    assert dir in Prefixes(dir) by {
      assert RelPath(nodes, roots, n) != [] by { RelPathStep(nodes, roots, n); }
    }
    forall d | d in dirs2
      ensures d in dirs0 || TreeDir(nodes, roots, outputDir, d)
    {
      if d !in dirs1 {
        assert d in Prefixes(dir);
      }
    }
  }

  /** Copying one more tree node's files keeps `FilesWritten`. */
  lemma FilesStep(nodes: map<int, CollectionNode>, roots: seq<int>, outputDir: Path, overwrite: bool,
                  files0: map<Path, Path>, files1: map<Path, Path>, files2: map<Path, Path>, done: set<int>, n: int,
                  dirs1: set<Path>, dirs2: set<Path>)
    requires WellFormed(nodes, roots) && n in nodes && Reachable(Kids(nodes), roots, n)
    requires FilesWritten(nodes, roots, outputDir, overwrite, files0, files1, done)
    requires CopiedNode(outputDir + RelPath(nodes, roots, n), nodes[n].collectionPDFItems, overwrite,
                        dirs1, files1, dirs2, files2)
    ensures FilesWritten(nodes, roots, outputDir, overwrite, files0, files2, done + {n})
  {
    var dir := outputDir + RelPath(nodes, roots, n);
    var items := nodes[n].collectionPDFItems;
    forall j | 0 <= j < |items|
      ensures Destination(nodes, roots, outputDir, n, j) == dir + [items[j].pdfName]
    {
    }
    forall f | f in files2
      ensures (f in files0 && files2[f] == files0[f]) || CopiedTo(nodes, roots, outputDir, f, files2[f])
    {
      if !(f in files1 && files2[f] == files1[f]) {
        var j :| 0 <= j < |items| && f == dir + [items[j].pdfName] && files2[f] == items[j].pdfFilePath;
        assert f == Destination(nodes, roots, outputDir, n, j);
      }
    }
  }

  /** Without overwriting, a node whose destinations all existed at the start writes nothing. */
  lemma DestinationsPresent(nodes: map<int, CollectionNode>, roots: seq<int>, outputDir: Path,
                            files0: map<Path, Path>, files1: map<Path, Path>, n: int)
    requires WellFormed(nodes, roots) && n in nodes && Reachable(Kids(nodes), roots, n)
    requires AllDestinationsIn(nodes, roots, outputDir, files0) && files0.Keys <= files1.Keys
    ensures forall j :: 0 <= j < |nodes[n].collectionPDFItems| ==>
      outputDir + RelPath(nodes, roots, n) + [nodes[n].collectionPDFItems[j].pdfName] in files1
  {
    forall j | 0 <= j < |nodes[n].collectionPDFItems|
      ensures outputDir + RelPath(nodes, roots, n) + [nodes[n].collectionPDFItems[j].pdfName] in files1
    {
      assert Destination(nodes, roots, outputDir, n, j) in files0;
    }
  }

  /** The copies the walk asks for when it handles the nodes `ks` in that order: each node's
      files, in order, to the node's directory. */
  ghost function WalkJobs(nodes: map<int, CollectionNode>, roots: seq<int>, outputDir: Path, ks: seq<int>): seq<CopyJob>
    requires WellFormed(nodes, roots)
    requires forall i :: 0 <= i < |ks| ==> ks[i] in nodes && Reachable(Kids(nodes), roots, ks[i])
  {
    if ks == [] then []
    else
      WalkJobs(nodes, roots, outputDir, ks[..|ks| - 1])
        + NodeJobs(outputDir + RelPath(nodes, roots, Last(ks)), nodes[Last(ks)].collectionPDFItems)
  }

  /** The walk asks for one copy per file of the listed nodes. */
  lemma {:induction false} WalkJobsCount(nodes: map<int, CollectionNode>, roots: seq<int>, outputDir: Path, ks: seq<int>)
    requires WellFormed(nodes, roots)
    requires forall i :: 0 <= i < |ks| ==> ks[i] in nodes && Reachable(Kids(nodes), roots, ks[i])
    ensures |WalkJobs(nodes, roots, outputDir, ks)| == ItemCount(nodes, ks)
  {
    if ks != [] {
      WalkJobsCount(nodes, roots, outputDir, ks[..|ks| - 1]);
    }
  }

  /** Each of the walk's copies takes a file of a tree node to that file's destination. */
  lemma {:induction false} WalkJobsSound(nodes: map<int, CollectionNode>, roots: seq<int>, outputDir: Path, ks: seq<int>)
    requires WellFormed(nodes, roots)
    requires forall i :: 0 <= i < |ks| ==> ks[i] in nodes && Reachable(Kids(nodes), roots, ks[i])
    ensures forall i :: 0 <= i < |WalkJobs(nodes, roots, outputDir, ks)| ==>
      CopiedTo(nodes, roots, outputDir, WalkJobs(nodes, roots, outputDir, ks)[i].0, WalkJobs(nodes, roots, outputDir, ks)[i].1)
  {
    if ks != [] {
      var n := Last(ks);
      WalkJobsSound(nodes, roots, outputDir, ks[..|ks| - 1]);
      var before := WalkJobs(nodes, roots, outputDir, ks[..|ks| - 1]);
      var mine := NodeJobs(outputDir + RelPath(nodes, roots, n), nodes[n].collectionPDFItems);
      var jobs := before + mine;
      assert WalkJobs(nodes, roots, outputDir, ks) == jobs;
      forall i | 0 <= i < |jobs|
        ensures CopiedTo(nodes, roots, outputDir, jobs[i].0, jobs[i].1)
      {
        if i < |before| {
          assert jobs[i] == before[i];
        } else {
          var j := i - |before|;
          assert jobs[i] == mine[j];
          FileCopiedTo(nodes, roots, outputDir, n, j);
        }
      }
    }
  }

  /** A file of a tree node, taken to its destination, is a `CopiedTo` pair. */
  lemma FileCopiedTo(nodes: map<int, CollectionNode>, roots: seq<int>, outputDir: Path, k: int, j: int)
    requires WellFormed(nodes, roots) && k in nodes && Reachable(Kids(nodes), roots, k)
    requires 0 <= j < |nodes[k].collectionPDFItems|
    ensures CopiedTo(nodes, roots, outputDir, outputDir + RelPath(nodes, roots, k) + [nodes[k].collectionPDFItems[j].pdfName],
                     nodes[k].collectionPDFItems[j].pdfFilePath)
  {
    assert outputDir + RelPath(nodes, roots, k) + [nodes[k].collectionPDFItems[j].pdfName]
      == Destination(nodes, roots, outputDir, k, j);
  }

  /** Every file of every listed node is copied to its destination by one of the walk's copies. */
  lemma {:induction false} WalkJobsComplete(nodes: map<int, CollectionNode>, roots: seq<int>, outputDir: Path, ks: seq<int>)
    requires WellFormed(nodes, roots)
    requires forall i :: 0 <= i < |ks| ==> ks[i] in nodes && Reachable(Kids(nodes), roots, ks[i])
    ensures forall i, j :: 0 <= i < |ks| && 0 <= j < |nodes[ks[i]].collectionPDFItems| ==>
      (Destination(nodes, roots, outputDir, ks[i], j), nodes[ks[i]].collectionPDFItems[j].pdfFilePath)
        in WalkJobs(nodes, roots, outputDir, ks)
  {
    if ks != [] {
      var init := ks[..|ks| - 1];
      var n := Last(ks);
      WalkJobsComplete(nodes, roots, outputDir, init);
      var before := WalkJobs(nodes, roots, outputDir, init);
      var mine := NodeJobs(outputDir + RelPath(nodes, roots, n), nodes[n].collectionPDFItems);
      var jobs := before + mine;
      forall i, j | 0 <= i < |ks| && 0 <= j < |nodes[ks[i]].collectionPDFItems|
        ensures (Destination(nodes, roots, outputDir, ks[i], j), nodes[ks[i]].collectionPDFItems[j].pdfFilePath) in jobs
      {
        if i < |init| {
          assert ks[i] == init[i];
        } else {
          assert mine[j] == jobs[|before| + j];
        }
      }
    }
  }

  /** The files and counters of the walk so far are those of running the jobs of the visited
      nodes, in visiting order, from the files the walk started with. */
  ghost predicate CopiesSoFar(nodes: map<int, CollectionNode>, roots: seq<int>, outputDir: Path, overwrite: bool,
                              files0: map<Path, Path>, files: map<Path, Path>, visited: seq<int>,
                              written: nat, skipped: nat)
    requires WellFormed(nodes, roots)
  {
    && (forall i :: 0 <= i < |visited| ==> visited[i] in nodes && Reachable(Kids(nodes), roots, visited[i]))
    && CopyOutcome(files, written, skipped)
         == Copies(CopyOutcome(files0, 0, 0), WalkJobs(nodes, roots, outputDir, visited), overwrite)
  }

  /** Running one more tree node's jobs extends `CopiesSoFar` by that node. */
  lemma CopiesAdvance(nodes: map<int, CollectionNode>, roots: seq<int>, outputDir: Path, overwrite: bool,
                      files0: map<Path, Path>, files1: map<Path, Path>, files2: map<Path, Path>, visited: seq<int>,
                      written: nat, skipped: nat, n: int, w: nat, s: nat,
                      visited': seq<int>, written': nat, skipped': nat)
    requires WellFormed(nodes, roots) && n in nodes && Reachable(Kids(nodes), roots, n)
    requires CopiesSoFar(nodes, roots, outputDir, overwrite, files0, files1, visited, written, skipped)
    requires CopyOutcome(files2, w, s)
      == Copies(CopyOutcome(files1, 0, 0), NodeJobs(outputDir + RelPath(nodes, roots, n), nodes[n].collectionPDFItems), overwrite)
    requires visited' == visited + [n] && written' == written + w && skipped' == skipped + s
    ensures CopiesSoFar(nodes, roots, outputDir, overwrite, files0, files2, visited', written', skipped')
  {
    var ks := visited';
    assert ks[..|ks| - 1] == visited;
    var before := WalkJobs(nodes, roots, outputDir, visited);
    var mine := NodeJobs(outputDir + RelPath(nodes, roots, n), nodes[n].collectionPDFItems);
    assert WalkJobs(nodes, roots, outputDir, ks) == before + mine;
    CopiesAppend(CopyOutcome(files0, 0, 0), before, mine, overwrite);
    CopiesShift(files1, written, skipped, mine, overwrite);
  }

  /** Each queued node is in the tree and carries its relative path. */
  ghost predicate QueueHasPaths(nodes: map<int, CollectionNode>, roots: seq<int>, queue: seq<(int, Path)>)
    requires WellFormed(nodes, roots)
  {
    forall i :: 0 <= i < |queue| ==>
      && queue[i].0 in nodes && Reachable(Kids(nodes), roots, queue[i].0)
      && queue[i].1 == RelPath(nodes, roots, queue[i].0)
  }

  /** The queue entries for the children of a node whose relative path is `relPath`. */
  function ChildPairs(nodes: map<int, CollectionNode>, kids: seq<int>, relPath: Path): (r: seq<(int, Path)>)
    requires forall i :: 0 <= i < |kids| ==> kids[i] in nodes
    ensures QueueKeys(r) == kids
    ensures forall i :: 0 <= i < |kids| ==> r[i] == (kids[i], relPath + [nodes[kids[i]].collectionName])
  {
    seq(|kids|, i requires 0 <= i < |kids| => (kids[i], relPath + [nodes[kids[i]].collectionName]))
  }

  /** The children of a tree node are in the tree, and each one's relative path extends the
      node's by the child's name. */
  lemma ChildPairsFacts(nodes: map<int, CollectionNode>, roots: seq<int>, n: int, relPath: Path)
    requires WellFormed(nodes, roots) && n in nodes && Reachable(Kids(nodes), roots, n)
    requires relPath == RelPath(nodes, roots, n)
    ensures forall i :: 0 <= i < |nodes[n].childrenNodes| ==> nodes[n].childrenNodes[i] in nodes
    ensures QueueHasPaths(nodes, roots, ChildPairs(nodes, nodes[n].childrenNodes, relPath))
  {
    var kids := nodes[n].childrenNodes;
    forall i | 0 <= i < |kids|
      ensures kids[i] in nodes && Reachable(Kids(nodes), roots, kids[i])
      ensures RelPath(nodes, roots, kids[i]) == relPath + [nodes[kids[i]].collectionName]
    {
      var c := kids[i];
      ChildFacts(nodes, roots, n, c);
      ReachableChild(nodes, roots, n, c);
      RelPathStep(nodes, roots, c);
      if c in roots {
        RootFacts(nodes, roots, c);
      }
    }
  }

  /** Popping the head and queueing its children with their paths keeps every path right. */
  lemma QueueStep(nodes: map<int, CollectionNode>, roots: seq<int>, queue: seq<(int, Path)>)
    requires WellFormed(nodes, roots) && queue != [] && QueueHasPaths(nodes, roots, queue)
    ensures queue[0].0 in nodes && Reachable(Kids(nodes), roots, queue[0].0)
    ensures queue[0].1 == RelPath(nodes, roots, queue[0].0)
    ensures forall i :: 0 <= i < |nodes[queue[0].0].childrenNodes| ==> nodes[queue[0].0].childrenNodes[i] in nodes
    ensures var next := queue[1..] + ChildPairs(nodes, nodes[queue[0].0].childrenNodes, queue[0].1);
      QueueHasPaths(nodes, roots, next) && QueueKeys(next) == QueueKeys(queue)[1..] + nodes[queue[0].0].childrenNodes
  {
    var n := queue[0].0;
    ChildPairsFacts(nodes, roots, n, queue[0].1);
    var kids := nodes[n].childrenNodes;
    QueueKeysAppend(queue[1..], ChildPairs(nodes, kids, queue[0].1));
    assert QueueKeys(queue[1..]) == QueueKeys(queue)[1..];
  }

  /** The walk starts from the roots, each with its own name as its relative path. */
  lemma RootPairs(nodes: map<int, CollectionNode>, roots: seq<int>, queue: seq<(int, Path)>)
    requires WellFormed(nodes, roots) && |queue| == |roots|
    requires forall j :: 0 <= j < |roots| ==> roots[j] in nodes && queue[j] == (roots[j], [nodes[roots[j]].collectionName])
    ensures QueueKeys(queue) == roots
    ensures QueueHasPaths(nodes, roots, queue)
  {
    forall i | 0 <= i < |queue|
      ensures queue[i].0 in nodes && Reachable(Kids(nodes), roots, queue[i].0)
      ensures queue[i].1 == RelPath(nodes, roots, queue[i].0)
    {
      var r := roots[i];
      RootReachable(nodes, roots, r);
      RelPathStep(nodes, roots, r);
    }
  }

  /** The queue the walk starts from: each root with its own name as its relative path. */
  method RootQueue(nodes: map<int, CollectionNode>, roots: seq<int>) returns (queue: seq<(int, Path)>)
    requires WellFormed(nodes, roots)
    ensures QueueKeys(queue) == roots
    ensures QueueHasPaths(nodes, roots, queue)
  {
    forall i | 0 <= i < |roots|
      ensures roots[i] in nodes
    {
      RootFacts(nodes, roots, roots[i]);
    }
    queue := [];
    for i := 0 to |roots|
      invariant |queue| == i
      invariant forall j :: 0 <= j < i ==> queue[j] == (roots[j], [nodes[roots[j]].collectionName])
    {
      queue := queue + [(roots[i], [nodes[roots[i]].collectionName])];
    }
    RootPairs(nodes, roots, queue);
  }

  /** Before any node is handled, the walk's state holds with nothing written. */
  lemma WalkStart(nodes: map<int, CollectionNode>, roots: seq<int>, outputDir: Path, overwrite: bool,
                  dirs0: set<Path>, files0: map<Path, Path>, queue: seq<(int, Path)>)
    requires WellFormed(nodes, roots)
    requires QueueKeys(queue) == roots && QueueHasPaths(nodes, roots, queue)
    ensures WalkInv(nodes, roots, outputDir, overwrite, dirs0, files0, dirs0, files0, queue, roots, {}, [], 0, 0)
  {
    BfsStart(nodes, roots);
  }

  /** Once the queue is empty, every node of the tree has been handled exactly once, has its
      directory, and every file its destination. */
  lemma WalkDone(nodes: map<int, CollectionNode>, roots: seq<int>, outputDir: Path, overwrite: bool,
                 dirs0: set<Path>, files0: map<Path, Path>, dirs: set<Path>, files: map<Path, Path>,
                 popped: set<int>, visited: seq<int>)
    requires WellFormed(nodes, roots)
    requires BfsInv(nodes, roots, [], popped) && Enumerates(nodes, visited, popped)
    requires WrittenSoFar(nodes, roots, outputDir, overwrite, dirs0, files0, dirs, files, popped)
    ensures forall k :: k in visited <==> k in nodes && Reachable(Kids(nodes), roots, k)
    ensures forall k :: k in nodes && Reachable(Kids(nodes), roots, k) ==> outputDir + RelPath(nodes, roots, k) in dirs
    ensures AllDestinationsIn(nodes, roots, outputDir, files)
  {
    forall k | k in nodes && Reachable(Kids(nodes), roots, k)
      ensures k in popped
    {
      BfsDone(nodes, roots, popped, k);
    }
  }

  /** The state of the `write_pdfs` walk between two nodes: the queue holds tree nodes with
      their relative paths, `visited` lists the handled nodes once each, the counters add up
      to their files, and the files handled so far are written (`WrittenSoFar`). */
  ghost predicate WalkInv(nodes: map<int, CollectionNode>, roots: seq<int>, outputDir: Path, overwrite: bool,
                          dirs0: set<Path>, files0: map<Path, Path>, dirs: set<Path>, files: map<Path, Path>,
                          queue: seq<(int, Path)>, keys: seq<int>, popped: set<int>, visited: seq<int>,
                          written: nat, skipped: nat)
    requires WellFormed(nodes, roots)
  {
    && keys == QueueKeys(queue)
    && BfsInv(nodes, roots, keys, popped)
    && QueueHasPaths(nodes, roots, queue)
    && Enumerates(nodes, visited, popped)
    && written + skipped == ItemCount(nodes, visited)
    && (overwrite ==> skipped == 0)
    && (!overwrite && AllDestinationsIn(nodes, roots, outputDir, files0) ==> written == 0)
    && WrittenSoFar(nodes, roots, outputDir, overwrite, dirs0, files0, dirs, files, popped)
  }

  /** Handling the head of the queue, which `CopiedNode` describes, keeps `WalkInv` for the
      shortened queue plus the head's children, and leaves fewer nodes to handle. */
  lemma WalkAdvance(nodes: map<int, CollectionNode>, roots: seq<int>, outputDir: Path, overwrite: bool,
                    dirs0: set<Path>, files0: map<Path, Path>, dirs1: set<Path>, files1: map<Path, Path>,
                    dirs2: set<Path>, files2: map<Path, Path>,
                    queue: seq<(int, Path)>, keys: seq<int>, popped: set<int>, visited: seq<int>,
                    written: nat, skipped: nat, w: nat, s: nat)
    requires WellFormed(nodes, roots) && queue != []
    requires WalkInv(nodes, roots, outputDir, overwrite, dirs0, files0, dirs1, files1,
                     queue, keys, popped, visited, written, skipped)
    requires queue[0].0 in nodes
    requires CopiedNode(outputDir + queue[0].1, nodes[queue[0].0].collectionPDFItems, overwrite, dirs1, files1, dirs2, files2)
    requires w + s == |nodes[queue[0].0].collectionPDFItems| && (overwrite ==> s == 0)
    requires (!overwrite && forall j :: 0 <= j < |nodes[queue[0].0].collectionPDFItems| ==>
                outputDir + queue[0].1 + [nodes[queue[0].0].collectionPDFItems[j].pdfName] in files1)
             ==> w == 0
    ensures forall i :: 0 <= i < |nodes[queue[0].0].childrenNodes| ==> nodes[queue[0].0].childrenNodes[i] in nodes
    ensures WalkInv(nodes, roots, outputDir, overwrite, dirs0, files0, dirs2, files2,
                    queue[1..] + ChildPairs(nodes, nodes[queue[0].0].childrenNodes, queue[0].1),
                    keys[1..] + nodes[queue[0].0].childrenNodes, popped + {queue[0].0}, visited + [queue[0].0],
                    written + w, skipped + s)
    ensures |nodes.Keys - (popped + {queue[0].0})| < |nodes.Keys - popped|
  {
    var n := queue[0].0;
    BfsStep(nodes, roots, keys, popped);
    QueueStep(nodes, roots, queue);
    if !overwrite && AllDestinationsIn(nodes, roots, outputDir, files0) {
      DestinationsPresent(nodes, roots, outputDir, files0, files1, n);
    }
    WriteStep(nodes, roots, outputDir, overwrite, dirs0, files0, dirs1, files1, dirs2, files2, popped, n);
    VisitStep(nodes, visited, popped, n);
  }

  /** One round of the `write_pdfs` walk: pop a node, queue its children with their paths and
      copy the node's files into its directory. */
  method WalkNode(fs: FileSystem, nodes: map<int, CollectionNode>, roots: seq<int>, outputDir: Path, overwrite: bool,
                  ghost dirs0: set<Path>, ghost files0: map<Path, Path>,
                  queue: seq<(int, Path)>, ghost keys: seq<int>, ghost popped: set<int>, ghost visited: seq<int>,
                  written: nat, skipped: nat)
    returns (queue': seq<(int, Path)>, ghost keys': seq<int>, ghost popped': set<int>, ghost visited': seq<int>,
             written': nat, skipped': nat)
    requires WellFormed(nodes, roots) && queue != []
    requires WalkInv(nodes, roots, outputDir, overwrite, dirs0, files0, fs.dirs, fs.files,
                     queue, keys, popped, visited, written, skipped)
    requires CopiesSoFar(nodes, roots, outputDir, overwrite, files0, fs.files, visited, written, skipped)
    modifies fs
    ensures WalkInv(nodes, roots, outputDir, overwrite, dirs0, files0, fs.dirs, fs.files,
                    queue', keys', popped', visited', written', skipped')
    ensures CopiesSoFar(nodes, roots, outputDir, overwrite, files0, fs.files, visited', written', skipped')
    ensures |nodes.Keys - popped'| < |nodes.Keys - popped|
  {
    QueueStep(nodes, roots, queue);
    var n := queue[0].0;
    var relPath := queue[0].1;
    ghost var dirs1, files1 := fs.dirs, fs.files;
    var w, s := WriteNodeItems(fs, outputDir + relPath, nodes[n].collectionPDFItems, overwrite);
    ghost var dirs2, files2 := fs.dirs, fs.files;
    WalkAdvance(nodes, roots, outputDir, overwrite, dirs0, files0, dirs1, files1, dirs2, files2,
                queue, keys, popped, visited, written, skipped, w, s);
    queue' := queue[1..] + ChildPairs(nodes, nodes[n].childrenNodes, relPath);
    keys', popped', visited' := keys[1..] + nodes[n].childrenNodes, popped + {n}, visited + [n];
    written', skipped' := written + w, skipped + s;
    CopiesAdvance(nodes, roots, outputDir, overwrite, files0, files1, fs.files, visited, written, skipped, n, w, s,
                  visited', written', skipped');
  }

  /** The loop of `write_pdfs` over a well-formed arena. */
  method WriteForest(fs: FileSystem, nodes: map<int, CollectionNode>, roots: seq<int>, outputDir: Path, overwrite: bool)
    returns (written: nat, skipped: nat, ghost visited: seq<int>)
    requires WellFormed(nodes, roots)
    modifies fs
    ensures NoDups(visited) && forall k :: k in visited <==> k in nodes && Reachable(Kids(nodes), roots, k)
    ensures forall i :: 0 <= i < |visited| ==> visited[i] in nodes && Reachable(Kids(nodes), roots, visited[i])
    ensures written + skipped == ItemCount(nodes, visited)
    ensures overwrite ==> skipped == 0
    ensures !overwrite && AllDestinationsIn(nodes, roots, outputDir, old(fs.files)) ==> written == 0
    ensures forall k :: k in nodes && Reachable(Kids(nodes), roots, k) ==> outputDir + RelPath(nodes, roots, k) in fs.dirs
    ensures AllDestinationsIn(nodes, roots, outputDir, fs.files)
    ensures forall d :: d in fs.dirs ==> d in old(fs.dirs) || TreeDir(nodes, roots, outputDir, d)
    ensures old(fs.files).Keys <= fs.files.Keys
    ensures forall f :: f in fs.files ==>
      (f in old(fs.files) && fs.files[f] == old(fs.files)[f]) || CopiedTo(nodes, roots, outputDir, f, fs.files[f])
    ensures !overwrite ==> forall f :: f in old(fs.files) ==> fs.files[f] == old(fs.files)[f]
    ensures CopyOutcome(fs.files, written, skipped)
      == Copies(CopyOutcome(old(fs.files), 0, 0), WalkJobs(nodes, roots, outputDir, visited), overwrite)
    ensures overwrite ==> fs.files == old(fs.files) + LaterWins(WalkJobs(nodes, roots, outputDir, visited))
    ensures !overwrite ==> fs.files == EarlierWins(WalkJobs(nodes, roots, outputDir, visited)) + old(fs.files)
    ensures !overwrite ==> skipped == Preexisting(old(fs.files), WalkJobs(nodes, roots, outputDir, visited))
  {
    var queue := RootQueue(nodes, roots);
    written, skipped, visited := 0, 0, [];
    ghost var popped: set<int> := {};
    ghost var keys := roots;
    ghost var dirs0, files0 := fs.dirs, fs.files;
    WalkStart(nodes, roots, outputDir, overwrite, dirs0, files0, queue);
    while queue != []
      invariant WalkInv(nodes, roots, outputDir, overwrite, dirs0, files0, fs.dirs, fs.files,
                        queue, keys, popped, visited, written, skipped)
      invariant CopiesSoFar(nodes, roots, outputDir, overwrite, files0, fs.files, visited, written, skipped)
      invariant files0 == old(fs.files)
      decreases |nodes.Keys - popped|
    {
      queue, keys, popped, visited, written, skipped :=
        WalkNode(fs, nodes, roots, outputDir, overwrite, dirs0, files0, queue, keys, popped, visited, written, skipped);
    }
    WalkDone(nodes, roots, outputDir, overwrite, dirs0, files0, fs.dirs, fs.files, popped, visited);
    CopiesResult(files0, WalkJobs(nodes, roots, outputDir, visited), overwrite, CopyOutcome(fs.files, written, skipped));
  }
}
