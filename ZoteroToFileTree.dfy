/** The steps of the program's driver that feed the collection tree: locating the database,
    keeping the attachments whose file exists, creating one node per collection and binding
    each file to the nodes of its collections without repeating a file name in a node. */
module ZoteroToFileTree {
  import opened Records
  import opened Forest
  import opened Resolver
  import opened Tree

  /** `standard_zotero_db_name`. */
  const StandardZoteroDbName: string := "zotero.sqlite"

  // ---------------------------------------------------------------------------
  // create_zotero_db_path

  /** `std::filesystem::exists` over the set of paths present; the empty path never exists. */
  predicate Exists(p: Path, present: set<Path>)
  {
    p != [] && p in present
  }

  /** `std::filesystem::is_directory`: a present path that is a directory. */
  predicate IsDirectory(p: Path, present: set<Path>, directories: set<Path>)
  {
    Exists(p, present) && p in directories
  }

  /** `create_zotero_db_path`: a missing library path falls back to the database file in the
      working directory, and a directory gets the database file name appended. */
  function CreateZoteroDbPath(library: Path, cwd: Path, present: set<Path>, directories: set<Path>): (r: Path)
    ensures Exists(library, present) && !IsDirectory(library, present, directories) ==> r == library
    ensures IsDirectory(library, present, directories) ==> r == library + [StandardZoteroDbName]
    ensures !Exists(library, present) ==>
      r == cwd + [StandardZoteroDbName] ||
      r == cwd + [StandardZoteroDbName, StandardZoteroDbName]
    ensures r != library ==> |r| >= 1 && r[|r| - 1] == StandardZoteroDbName
  {
    var p := if Exists(library, present) then library else cwd + [StandardZoteroDbName];
    if IsDirectory(p, present, directories) then p + [StandardZoteroDbName] else p
  }

  // ---------------------------------------------------------------------------
  // create_pdfitems

  /** The items whose file exists, in their original order. */
  function KeepExisting(items: seq<PDFItem>, present: set<Path>): (r: seq<PDFItem>)
    ensures |r| <= |items|
    ensures forall x :: x in r <==> x in items && Exists(x.pdfFilePath, present)
  {
    if items == [] then []
    else
      var init := items[..|items| - 1];
      var x := items[|items| - 1];
      assert items == init + [x];
      var kept := KeepExisting(init, present);
      if Exists(x.pdfFilePath, present) then kept + [x] else kept
  }

  lemma KeepExistingSnoc(items: seq<PDFItem>, i: nat, present: set<Path>)
    requires i < |items|
    ensures KeepExisting(items[..i + 1], present) ==
      KeepExisting(items[..i], present) + (if Exists(items[i].pdfFilePath, present) then [items[i]] else [])
  {
    assert items[..i + 1][..i] == items[..i];
  }

  /** Filtering distributes over concatenation: the kept items keep their relative order. */
  lemma {:induction false} KeepExistingAppend(a: seq<PDFItem>, b: seq<PDFItem>, present: set<Path>)
    ensures KeepExisting(a + b, present) == KeepExisting(a, present) + KeepExisting(b, present)
    decreases |b|
  {
    if b != [] {
      var init := b[..|b| - 1];
      assert a + b == (a + init) + [b[|b| - 1]];
      assert (a + b)[..|a + b| - 1] == a + init;
      KeepExistingAppend(a, init, present);
    } else {
      assert a + b == a;
    }
  }

  /** `std::remove_if` followed by `erase`: compact the items whose file exists to the front,
      in order; the new length is returned. */
  method RemoveMissing(a: array<PDFItem>, present: set<Path>) returns (n: nat)
    modifies a
    ensures n <= a.Length
    ensures a[..n] == KeepExisting(old(a[..]), present)
  {
    ghost var s := a[..];
    n := 0;
    for i := 0 to a.Length
      invariant n <= i
      invariant a[..n] == KeepExisting(s[..i], present)
      invariant forall j :: i <= j < a.Length ==> a[j] == s[j]
    {
      KeepExistingSnoc(s, i, present);
      var x := a[i];
      assert x == s[i];
      if Exists(x.pdfFilePath, present) {
        a[n] := x;
        n := n + 1;
      }
    }
    assert s[..a.Length] == s;
  }

  /** `create_pdfitems`: resolve the attachments, drop those whose file does not exist, then give
      the rest their collections. The attachment rows, the storage listing, the present paths
      and the collections lookup are the database and the filesystem as inputs. */
  method CreatePdfItems(attachments: seq<PDFAttachment>, dbPath: Path, listing: map<Path, seq<string>>,
                        present: set<Path>, collectionsOf: map<int, seq<ZoteroCollection>>)
    returns (items: seq<PDFItem>)
    ensures var resolved := seq(|attachments|, i requires 0 <= i < |attachments| => Resolve(attachments[i], dbPath, listing));
      var kept := KeepExisting(resolved, present);
      |items| == |kept| && forall i :: 0 <= i < |items| ==> items[i] == WithCollections(kept[i], collectionsOf)
  {
    var resolved := PdfItems(attachments, dbPath, listing);
    assert resolved == seq(|attachments|, i requires 0 <= i < |attachments| => Resolve(attachments[i], dbPath, listing));
    var a := new PDFItem[|resolved|](i requires 0 <= i < |resolved| => resolved[i]);
    assert a[..] == resolved;
    var n := RemoveMissing(a, present);
    var kept := a[..n];
    var b := new PDFItem[n](i requires 0 <= i < n => kept[i]);
    assert b[..] == kept;
    RetrievePdfItemCollections(b, collectionsOf);
    items := b[..];
  }

  // ---------------------------------------------------------------------------
  // create_collectiontree: node creation

  /** The node made for a collection: its id, parent and name, with no files and no children. */
  function NodeOf(c: ZoteroCollection): (n: CollectionNode)
    ensures CollectionOf(n) == c
    ensures n.collectionPDFItems == [] && n.childrenNodes == []
  {
    CollectionNode(c.collectionID, c.parentCollectionID, c.collectionName, [], [])
  }

  /** The collection a node stands for. */
  function CollectionOf(n: CollectionNode): ZoteroCollection
  {
    ZoteroCollection(n.collectionID, n.parentCollectionID, n.collectionName)
  }

  /** One node per entry of the collection map, in whatever order the map yields them. */
  method MakeNodes(collections: map<int, ZoteroCollection>) returns (nodes: map<int, CollectionNode>)
    ensures nodes.Keys == collections.Keys
    ensures forall k :: k in nodes ==> CollectionOf(nodes[k]) == collections[k]
    ensures forall k :: k in nodes ==> nodes[k].collectionPDFItems == [] && nodes[k].childrenNodes == []
  {
    nodes := map[];
    var todo := collections.Keys;
    while todo != {}
      invariant todo <= collections.Keys
      invariant nodes.Keys == collections.Keys - todo
      invariant forall k :: k in nodes ==> nodes[k] == NodeOf(collections[k])
      decreases todo
    {
      HasMember(todo);
      var k :| k in todo;
      nodes := nodes[k := NodeOf(collections[k])];
      todo := todo - {k};
    }
  }

  // ---------------------------------------------------------------------------
  // create_collectiontree: binding files to nodes

  /** The entry a file gets in a node: its item id, its stored name and its resolved path. */
  function Entry(item: PDFItem): CollectionPDFItem
  {
    CollectionPDFItem(item.pdfAttachment.itemID, item.pdfAttachment.path, item.pdfFilePath)
  }

  predicate HasName(list: seq<CollectionPDFItem>, name: string)
  {
    exists i :: 0 <= i < |list| && list[i].pdfName == name
  }

  /** No two entries of a node share a file name. */
  predicate NamesUnique(list: seq<CollectionPDFItem>)
  {
    forall i, j :: 0 <= i < j < |list| ==> list[i].pdfName != list[j].pdfName
  }

  /** The collections list a collection with id `k`. */
  predicate Lists(cs: seq<ZoteroCollection>, k: int)
  {
    exists c :: c in cs && c.collectionID == k
  }

  /** Adding an entry unless one with its name is already there. */
  function BindEntry(list: seq<CollectionPDFItem>, e: CollectionPDFItem): (r: seq<CollectionPDFItem>)
    ensures HasName(r, e.pdfName)
    ensures forall x :: x in r <==> x in list || (x == e && !HasName(list, e.pdfName))
    ensures |r| >= |list| && r[..|list|] == list
    ensures NamesUnique(list) ==> NamesUnique(r)
  {
    if HasName(list, e.pdfName) then list
    else
      assert (list + [e])[|list|] == e;
      list + [e]
  }

  /** Binding an item to node `k` after the items before it: only if it lists `k`. */
  function BindItemTo(list: seq<CollectionPDFItem>, item: PDFItem, k: int): seq<CollectionPDFItem>
  {
    if Lists(item.collectionItems, k) then BindEntry(list, Entry(item)) else list
  }

  /** The inner loop over an item's collections, for node `k`: every listing of `k` tries to
      bind the item again. */
  function BindColls(list: seq<CollectionPDFItem>, item: PDFItem, cs: seq<ZoteroCollection>, k: int): seq<CollectionPDFItem>
  {
    if cs == [] then list
    else
      var l := BindColls(list, item, cs[..|cs| - 1], k);
      if cs[|cs| - 1].collectionID == k then BindEntry(l, Entry(item)) else l
  }

  /** The entries node `k` holds after the items were bound one after another, starting empty. */
  function BoundItems(items: seq<PDFItem>, k: int): (r: seq<CollectionPDFItem>)
    ensures NamesUnique(r)
  {
    if items == [] then []
    else BindItemTo(BoundItems(items[..|items| - 1], k), items[|items| - 1], k)
  }

  /** Listing a collection several times binds the item to it once: the inner loop is the
      same as one attempt per node. */
  lemma {:induction false} BindCollsOnce(list: seq<CollectionPDFItem>, item: PDFItem, cs: seq<ZoteroCollection>, k: int)
    ensures BindColls(list, item, cs, k) == if Lists(cs, k) then BindEntry(list, Entry(item)) else list
  {
    if cs != [] {
      var init := cs[..|cs| - 1];
      var c := cs[|cs| - 1];
      assert cs == init + [c];
      BindCollsOnce(list, item, init, k);
      assert Lists(cs, k) <==> Lists(init, k) || c.collectionID == k;
      if Lists(init, k) && c.collectionID == k {
        var l := BindEntry(list, Entry(item));
        assert HasName(l, Entry(item).pdfName);
      }
    }
  }

  lemma BindCollsSnoc(list: seq<CollectionPDFItem>, item: PDFItem, cs: seq<ZoteroCollection>, j: nat, k: int)
    requires j < |cs|
    ensures BindColls(list, item, cs[..j + 1], k) ==
      if cs[j].collectionID == k then BindEntry(BindColls(list, item, cs[..j], k), Entry(item))
      else BindColls(list, item, cs[..j], k)
  {
    assert cs[..j + 1][..j] == cs[..j];
  }

  lemma BoundSnoc(items: seq<PDFItem>, i: nat)
    requires i < |items|
    ensures forall k :: BoundItems(items[..i + 1], k) == BindItemTo(BoundItems(items[..i], k), items[i], k)
  {
    assert items[..i + 1][..i] == items[..i];
  }

  /** Every item that lists `k` has an entry of its name in node `k`. */
  lemma {:induction false} BoundComplete(items: seq<PDFItem>, k: int, i: nat)
    requires i < |items| && Lists(items[i].collectionItems, k)
    ensures HasName(BoundItems(items, k), items[i].pdfAttachment.path)
  {
    var init := items[..|items| - 1];
    if i < |items| - 1 {
      assert items[i] == init[i];
      BoundComplete(init, k, i);
      var b := BoundItems(init, k);
      var j :| 0 <= j < |b| && b[j].pdfName == items[i].pdfAttachment.path;
      assert BoundItems(items, k)[..|b|] == b;
      assert BoundItems(items, k)[j] == b[j];
    }
  }

  /** Every entry of node `k` is the entry of the first item that lists `k` with that name. */
  lemma {:induction false} BoundSound(items: seq<PDFItem>, k: int, e: CollectionPDFItem)
    requires e in BoundItems(items, k)
    ensures exists i :: (&& 0 <= i < |items| && Lists(items[i].collectionItems, k) && e == Entry(items[i])
                         && forall j :: 0 <= j < i && Lists(items[j].collectionItems, k) ==> items[j].pdfAttachment.path != e.pdfName)
  {
    var init := items[..|items| - 1];
    var last := items[|items| - 1];
    var b := BoundItems(init, k);
    if e in b {
      BoundSound(init, k, e);
      var i :| 0 <= i < |init| && Lists(init[i].collectionItems, k) && e == Entry(init[i]) &&
        forall j :: 0 <= j < i && Lists(init[j].collectionItems, k) ==> init[j].pdfAttachment.path != e.pdfName;
      assert items[i] == init[i];
      assert forall j :: 0 <= j < i ==> items[j] == init[j];
    } else {
      assert Lists(last.collectionItems, k) && e == Entry(last) && !HasName(b, e.pdfName);
      forall j | 0 <= j < |items| - 1 && Lists(items[j].collectionItems, k)
        ensures items[j].pdfAttachment.path != e.pdfName
      {
        assert items[j] == init[j];
        BoundComplete(init, k, j);
      }
    }
  }

  /** `std::find_if` over a node's entries for the file's name. */
  method ContainsName(list: seq<CollectionPDFItem>, name: string) returns (present: bool)
    ensures present <==> HasName(list, name)
  {
    present := false;
    var i := 0;
    while i < |list| && !present
      invariant 0 <= i <= |list|
      invariant present <==> exists j :: 0 <= j < i && list[j].pdfName == name
    {
      present := list[i].pdfName == name;
      i := i + 1;
    }
  }

  /** After the first collections `cs` of `item` were handled: a node in the tree holds what
      binding the item once per listing of it in `cs` makes of its files, any other node what
      it held before. */
  ghost predicate PartlyBound(nodes0: map<int, CollectionNode>, nodes: map<int, CollectionNode>,
                              kids: map<int, seq<int>>, roots: seq<int>, item: PDFItem, cs: seq<ZoteroCollection>)
  {
    && nodes.Keys == nodes0.Keys
    && forall k :: k in nodes ==>
         nodes[k].collectionPDFItems ==
           (if Reachable(kids, roots, k) then BindColls(nodes0[k].collectionPDFItems, item, cs, k)
            else nodes0[k].collectionPDFItems)
  }

  /** Handling one more collection binds the item to that node when it is in the tree. */
  lemma BindStep(nodes0: map<int, CollectionNode>, nodes: map<int, CollectionNode>, nodes': map<int, CollectionNode>,
                 kids: map<int, seq<int>>, roots: seq<int>, item: PDFItem, cs: seq<ZoteroCollection>, j: nat)
    requires j < |cs| && PartlyBound(nodes0, nodes, kids, roots, item, cs[..j])
    requires var id := cs[j].collectionID;
      if id in nodes && Reachable(kids, roots, id)
      then nodes' == nodes[id := nodes[id].(collectionPDFItems := BindEntry(nodes[id].collectionPDFItems, Entry(item)))]
      else nodes' == nodes
    ensures PartlyBound(nodes0, nodes', kids, roots, item, cs[..j + 1])
  {
    forall k | k in nodes'
      ensures nodes'[k].collectionPDFItems ==
        (if Reachable(kids, roots, k) then BindColls(nodes0[k].collectionPDFItems, item, cs[..j + 1], k)
         else nodes0[k].collectionPDFItems)
    {
      BindCollsSnoc(nodes0[k].collectionPDFItems, item, cs, j, k);
    }
  }

  /** One collection of an item in the binder: when `find` locates the collection, append the
      item's entry to that node unless the node already holds a file with that name. Only
      that node's files change, and the tree keeps its shape. */
  method BindCollection(tree: CollectionTree, item: PDFItem, id: int)
    requires tree.Valid()
    modifies tree
    ensures tree.Valid() && tree.roots == old(tree.roots) && SameShape(old(tree.nodes), tree.nodes)
    ensures Kids(tree.nodes) == Kids(old(tree.nodes))
    ensures tree.nodes ==
      if id in old(tree.nodes) && old(tree.InTree(id))
      then old(tree.nodes)[id := old(tree.nodes)[id].(collectionPDFItems := BindEntry(old(tree.nodes)[id].collectionPDFItems, Entry(item)))]
      else old(tree.nodes)
  {
    var found := tree.Find(id);
    if found.Some? {
      var k := found.value;
      var list := tree.nodes[k].collectionPDFItems;
      var present := ContainsName(list, item.pdfAttachment.path);
      if !present {
        ghost var before := tree.nodes;
        tree.nodes := tree.nodes[k := tree.nodes[k].(collectionPDFItems := list + [Entry(item)])];
        ShapeKeepsTree(before, tree.nodes, tree.roots);
      }
    }
  }

  /** The binder for one item: bind it to each of its collections in turn. */
  method BindItem(tree: CollectionTree, item: PDFItem)
    requires tree.Valid()
    modifies tree
    ensures tree.Valid() && tree.roots == old(tree.roots) && SameShape(old(tree.nodes), tree.nodes)
    ensures forall k :: k in tree.nodes ==>
      tree.nodes[k].collectionPDFItems ==
        (if tree.InTree(k) then BindItemTo(old(tree.nodes[k].collectionPDFItems), item, k)
         else old(tree.nodes[k].collectionPDFItems))
  {
    ghost var nodes0 := tree.nodes;
    ghost var kids0 := Kids(tree.nodes);
    var cs := item.collectionItems;
    for j := 0 to |cs|
      invariant tree.Valid() && tree.roots == old(tree.roots) && SameShape(nodes0, tree.nodes)
      invariant Kids(tree.nodes) == kids0
      invariant PartlyBound(nodes0, tree.nodes, kids0, tree.roots, item, cs[..j])
    {
      ghost var before := tree.nodes;
      BindCollection(tree, item, cs[j].collectionID);
      SameShapeTrans(nodes0, before, tree.nodes);
      BindStep(nodes0, before, tree.nodes, kids0, tree.roots, item, cs, j);
    }
    assert cs[..|cs|] == cs;
    forall k | k in tree.nodes
      ensures BindColls(nodes0[k].collectionPDFItems, item, cs, k) == BindItemTo(nodes0[k].collectionPDFItems, item, k)
    {
      BindCollsOnce(nodes0[k].collectionPDFItems, item, cs, k);
    }
  }


  /** The binder: every item in turn, starting from nodes without files. */
  method BindPdfItems(tree: CollectionTree, pdfItems: seq<PDFItem>)
    requires tree.Valid()
    requires forall k :: k in tree.nodes ==> tree.nodes[k].collectionPDFItems == []
    modifies tree
    ensures tree.Valid() && tree.roots == old(tree.roots) && SameShape(old(tree.nodes), tree.nodes)
    ensures forall k :: k in tree.nodes ==>
      tree.nodes[k].collectionPDFItems == (if tree.InTree(k) then BoundItems(pdfItems, k) else [])
  {
    ghost var kids0 := Kids(tree.nodes);
    for i := 0 to |pdfItems|
      invariant tree.Valid() && tree.roots == old(tree.roots) && SameShape(old(tree.nodes), tree.nodes)
      invariant Kids(tree.nodes) == kids0
      invariant forall k :: k in tree.nodes ==>
        tree.nodes[k].collectionPDFItems == (if Reachable(kids0, tree.roots, k) then BoundItems(pdfItems[..i], k) else [])
    {
      ghost var before := tree.nodes;
      BindItem(tree, pdfItems[i]);
      SameKids(before, tree.nodes);
      BoundSnoc(pdfItems, i);
    }
    assert pdfItems[..|pdfItems|] == pdfItems;
  }

  /** `create_collectiontree`: gather the items' collections with their ancestry, make a node
      per collection, build the tree, then bind the files to the nodes found in it. */
  method CreateCollectionTree(pdfItems: seq<PDFItem>, db: map<int, ZoteroCollection>)
    returns (tree: CollectionTree)
    requires forall k :: k in db ==> db[k].collectionID == k
    ensures fresh(tree) && tree.Valid()
    ensures forall i, c :: 0 <= i < |pdfItems| && c in pdfItems[i].collectionItems ==> c.collectionID in tree.nodes
    ensures forall k :: k in tree.nodes ==>
      CollectionOf(tree.nodes[k]) in Flatten(pdfItems) || (k in db && CollectionOf(tree.nodes[k]) == db[k])
    ensures forall k :: k in tree.nodes ==>
      var parent := tree.nodes[k].parentCollectionID;
      parent == NoParent || parent in tree.nodes || parent !in db
    ensures forall k :: k in tree.nodes ==>
      k in Ids(Flatten(pdfItems)) || AncestorOrSelf(db, ParentIds(Flatten(pdfItems)), k)
    ensures forall k :: k in tree.nodes ==>
      tree.nodes[k].collectionPDFItems == (if tree.InTree(k) then BoundItems(pdfItems, k) else [])
    ensures Linked(tree.nodes, tree.roots)
  {
    var collections := AllPdfItemCollections(pdfItems, db);
    var nodes := MakeNodes(collections);
    tree := new CollectionTree.Build(nodes);
    ghost var built := tree.nodes;
    BindPdfItems(tree, pdfItems);
    forall k | k in tree.nodes
      ensures CollectionOf(tree.nodes[k]) == collections[k]
    {
      assert CollectionOf(tree.nodes[k]) == CollectionOf(built[k]) == CollectionOf(nodes[k]);
    }
    assert tree.nodes.Keys == collections.Keys;
    ShapeKeepsLinks(built, tree.nodes, tree.roots);
  }
}
