/** Resolving the database's PDF attachments to files and collections. The database queries
    and the directory listings are inputs: a listing maps each existing directory to the names
    of its entries, and a collection lookup maps ids to rows. */
module Resolver {
  import opened Records

  // ---------------------------------------------------------------------------
  // File names and paths.

  /** The prefix Zotero puts before the names of files kept in its storage directory. */
  const StoragePrefix: string := "storage:"

  predicate HasStoragePrefix(path: string)
  {
    |path| >= |StoragePrefix| && path[..|StoragePrefix|] == StoragePrefix
  }

  /** The stored name with a leading `storage:` removed, once. */
  function StripStoragePrefix(path: string): (r: string)
    ensures HasStoragePrefix(path) ==> StoragePrefix + r == path
    ensures !HasStoragePrefix(path) ==> r == path
  {
    if HasStoragePrefix(path) then path[|StoragePrefix|..] else path
  }

  /** Adding the prefix and stripping it is the identity, and only one prefix is stripped. */
  lemma StripAddedPrefix(name: string)
    ensures StripStoragePrefix(StoragePrefix + name) == name
    ensures StripStoragePrefix(StoragePrefix + StoragePrefix + name) == StoragePrefix + name
  {
    assert (StoragePrefix + name)[..|StoragePrefix|] == StoragePrefix;
    assert (StoragePrefix + StoragePrefix + name)[..|StoragePrefix|] == StoragePrefix;
  }

  /** The position of the last `.` in `s`, or -1 when there is none. */
  function LastDot(s: string): (r: int)
    ensures -1 <= r < |s|
    ensures r >= 0 ==> s[r] == '.'
    ensures forall i :: r < i < |s| ==> s[i] != '.'
  {
    if s == [] then -1
    else if s[|s| - 1] == '.' then |s| - 1
    else LastDot(s[..|s| - 1])
  }

  /** `path::extension` of a file name: from the last dot on, except that `.` and `..` and
      names whose only dot is the leading one have none. */
  function Extension(name: string): string
  {
    if name == "." || name == ".." then ""
    else
      var dot := LastDot(name);
      if dot <= 0 then "" else name[dot..]
  }

  predicate IsPdfName(name: string)
  {
    Extension(name) == ".pdf"
  }

  /** A name has the `.pdf` extension exactly when it ends in `.pdf` after at least one other
      character; a hidden file named `.pdf` does not. */
  lemma PdfNameIffSuffix(name: string)
    ensures IsPdfName(name) <==> |name| > 4 && name[|name| - 4..] == ".pdf"
  {
    var dot := LastDot(name);
    if |name| > 4 && name[|name| - 4..] == ".pdf" {
      assert name[|name| - 4] == '.' && name[|name| - 3] == 'p' && name[|name| - 2] == 'd' && name[|name| - 1] == 'f';
      assert dot == |name| - 4;
    }
  }

  /** The parent directory of a path; the empty path for a bare name. */
  function Parent(p: Path): (r: Path)
    ensures p != [] ==> r + [p[|p| - 1]] == p
    ensures p == [] ==> r == []
  {
    if p == [] then [] else p[..|p| - 1]
  }

  /** The storage directory of an attachment: `storage/<key>` beside the database file. */
  function StorageDir(dbPath: Path, key: string): Path
  {
    Parent(dbPath) + ["storage", key]
  }

  /** The PDF files among a directory's entries, in listing order. */
  function PdfFiles(dir: Path, names: seq<string>): (r: seq<Path>)
    ensures |r| <= |names|
    ensures forall f :: f in r ==> exists n :: n in names && IsPdfName(n) && f == dir + [n]
    ensures forall n :: n in names && IsPdfName(n) ==> dir + [n] in r
  {
    if names == [] then []
    else
      var init := PdfFiles(dir, names[..|names| - 1]);
      var n := names[|names| - 1];
      assert names == names[..|names| - 1] + [n];
      init + (if IsPdfName(n) then [dir + [n]] else [])
  }

  // ---------------------------------------------------------------------------
  // pdf_items

  /** What `pdf_items` makes of one attachment: the stored name without its `storage:` prefix,
      and the attachment's file when its storage directory exists and holds exactly one PDF. */
  function Resolve(a: PDFAttachment, dbPath: Path, listing: map<Path, seq<string>>): (item: PDFItem)
    ensures item.pdfAttachment == a.(path := StripStoragePrefix(a.path))
    ensures item.collectionItems == []
    ensures var dir := StorageDir(dbPath, a.key);
      item.pdfFilePath != [] <==> dir in listing && |PdfFiles(dir, listing[dir])| == 1
    ensures var dir := StorageDir(dbPath, a.key);
      item.pdfFilePath != [] ==> exists n :: n in listing[dir] && IsPdfName(n) && item.pdfFilePath == dir + [n]
  {
    var dir := StorageDir(dbPath, a.key);
    var file: Path :=
      if dir in listing && |PdfFiles(dir, listing[dir])| == 1 then PdfFiles(dir, listing[dir])[0] else [];
    assert file != [] ==> file in PdfFiles(dir, listing[dir]);
    PDFItem(a.(path := StripStoragePrefix(a.path)), file, [])
  }

  /** The directory scan of `pdf_items`: the entries with a `.pdf` extension, in listing order. */
  method ScanPdfFiles(storageDir: Path, entries: seq<string>) returns (pdfFiles: seq<Path>)
    ensures pdfFiles == PdfFiles(storageDir, entries)
  {
    pdfFiles := [];
    for j := 0 to |entries|
      invariant pdfFiles == PdfFiles(storageDir, entries[..j])
    {
      assert entries[..j + 1][..j] == entries[..j];
      if Extension(entries[j]) == ".pdf" {
        pdfFiles := pdfFiles + [storageDir + [entries[j]]];
      }
    }
    assert entries[..|entries|] == entries;
  }

  /** The body of `pdf_items` for one item: strip the storage prefix from the stored name, then
      take the only PDF file of the attachment's storage directory, if there is exactly one. */
  method ResolveItem(item0: PDFItem, dbPath: Path, listing: map<Path, seq<string>>) returns (item: PDFItem)
    requires item0.pdfFilePath == [] && item0.collectionItems == []
    ensures item == Resolve(item0.pdfAttachment, dbPath, listing)
  {
    item := item0;
    var path := item.pdfAttachment.path;
    if |path| >= |StoragePrefix| && path[..|StoragePrefix|] == StoragePrefix {
      item := item.(pdfAttachment := item.pdfAttachment.(path := path[|StoragePrefix|..]));
    }
    var storageDir := Parent(dbPath) + ["storage", item.pdfAttachment.key];
    if storageDir in listing {
      var pdfFiles := ScanPdfFiles(storageDir, listing[storageDir]);
      if |pdfFiles| == 1 {
        item := item.(pdfFilePath := pdfFiles[0]);
      }
    }
  }

  /** `pdf_items`: one item per attachment, in order. */
  method PdfItems(attachments: seq<PDFAttachment>, dbPath: Path, listing: map<Path, seq<string>>)
    returns (items: seq<PDFItem>)
    ensures |items| == |attachments|
    ensures forall i :: 0 <= i < |items| ==> items[i] == Resolve(attachments[i], dbPath, listing)
  {
    items := seq(|attachments|, i requires 0 <= i < |attachments| => PDFItem(attachments[i], [], []));
    var i := 0;
    while i < |items|
      invariant 0 <= i <= |items| == |attachments|
      invariant forall j :: 0 <= j < i ==> items[j] == Resolve(attachments[j], dbPath, listing)
      invariant forall j :: i <= j < |items| ==> items[j] == PDFItem(attachments[j], [], [])
    {
      var item := ResolveItem(items[i], dbPath, listing);
      items := items[i := item];
      i := i + 1;
    }
  }


  // ---------------------------------------------------------------------------
  // retrieve_pdf_item_collections

  /** The collections an item ends up with: its own when the lookup has any, otherwise those of
      its parent item when the lookup has the parent, otherwise none. */
  function WithCollections(item: PDFItem, collectionsOf: map<int, seq<ZoteroCollection>>): (r: PDFItem)
    ensures r.pdfAttachment == item.pdfAttachment && r.pdfFilePath == item.pdfFilePath
    ensures var id := item.pdfAttachment.itemID;
      id in collectionsOf && collectionsOf[id] != [] ==> r.collectionItems == collectionsOf[id]
    ensures var id := item.pdfAttachment.itemID;
      var parent := item.pdfAttachment.parentItemID;
      (if id in collectionsOf then collectionsOf[id] else item.collectionItems) == [] ==>
        r.collectionItems == (if parent in collectionsOf then collectionsOf[parent] else [])
  {
    var id := item.pdfAttachment.itemID;
    var own := if id in collectionsOf then collectionsOf[id] else item.collectionItems;
    var parent := item.pdfAttachment.parentItemID;
    if own == [] && parent in collectionsOf then item.(collectionItems := collectionsOf[parent])
    else item.(collectionItems := own)
  }

  /** `retrieve_pdf_item_collections`: give each item its own collections, then give those still
      without any the collections of their parent item. */
  method RetrievePdfItemCollections(items: array<PDFItem>, collectionsOf: map<int, seq<ZoteroCollection>>)
    modifies items
    ensures forall i :: 0 <= i < items.Length ==> items[i] == WithCollections(old(items[i]), collectionsOf)
  {
    for i := 0 to items.Length
      invariant forall j :: 0 <= j < i ==>
        var id := old(items[j]).pdfAttachment.itemID;
        items[j] == old(items[j]).(collectionItems := if id in collectionsOf then collectionsOf[id] else old(items[j]).collectionItems)
      invariant forall j :: i <= j < items.Length ==> items[j] == old(items[j])
    {
      var id := items[i].pdfAttachment.itemID;
      if id in collectionsOf {
        items[i] := items[i].(collectionItems := collectionsOf[id]);
      }
    }
    for i := 0 to items.Length
      invariant forall j :: 0 <= j < i ==> items[j] == WithCollections(old(items[j]), collectionsOf)
      invariant forall j :: i <= j < items.Length ==>
        var id := old(items[j]).pdfAttachment.itemID;
        items[j] == old(items[j]).(collectionItems := if id in collectionsOf then collectionsOf[id] else old(items[j]).collectionItems)
    {
      if items[i].collectionItems == [] {
        var parent := items[i].pdfAttachment.parentItemID;
        if parent in collectionsOf {
          items[i] := items[i].(collectionItems := collectionsOf[parent]);
        }
      }
    }
  }

  // ---------------------------------------------------------------------------
  // all_pdf_item_collections

  /** Every collection of every item, item by item. */
  function Flatten(items: seq<PDFItem>): seq<ZoteroCollection>
  {
    if items == [] then [] else Flatten(items[..|items| - 1]) + items[|items| - 1].collectionItems
  }

  /** Every collection of every item is listed. */
  lemma {:induction false} FlattenHolds(items: seq<PDFItem>)
    ensures forall i, c :: 0 <= i < |items| && c in items[i].collectionItems ==> c in Flatten(items)
  {
    if items != [] {
      var init := items[..|items| - 1];
      FlattenHolds(init);
      assert forall i :: 0 <= i < |items| - 1 ==> items[i] == init[i];
    }
  }

  /** The ids of a list of collections. */
  function Ids(cs: seq<ZoteroCollection>): set<int>
  {
    set c | c in cs :: c.collectionID
  }

  /** Inserting the collections one after another with `try_emplace`: an id keeps the first
      collection listed with it. */
  function FirstWins(cs: seq<ZoteroCollection>): (m: map<int, ZoteroCollection>)
    ensures forall k :: k in m ==> m[k].collectionID == k
  {
    if cs == [] then map[]
    else
      var init := cs[..|cs| - 1];
      var c := cs[|cs| - 1];
      assert cs == init + [c];
      var m := FirstWins(init);
      if c.collectionID in m then m else m[c.collectionID := c]
  }

  /** The keys are exactly the listed ids, and each entry is one of the listed collections. */
  lemma {:induction false} FirstWinsKeys(cs: seq<ZoteroCollection>)
    ensures FirstWins(cs).Keys == Ids(cs)
    ensures forall k :: k in FirstWins(cs) ==> FirstWins(cs)[k] in cs
  {
    if cs != [] {
      var init := cs[..|cs| - 1];
      FirstWinsKeys(init);
      assert cs == init + [cs[|cs| - 1]];
      assert Ids(cs) == Ids(init) + {cs[|cs| - 1].collectionID};
    }
  }

  lemma FirstWinsSnoc(cs: seq<ZoteroCollection>, c: ZoteroCollection)
    ensures FirstWins(cs + [c]) ==
      if c.collectionID in FirstWins(cs) then FirstWins(cs) else FirstWins(cs)[c.collectionID := c]
  {
    assert (cs + [c])[..|cs|] == cs;
  }

  lemma FlattenSnoc(items: seq<PDFItem>, i: nat)
    requires i < |items|
    ensures Flatten(items[..i + 1]) == Flatten(items[..i]) + items[i].collectionItems
  {
    assert items[..i + 1][..i] == items[..i];
  }

  /** The entry for an id is the first collection listed with that id. */
  lemma {:induction false} FirstWinsIsFirst(cs: seq<ZoteroCollection>, i: nat)
    requires i < |cs| && forall j :: 0 <= j < i ==> cs[j].collectionID != cs[i].collectionID
    ensures cs[i].collectionID in FirstWins(cs)
    ensures FirstWins(cs)[cs[i].collectionID] == cs[i]
  {
    FirstWinsKeys(cs);
    var init := cs[..|cs| - 1];
    if i < |cs| - 1 {
      FirstWinsIsFirst(init, i);
    } else {
      FirstWinsKeys(init);
      assert cs[i].collectionID !in Ids(init);
    }
  }

  /** The parents, other than the `-1` sentinel, of listed collections that `m` lacks. */
  function MissingParents(cs: seq<ZoteroCollection>, m: map<int, ZoteroCollection>): (r: set<int>)
    ensures forall p :: p in r <==> p != NoParent && p !in m && exists c :: c in cs && c.parentCollectionID == p
  {
    set c | c in cs && c.parentCollectionID != NoParent && c.parentCollectionID !in m :: c.parentCollectionID
  }

  /** `try_emplace` of each collection of one item, in order. */
  method EmplaceAll(m0: map<int, ZoteroCollection>, cs: seq<ZoteroCollection>, ghost done: seq<ZoteroCollection>)
    returns (m: map<int, ZoteroCollection>)
    requires m0 == FirstWins(done)
    ensures m == FirstWins(done + cs)
  {
    m := m0;
    assert done + cs[..0] == done;
    for j := 0 to |cs|
      invariant m == FirstWins(done + cs[..j])
    {
      assert done + cs[..j + 1] == (done + cs[..j]) + [cs[j]];
      FirstWinsSnoc(done + cs[..j], cs[j]);
      if cs[j].collectionID !in m {
        m := m[cs[j].collectionID := cs[j]];
      }
    }
    assert cs[..|cs|] == cs;
  }

  /** The first loop of `all_pdf_item_collections`: every collection of every item, first wins. */
  method CollectFirst(items: seq<PDFItem>) returns (m: map<int, ZoteroCollection>)
    ensures m == FirstWins(Flatten(items))
  {
    m := map[];
    for i := 0 to |items|
      invariant m == FirstWins(Flatten(items[..i]))
    {
      m := EmplaceAll(m, items[i].collectionItems, Flatten(items[..i]));
      FlattenSnoc(items, i);
    }
    assert items[..|items|] == items;
  }

  /** The second loop: the parents of the items' collections that the map lacks. */
  method InitialMissing(items: seq<PDFItem>, m: map<int, ZoteroCollection>) returns (missing: set<int>)
    ensures missing == MissingParents(Flatten(items), m)
  {
    missing := {};
    for i := 0 to |items|
      invariant missing == MissingParents(Flatten(items[..i]), m)
    {
      var cs := items[i].collectionItems;
      for j := 0 to |cs|
        invariant missing == MissingParents(Flatten(items[..i]) + cs[..j], m)
      {
        assert Flatten(items[..i]) + cs[..j + 1] == (Flatten(items[..i]) + cs[..j]) + [cs[j]];
        var parent := cs[j].parentCollectionID;
        if parent != NoParent && parent !in m {
          missing := missing + {parent};
        }
      }
      assert items[..i + 1][..i] == items[..i] && cs[..|cs|] == cs;
    }
    assert items[..|items|] == items;
  }

  /** `parent_collections`: the requested ids the lookup has rows for. */
  function Fetched(ids: set<int>, db: map<int, ZoteroCollection>): (r: set<int>)
    ensures forall id :: id in r <==> id in ids && id in db
  {
    ids * db.Keys
  }

  /** 1 when a round can fetch rows but all of them are already in the map, so it adds nothing. */
  function Stalled(missing: set<int>, keys: set<int>, db: map<int, ZoteroCollection>): nat
  {
    var fetched := Fetched(missing, db);
    if fetched != {} && fetched <= keys then 1 else 0
  }

  /** Every entry's parent is the sentinel, in the map, unknown to the lookup, or still awaited. */
  ghost predicate ParentsCovered(m: map<int, ZoteroCollection>, db: map<int, ZoteroCollection>, awaited: set<int>)
  {
    forall k :: k in m ==>
      var parent := m[k].parentCollectionID;
      parent == NoParent || parent in m || parent !in db || parent in awaited
  }

  /** `p` follows the lookup's parent links: each id but the last has a row, whose parent is
      the next id. */
  ghost predicate DbChain(db: map<int, ZoteroCollection>, p: seq<int>)
  {
    |p| >= 1 && forall i :: 0 <= i < |p| - 1 ==> p[i] in db && db[p[i]].parentCollectionID == p[i + 1]
  }

  /** `k` is one of `from`, or is reached from one of them by following the lookup's parent
      links. */
  ghost predicate AncestorOrSelf(db: map<int, ZoteroCollection>, from: set<int>, k: int)
  {
    exists p :: DbChain(db, p) && p[0] in from && p[|p| - 1] == k
  }

  lemma AncestorBase(db: map<int, ZoteroCollection>, from: set<int>, k: int)
    requires k in from
    ensures AncestorOrSelf(db, from, k)
  {
    assert DbChain(db, [k]);
  }

  /** One more parent link keeps a chain a chain. */
  lemma AncestorStep(db: map<int, ZoteroCollection>, from: set<int>, k: int)
    requires AncestorOrSelf(db, from, k) && k in db
    ensures AncestorOrSelf(db, from, db[k].parentCollectionID)
  {
    var p :| DbChain(db, p) && p[0] in from && p[|p| - 1] == k;
    var q := p + [db[k].parentCollectionID];
    assert DbChain(db, q) by {
      forall i | 0 <= i < |q| - 1
        ensures q[i] in db && db[q[i]].parentCollectionID == q[i + 1]
      {
        if i < |p| - 1 {
          assert q[i] == p[i] && q[i + 1] == p[i + 1];
        }
      }
    }
    assert q[0] == p[0] && q[|q| - 1] == db[k].parentCollectionID;
  }

  lemma AncestorWider(db: map<int, ZoteroCollection>, from: set<int>, wider: set<int>, k: int)
    requires from <= wider && AncestorOrSelf(db, from, k)
    ensures AncestorOrSelf(db, wider, k)
  {
    var p :| DbChain(db, p) && p[0] in from && p[|p| - 1] == k;
    assert p[0] in wider;
  }

  /** The parent ids named by a list of collections. */
  function ParentIds(cs: seq<ZoteroCollection>): (r: set<int>)
    ensures forall p :: p in r <==> exists c :: c in cs && c.parentCollectionID == p
  {
    set c | c in cs :: c.parentCollectionID
  }

  /** Growing the map by keys of `a` shrinks the part of `a` it lacks. */
  lemma FewerLacking(a: set<int>, b: set<int>, b': set<int>)
    requires b <= b' && b' - b <= a
    ensures |a - b'| <= |a - b|
    ensures b' != b ==> |a - b'| < |a - b|
  {
    assert a - b == (a - b') + (b' - b);
    assert (a - b') * (b' - b) == {};
  }

  /** A round either adds a row, or follows a round that could add one, or ends the worklist:
      so the rounds cannot go on for ever. */
  lemma RoundProgress(db: map<int, ZoteroCollection>, keys0: set<int>, keys: set<int>, awaited: set<int>, missing: set<int>)
    requires awaited != {}
    requires keys0 <= keys <= keys0 + Fetched(awaited, db)
    requires Fetched(awaited, db) <= keys
    requires missing * keys0 == {}
    requires Fetched(awaited, db) == {} ==> missing == {}
    ensures || |db.Keys - keys| < |db.Keys - keys0|
            || (&& |db.Keys - keys| == |db.Keys - keys0|
                && (|| Stalled(missing, keys, db) < Stalled(awaited, keys0, db)
                    || (Stalled(missing, keys, db) == Stalled(awaited, keys0, db) && |missing| < |awaited|)))
  {
    if keys != keys0 {
      FewerLacking(db.Keys, keys0, keys);
    } else {
      var now := Fetched(missing, db);
      assert now * keys == {} by {
        assert now <= missing;
      }
      assert Stalled(missing, keys, db) == 0 by {
        if now != {} {
          HasMember(now);
          var x :| x in now;
          assert x !in keys;
        }
      }
      if Stalled(awaited, keys0, db) == 0 {
        assert missing == {};
      }
    }
  }

  /** One round of the worklist: fetch the awaited ids, add each fetched row whose id the map
      lacks, and await each fetched row's parent that the map lacks at that moment. */
  method FetchRound(m0: map<int, ZoteroCollection>, awaited: set<int>, db: map<int, ZoteroCollection>,
                    ghost base: set<int>)
    returns (m: map<int, ZoteroCollection>, missing: set<int>)
    requires forall k :: k in db ==> db[k].collectionID == k
    requires ParentsCovered(m0, db, awaited)
    requires forall x :: x in awaited ==> AncestorOrSelf(db, base, x)
    ensures forall k :: k in m0 ==> k in m && m[k] == m0[k]
    ensures forall k :: k in m && k !in m0 ==> k in db && m[k] == db[k]
    ensures m0.Keys <= m.Keys <= m0.Keys + Fetched(awaited, db)
    ensures Fetched(awaited, db) <= m.Keys
    ensures missing * m0.Keys == {}
    ensures Fetched(awaited, db) == {} ==> missing == {}
    ensures ParentsCovered(m, db, missing)
    ensures forall k :: k in m && k !in m0 ==> AncestorOrSelf(db, base, k)
    ensures forall x :: x in missing ==> AncestorOrSelf(db, base, x)
  {
    m := m0;
    var res := Fetched(awaited, db);
    missing := {};
    var todo := res;
    while todo != {}
      invariant todo <= res
      invariant forall k :: k in m0 ==> k in m && m[k] == m0[k]
      invariant forall k :: k in m && k !in m0 ==> k in db && m[k] == db[k]
      invariant m.Keys <= m0.Keys + res
      invariant forall id :: id in res && id !in todo ==> id in m
      invariant forall x :: x in missing ==> x !in m0
      invariant m0.Keys <= m.Keys
      invariant res - todo <= m.Keys
      invariant missing * m0.Keys == {}
      invariant res == {} ==> missing == {}
      invariant ParentsCovered(m, db, missing + todo)
      invariant forall k :: k in m && k !in m0 ==> AncestorOrSelf(db, base, k)
      invariant forall x :: x in missing ==> AncestorOrSelf(db, base, x)
      decreases todo
    {
      HasMember(todo);
      var id :| id in todo;
      var c := db[id];
      AncestorStep(db, base, id);
      if c.collectionID !in m {
        m := m[c.collectionID := c];
      }
      if c.parentCollectionID !in m {
        missing := missing + {c.parentCollectionID};
      }
      todo := todo - {id};
    }
  }

  /** The worklist of `all_pdf_item_collections`: rounds until nothing is missing. Entries
      already present are kept; every new entry is the lookup's row for one of the missing ids
      or for an ancestor of one; afterwards each entry's parent is the sentinel, in the map, or
      unknown to the lookup. */
  method CloseAncestry(m0: map<int, ZoteroCollection>, missing0: set<int>, db: map<int, ZoteroCollection>)
    returns (m: map<int, ZoteroCollection>)
    requires forall k :: k in db ==> db[k].collectionID == k
    requires ParentsCovered(m0, db, missing0)
    ensures forall k :: k in m0 ==> k in m && m[k] == m0[k]
    ensures forall k :: k in m && k !in m0 ==> k in db && m[k] == db[k]
    ensures ParentsCovered(m, db, {})
    ensures forall k :: k in m && k !in m0 ==> AncestorOrSelf(db, missing0, k)
  {
    m := m0;
    var missing := missing0;
    forall x | x in missing0
      ensures AncestorOrSelf(db, missing0, x)
    {
      AncestorBase(db, missing0, x);
    }
    while missing != {}
      invariant forall k :: k in m0 ==> k in m && m[k] == m0[k]
      invariant forall k :: k in m && k !in m0 ==> k in db && m[k] == db[k]
      invariant ParentsCovered(m, db, missing)
      invariant forall k :: k in m && k !in m0 ==> AncestorOrSelf(db, missing0, k)
      invariant forall x :: x in missing ==> AncestorOrSelf(db, missing0, x)
      decreases |db.Keys - m.Keys|, Stalled(missing, m.Keys, db), |missing|
    {
      ghost var keys0, awaited := m.Keys, missing;
      m, missing := FetchRound(m, missing, db, missing0);
      RoundProgress(db, keys0, m.Keys, awaited, missing);
    }
  }

  /** `all_pdf_item_collections`: the items' collections, first listed wins, closed under the
      lookup's parents, and holding nothing else: each other entry is an ancestor of an item's
      collection. */
  method AllPdfItemCollections(items: seq<PDFItem>, db: map<int, ZoteroCollection>)
    returns (m: map<int, ZoteroCollection>)
    requires forall k :: k in db ==> db[k].collectionID == k
    ensures forall k :: k in m ==> m[k].collectionID == k
    ensures forall i, c :: 0 <= i < |items| && c in items[i].collectionItems ==> c.collectionID in m
    ensures var cs := Flatten(items);
      forall i :: 0 <= i < |cs| && (forall j :: 0 <= j < i ==> cs[j].collectionID != cs[i].collectionID) ==>
        cs[i].collectionID in m && m[cs[i].collectionID] == cs[i]
    ensures forall k :: k in m && k !in Ids(Flatten(items)) ==> k in db && m[k] == db[k]
    ensures forall k :: k in m ==> m[k] in Flatten(items) || (k in db && m[k] == db[k])
    ensures ParentsCovered(m, db, {})
    ensures forall k :: k in m ==> k in Ids(Flatten(items)) || AncestorOrSelf(db, ParentIds(Flatten(items)), k)
  {
    var first := CollectFirst(items);
    var missing := InitialMissing(items, first);
    FirstWinsKeys(Flatten(items));
    m := CloseAncestry(first, missing, db);
    FlattenHolds(items);
    var cs := Flatten(items);
    forall k | k in m && k !in Ids(cs)
      ensures AncestorOrSelf(db, ParentIds(cs), k)
    {
      AncestorWider(db, missing, ParentIds(cs), k);
    }
    forall i | 0 <= i < |cs| && (forall j :: 0 <= j < i ==> cs[j].collectionID != cs[i].collectionID)
      ensures cs[i].collectionID in m && m[cs[i].collectionID] == cs[i]
    {
      FirstWinsIsFirst(cs, i);
    }
  }
}
