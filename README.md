# zotero_to_file_tree, modelled in Dafny

`zotero_to_file_tree` copies the PDF attachments of a Zotero library into a directory tree
that mirrors the library's collections. It does this in several steps:

1. It locates `zotero.sqlite` (`create_zotero_db_path`) and checks the `version` table against
   the one schema it supports (`is_supported_zotero_db`).
2. It resolves every PDF attachment to the single PDF file in its storage directory
   (`pdf_items`).
3. It keeps the attachments whose file exists and gives each one its collections, or else its
   parent item's (`create_pdfitems`, `retrieve_pdf_item_collections`).
4. It gathers those collections with all their ancestors (`all_pdf_item_collections`).
5. It makes one node per collection and links the nodes into a `CollectionTree` (`build`).
6. It binds each file to the nodes of its collections, never twice under one name
   (`create_collectiontree`).
7. It walks the tree breadth first, creating `outputDir/<root>/<child>/...` for every node and
   copying the node's files into that directory (`write_pdfs`).

The model has eight modules:

- `Records`: the record types and their id-only orderings.
- `ErrorCodes`: the error enumeration, its category name and messages.
- `DbInfo`: the `version` table, read into a record, the support check, and the fixed-width
  table printed for it.
- `Resolver`: the attachment, file and collection resolution in `ZoteroDB.cpp`. It includes the
  worklist that closes the collection map under parents.
- `Forest`: the shape of a tree held as an arena. Nodes are keyed by collection id and list
  their children by key. The module covers reachability from the roots, breadth-first walks,
  erasure, and relative paths.
- `Tree`: the class `CollectionTree` (`build`, `find`, `erase_collection_node`, `remove`,
  `write_pdfs`) and the lemmas about the `write_pdfs` walk.
- `OutputFs`: the output filesystem as a class with a set of directories and a map from each
  file to the source its contents were copied from. It also holds `Copies`, the reference run
  of a list of copies: a copy is skipped when its destination exists and overwriting is off,
  and otherwise replaces the destination. The walk of `write_pdfs` is proved to be that run.
- `ZoteroToFileTree`: the driver steps that feed the tree.

The database and the filesystem are inputs to the model:

- a query result is a sequence of rows, or a map from id to row;
- a directory listing is a map from a directory to its entry names;
- `exists` and `is_directory` are sets of present paths.

Paths are sequences of components.

## Model

| member | source | states |
|---|---|---|
| Records.ComparePDFItems | src/zotero_to_file_tree_src/CollectionTree.h:22 | Two bound files are equivalent exactly when their item ids are equal, and less exactly when the id is smaller. |
| Records.PDFItemOrderIgnoresPayload | src/zotero_to_file_tree_src/CollectionTree.h:22 | Changing a bound file's name or path never changes a comparison. Swapping the operands reverses it. |
| Records.CompareNodes | src/zotero_to_file_tree_src/CollectionTree.h:37 | Nodes are ordered by collection id alone. |
| Records.NodeOrderIgnoresPayload | src/zotero_to_file_tree_src/CollectionTree.h:37 | Parent, name, files and children never affect a node comparison, and the order is antisymmetric. |
| Records.CompareCollections | src/zotero_to_file_tree_src/ZoteroCollection.h:17 | Collections are ordered by collection id alone. |
| ErrorCodes.Value | src/zotero_to_file_tree_src/ErrorCodes.hpp:9-16 | Values lie in 0..4, and 0 is exactly `SUCCESS`. |
| ErrorCodes.ValueInjective | src/zotero_to_file_tree_src/ErrorCodes.hpp:9-16 | Distinct enumerators have distinct values, and converting a value back gives the enumerator. |
| ErrorCodes.FromValue | src/zotero_to_file_tree_src/ErrorCodes.cpp:12 | An integer names an enumerator exactly when it lies in 0..4, and then that enumerator has this value. |
| ErrorCodes.Name | src/zotero_to_file_tree_src/ErrorCodes.cpp:6-9 | The category name is always `ZoteroToFileTreeErrorCategory`. |
| ErrorCodes.Message | src/zotero_to_file_tree_src/ErrorCodes.cpp:10-21 | The unknown-error text is returned exactly for values other than 0, 2, 3 and 4, and 0 gives `Success`. |
| ErrorCodes.MessageOfCode | src/zotero_to_file_tree_src/ErrorCodes.cpp:13-19 | Only `CLI_PARSE_ERROR` among the enumerators gets the unknown text. Every other enumerator's message belongs to it alone. |
| ErrorCodes.MakeErrorCode | src/zotero_to_file_tree_src/ErrorCodes.cpp:23-27 | The error code carries the enumerator's integer in this program's category, and that integer converts back to the enumerator. |
| DbInfo.ToUint32 | src/zotero_to_file_tree_src/ZoteroDB.cpp:28 | The signed value is converted to unsigned modulo 2^32, and non-negative values are unchanged. |
| DbInfo.InsertDBValue | src/zotero_to_file_tree_src/ZoteroDB.cpp:12-30 | Each of the nine keys sets exactly its own field (`delete` sets `deletes`) and leaves the other eight. Any other key leaves the record unchanged. |
| DbInfo.InfoFromRowsLastWins | src/zotero_to_file_tree_src/ZoteroDB.cpp:133-140 | After all rows, each field holds the converted version of the last row carrying its key, or 0 when no row does. |
| DbInfo.ReadDbInfo | src/zotero_to_file_tree_src/ZoteroDB.cpp:126-140 | The loop feeds every row with a non-null name to `insertDBValue` in order. Fields without a row stay 0. |
| DbInfo.IsSupported | src/zotero_to_file_tree_src/ZoteroDB.cpp:190-202 | A record is supported exactly when userdata is 120 and globalSchema is 21. |
| DbInfo.SupportIgnoresOtherFields | src/zotero_to_file_tree_src/ZoteroDB.cpp:169-203 | Records that agree on userdata and globalSchema get the same verdict, and the supported record passes. |
| DbInfo.IsSupportedZoteroDb | src/zotero_to_file_tree_src/ZoteroDB.cpp:185-203 | A library is supported exactly when its last `userdata` row says 120 and its last `globalSchema` row says 21. |
| DbInfo.DecimalRoundTrip | src/zotero_to_file_tree_src/ZoteroDB.cpp:156-164 | The decimal text of a value reads back as that value. |
| DbInfo.NoLeadingZero | src/zotero_to_file_tree_src/ZoteroDB.cpp:156-164 | A value's decimal text starts with `0` only when the value is 0. |
| DbInfo.RowLineShape | src/zotero_to_file_tree_src/ZoteroDB.cpp:156-164 | A row is 30 characters, with bars at columns 0, 16 and 28 and a final line break. The name starts at column 1 and is padded with spaces to column 16 (`{:<15}`). The value cell is the decimal text with no leading zero, right-aligned in 11 columns behind spaces (`{:>11}`), and it reads back as the value. |
| DbInfo.FormattedSlice | src/zotero_to_file_tree_src/ZoteroDB.cpp:151-167 | The table is 344 characters long, and row i of the fields sits at offset 44 + 30i. |
| DbInfo.FormattedReadsBack | src/zotero_to_file_tree_src/ZoteroDB.cpp:151-167 | Every field row of the table has its bars and line break and carries its label, space-padded to 15 columns. Its value cell is the field's decimal text right-aligned in 11 columns, and it reads back as that field's value. |
| DbInfo.FormattedFrame | src/zotero_to_file_tree_src/ZoteroDB.cpp:151-167 | The table is 344 characters long. It starts with `ZoteroDBInfo:` and a line break, then a rule line, and it ends with the same rule line. |
| DbInfo.RuleLineShape | src/zotero_to_file_tree_src/ZoteroDB.cpp:155 | A rule line is 29 dashes and a line break (`{:-<29}` of the empty string). |
| Resolver.StripStoragePrefix | src/zotero_to_file_tree_src/ZoteroDB.cpp:296-303 | A name with the `storage:` prefix loses exactly that prefix. Any other name is unchanged. |
| Resolver.StripAddedPrefix | src/zotero_to_file_tree_src/ZoteroDB.cpp:296-303 | Stripping undoes adding the prefix, and only one prefix is stripped. |
| Resolver.PdfNameIffSuffix | src/zotero_to_file_tree_src/ZoteroDB.cpp:314 | A name has the `.pdf` extension exactly when it ends in `.pdf` after at least one other character. |
| Resolver.Parent | src/zotero_to_file_tree_src/ZoteroDB.cpp:305 | The parent path followed by the last component gives back the path. |
| Resolver.PdfFiles | src/zotero_to_file_tree_src/ZoteroDB.cpp:311-318 | The scan lists the `.pdf` entries of the directory, and only those. |
| Resolver.ScanPdfFiles | src/zotero_to_file_tree_src/ZoteroDB.cpp:311-318 | The scanning loop collects exactly the `.pdf` entries, in listing order. |
| Resolver.Resolve | src/zotero_to_file_tree_src/ZoteroDB.cpp:296-329 | The stored name is stripped. A file is set exactly when the storage directory exists and holds exactly one PDF, and then it is that PDF. |
| Resolver.ResolveItem | src/zotero_to_file_tree_src/ZoteroDB.cpp:297-330 | The loop body for one item computes what `Resolve` describes. |
| Resolver.PdfItems | src/zotero_to_file_tree_src/ZoteroDB.cpp:286-333 | There is one item per attachment, of the same length and in the same order, each resolved. |
| Resolver.WithCollections | src/zotero_to_file_tree_src/ZoteroDB.cpp:382-414 | An item found in the lookup with collections keeps them. An item still without collections gets its parent item's collections, or none. |
| Resolver.RetrievePdfItemCollections | src/zotero_to_file_tree_src/ZoteroDB.cpp:376-415 | After both passes, every item is updated as `WithCollections` says. |
| Resolver.FlattenHolds | src/zotero_to_file_tree_src/ZoteroDB.cpp:420-428 | Every collection of every item is among the collections inserted. |
| Resolver.FirstWins | src/zotero_to_file_tree_src/ZoteroDB.cpp:419-428 | Every entry of the map is keyed by its own collection id. |
| Resolver.FirstWinsKeys | src/zotero_to_file_tree_src/ZoteroDB.cpp:419-428 | The keys are exactly the inserted ids, and each entry is one of the inserted collections. |
| Resolver.FirstWinsIsFirst | src/zotero_to_file_tree_src/ZoteroDB.cpp:424-426 | With `try_emplace`, an id maps to the first collection listed with it. |
| Resolver.EmplaceAll | src/zotero_to_file_tree_src/ZoteroDB.cpp:424-427 | Inserting one item's collections continues the first-wins map of everything before them. |
| Resolver.CollectFirst | src/zotero_to_file_tree_src/ZoteroDB.cpp:419-428 | The first loop yields the first-wins map of all the items' collections. |
| Resolver.MissingParents | src/zotero_to_file_tree_src/ZoteroDB.cpp:430-446 | The missing set holds exactly the parents of listed collections that are not `-1` and not in the map. |
| Resolver.InitialMissing | src/zotero_to_file_tree_src/ZoteroDB.cpp:430-446 | The second loop computes exactly those missing parents. |
| Resolver.Fetched | src/zotero_to_file_tree_src/ZoteroDB.cpp:450 | A lookup returns exactly the requested ids it has rows for. |
| Resolver.AncestorStep | src/zotero_to_file_tree_src/ZoteroDB.cpp:462-466 | Following one more parent link of the lookup from an id reached from a set stays reached from that set. |
| Resolver.AncestorWider | src/zotero_to_file_tree_src/ZoteroDB.cpp:448-468 | An id reached from a set of ids is also reached from any larger set. |
| Resolver.FetchRound | src/zotero_to_file_tree_src/ZoteroDB.cpp:450-467 | One round keeps old entries, adds only lookup rows, and adds every fetched id. It awaits only ids not in the map before the round, and keeps every entry's parent covered. Every entry it adds and every id it awaits is reached from the base ids through the lookup's parent links. |
| Resolver.RoundProgress | src/zotero_to_file_tree_src/ZoteroDB.cpp:448-468 | Each round adds a row, or follows a round that could, or empties the worklist. So the worklist terminates. |
| Resolver.CloseAncestry | src/zotero_to_file_tree_src/ZoteroDB.cpp:448-468 | The worklist terminates. Old entries are kept, and new ones are lookup rows. Each new key is one of the initially missing ids or is reached from one through the lookup's parent links. Afterwards every entry's parent is `-1`, a key, or unknown to the lookup. |
| Resolver.AllPdfItemCollections | src/zotero_to_file_tree_src/ZoteroDB.cpp:416-471 | Every collection id of every item is a key, holding the first collection listed with it. Every other key is a lookup row and an ancestor of an item's collection: it is reached from that collection's parent through the lookup's parent links. Every parent is `-1`, a key, or unknown to the lookup. |
| Forest.LinkedIsWellFormed | src/zotero_to_file_tree_src/CollectionTree.h:27-32 | Children and roots linked by parent id, with unique ids and no repeats, form a well-formed arena. |
| Forest.PathUnique | src/zotero_to_file_tree_src/CollectionTree.cpp:71-91 | Every reachable node is reached along exactly one path from a root. |
| Forest.AtMostOneOwner | src/zotero_to_file_tree_src/CollectionTree.cpp:71-81 | A node is listed as a child by at most one node, and a listed child is never a root. |
| Forest.DanglingUnreachable | src/zotero_to_file_tree_src/CollectionTree.cpp:73-91 | A node whose parent id is neither `-1` nor a node is never reachable. |
| Forest.CycleUnreachable | src/zotero_to_file_tree_src/CollectionTree.cpp:71-91 | Nodes on a cycle of parent ids, including a node that is its own parent, are never reachable. |
| Forest.ReachableCases | src/zotero_to_file_tree_src/CollectionTree.cpp:15-23 | A reachable node is a root, or a listed child of its reachable parent. |
| Forest.ClosedSetHoldsReachable | src/zotero_to_file_tree_src/CollectionTree.cpp:11-23 | A set that holds the roots and is closed under children holds every reachable node. |
| Forest.BfsStart | src/zotero_to_file_tree_src/CollectionTree.cpp:11-13 | The walk's invariant holds with the roots queued and nothing popped. |
| Forest.BfsStep | src/zotero_to_file_tree_src/CollectionTree.cpp:15-23 | Popping the head and queueing its children keeps the invariant, with no repeats in the queue, and pops a node not popped before. |
| Forest.BfsDone | src/zotero_to_file_tree_src/CollectionTree.cpp:15-25 | When the queue is empty, every reachable node has been popped. |
| Forest.Erased | src/zotero_to_file_tree_src/CollectionTree.cpp:27-40 | Erasing the first match shortens a list that has the key by one, and changes nothing otherwise. |
| Forest.ErasedAt | src/zotero_to_file_tree_src/CollectionTree.cpp:30-35 | Erasing removes only the first match and keeps the other elements in order. |
| Forest.ErasedNoDups | src/zotero_to_file_tree_src/CollectionTree.cpp:27-40 | On a list without repeats, erasing removes exactly that key. |
| Forest.EraseRoot | src/zotero_to_file_tree_src/CollectionTree.cpp:43-44 | Erasing a root keeps the arena well formed and makes that node unreachable. |
| Forest.EraseChild | src/zotero_to_file_tree_src/CollectionTree.cpp:57-58 | Erasing a child from its parent keeps the arena well formed and makes the child unreachable. |
| Forest.RelPathStep | src/zotero_to_file_tree_src/CollectionTree.cpp:106-119 | A root's relative path is its name. A child's is its parent's followed by its name. |
| Forest.RelPathPrefix | src/zotero_to_file_tree_src/CollectionTree.cpp:121-122 | Each prefix of a node's relative path is the relative path of one of its ancestors. |
| Forest.ShapeKeepsTree | src/zotero_to_file_tree_src/ZoteroToFileTree.cpp:55-81 | Changing only the files of nodes keeps the arena well formed and keeps its children lists, hence its reachable set. |
| Forest.ShapeKeepsLinks | src/zotero_to_file_tree_src/ZoteroToFileTree.cpp:55-81 | Changing only the files of nodes keeps the links `build` made. |
| Tree.LinkStep | src/zotero_to_file_tree_src/CollectionTree.cpp:73-79 | Linking one more node under its parent lists it there once and changes no other list. |
| Tree.LinkChildren | src/zotero_to_file_tree_src/CollectionTree.cpp:71-81 | Every node is listed, once, under its parent when the parent is not `-1` and is a node. No other list changes, and the payloads are kept. |
| Tree.CollectRoots | src/zotero_to_file_tree_src/CollectionTree.cpp:85-91 | The roots are exactly the nodes whose parent is `-1`, each listed once. |
| Tree.CollectionTree.Build | src/zotero_to_file_tree_src/CollectionTree.cpp:68-94 | The result is well formed and has the given nodes with their payloads. Children and roots are linked by parent id for any visiting order of the map. |
| Tree.CollectionTree.Find | src/zotero_to_file_tree_src/CollectionTree.cpp:9-26 | The result is the node with that id exactly when such a node is reachable from the roots, and none otherwise. The tree is unchanged. |
| Tree.CollectionTree.EraseCollectionNode | src/zotero_to_file_tree_src/CollectionTree.cpp:27-40 | It returns true exactly when some entry has the id. It erases only the first such entry and keeps the rest in order. |
| Tree.CollectionTree.Remove | src/zotero_to_file_tree_src/CollectionTree.cpp:41-67 | It succeeds exactly when the node is reachable, trying the roots first and then its parent's list. Afterwards the node is unreachable, only that one entry is gone, and the tree stays well formed. |
| Tree.CollectionTree.EraseFromChildren | src/zotero_to_file_tree_src/CollectionTree.cpp:46-64 | Below the roots, it erases the node from its parent's children exactly when the node is reachable. |
| Tree.CollectionTree.FindListing | src/zotero_to_file_tree_src/CollectionTree.cpp:52-64 | The walk meets a node listing the id exactly when that id is reachable, and returns the list with the id erased. |
| Tree.CopyStep | src/zotero_to_file_tree_src/CollectionTree.cpp:124-127 | Copying or skipping one more file keeps the per-node copy invariant. |
| Tree.NodeJobsStep | src/zotero_to_file_tree_src/CollectionTree.cpp:124-127 | Skipping or copying one more file is the next step of the reference run of the node's copies. |
| Tree.WriteNodeItems | src/zotero_to_file_tree_src/CollectionTree.cpp:121-127 | It creates the node's directory with its ancestors. Every file ends up at its destination, counted as written or skipped. It skips nothing when overwriting, and writes nothing when all destinations already exist and overwriting is off. The files and both counts are exactly those of `Copies` over the node's files in order: a copy is skipped exactly when its destination exists and overwriting is off, and otherwise it replaces the destination. |
| Tree.VisitStep | src/zotero_to_file_tree_src/CollectionTree.h:60 | Visiting one more node adds its files to the count. |
| Tree.WriteStep | src/zotero_to_file_tree_src/CollectionTree.cpp:121-127 | Handling one more tree node keeps the directories and files written so far consistent. |
| Tree.DirsStep | src/zotero_to_file_tree_src/CollectionTree.cpp:121-122 | Creating a node's directory adds only tree directories. |
| Tree.FilesStep | src/zotero_to_file_tree_src/CollectionTree.cpp:124-127 | Copying a node's files adds only copies of tree files at their destinations. |
| Tree.DestinationsPresent | src/zotero_to_file_tree_src/CollectionTree.h:56-62 | Destinations that existed at the start still exist later in the walk. |
| Tree.ChildPairs | src/zotero_to_file_tree_src/CollectionTree.cpp:116-119 | Each child is queued with its parent's path followed by its own name. |
| Tree.ChildPairsFacts | src/zotero_to_file_tree_src/CollectionTree.cpp:116-119 | The queued children are tree nodes, each carrying its relative path. |
| Tree.QueueStep | src/zotero_to_file_tree_src/CollectionTree.cpp:111-119 | Popping the head and queueing its children keeps every queued path equal to its node's relative path. |
| Tree.RootPairs | src/zotero_to_file_tree_src/CollectionTree.cpp:106-109 | Each root is queued with its own name as its path. |
| Tree.RootQueue | src/zotero_to_file_tree_src/CollectionTree.cpp:104-109 | The first loop queues the roots in order, each with its relative path. |
| Tree.WalkStart | src/zotero_to_file_tree_src/CollectionTree.cpp:104-109 | The walk's invariant holds before any node is handled. |
| Tree.WalkAdvance | src/zotero_to_file_tree_src/CollectionTree.cpp:111-128 | Handling the head of the queue keeps the walk's invariant and leaves fewer nodes to visit. |
| Tree.WalkJobsCount | src/zotero_to_file_tree_src/CollectionTree.cpp:111-127 | The walk asks for one copy per file of the visited nodes. |
| Tree.WalkJobsSound | src/zotero_to_file_tree_src/CollectionTree.cpp:121-127 | Every copy the walk asks for takes a file of a tree node to that file's destination. |
| Tree.WalkJobsComplete | src/zotero_to_file_tree_src/CollectionTree.cpp:121-127 | Every file of every visited node is copied to its destination by one of the walk's copies. |
| Tree.CopiesAdvance | src/zotero_to_file_tree_src/CollectionTree.cpp:111-127 | Running one more node's copies extends the reference run by that node's copies. |
| Tree.WalkNode | src/zotero_to_file_tree_src/CollectionTree.cpp:112-127 | One round of the loop keeps the walk's invariant and the reference run, and makes progress. |
| Tree.WalkDone | src/zotero_to_file_tree_src/CollectionTree.cpp:111-128 | When the queue is empty, exactly the tree nodes were visited, each has its directory, and every file has its destination. |
| Tree.WriteForest | src/zotero_to_file_tree_src/CollectionTree.h:56-62 | Each tree node is visited once, and the counts add up to their files. Overwriting skips nothing, and without overwriting a run over existing destinations writes nothing. The files and counts are those of `Copies` over every visited node's files. Overwriting, each destination holds the last source copied to it. Otherwise old files stay, each new destination holds its first source, and `skipped` counts the copies whose destination already existed. |
| Tree.CollectionTree.WritePdfs | src/zotero_to_file_tree_src/CollectionTree.cpp:96-129 | Every tree node gets its directory and every file its destination. Only tree directories and copies of tree files are added, and existing files survive unless overwriting is asked for. The result is `Copies` over the tree's files in walk order. Overwriting replaces every destination with the last source copied to it. Without overwriting, `skipped` counts the copies whose destination already existed, as the caller's "existing PDFs skipped" reports. |
| OutputFs.Prefixes | src/zotero_to_file_tree_src/CollectionTree.cpp:122 | The directories created are the path and its non-empty prefixes. |
| OutputFs.FileSystem.FileExists | src/zotero_to_file_tree_src/mainpage.hpp:35-37 | A file exists exactly when it is in the filesystem. |
| OutputFs.FileSystem.CreateDirectories | src/zotero_to_file_tree_src/CollectionTree.cpp:122 | The directory and its ancestors exist afterwards, and no file changes. |
| OutputFs.FileSystem.Copy | src/zotero_to_file_tree_src/CollectionTree.cpp:126 | The destination holds the source's contents, and nothing else changes. |
| OutputFs.Copies | src/zotero_to_file_tree_src/CollectionTree.h:56-62 | A run of copies counts every copy as written or skipped, skips nothing when overwriting, and keeps every existing file name. |
| OutputFs.CopiesAppend | src/zotero_to_file_tree_src/CollectionTree.cpp:111-127 | Running two lists of copies one after the other is running their concatenation. |
| OutputFs.CopiesShift | src/zotero_to_file_tree_src/CollectionTree.h:60 | The counters a run starts from are only added to. |
| OutputFs.CopiesOverwrite | src/zotero_to_file_tree_src/CollectionTree.h:56-62 | Overwriting, every destination ends up with the last source copied to it, and other files are unchanged. |
| OutputFs.CopiesKeep | src/zotero_to_file_tree_src/CollectionTree.h:56-62 | Without overwriting, files that existed are unchanged and each new destination gets the first source copied to it. |
| OutputFs.CopiesSkipped | src/zotero_to_file_tree_src/ZoteroToFileTree.cpp:225-230 | Without overwriting, the skipped count is the number of copies whose destination existed when their turn came. |
| OutputFs.CopiesResult | src/zotero_to_file_tree_src/CollectionTree.h:56-62 | A run from zero counts leaves, when overwriting, each destination with its last source. Otherwise old files stay, new destinations get their first source, and `skipped` is the number of copies whose destination already existed. |
| OutputFs.PreexistingNone | src/zotero_to_file_tree_src/ZoteroToFileTree.cpp:225-230 | With distinct destinations, none of which exists at the start, nothing is skipped. |
| OutputFs.PreexistingAll | src/zotero_to_file_tree_src/ZoteroToFileTree.cpp:225-230 | When every destination exists at the start, every copy is skipped. |
| OutputFs.LaterWinsLast | src/zotero_to_file_tree_src/CollectionTree.cpp:126 | A copy that no later copy shares a destination with decides that destination when overwriting. |
| OutputFs.EarlierWinsFirst | src/zotero_to_file_tree_src/CollectionTree.cpp:126 | A copy that no earlier copy shares a destination with decides that new destination when not overwriting. |
| ZoteroToFileTree.CreateZoteroDbPath | src/zotero_to_file_tree_src/ZoteroToFileTree.cpp:132-146 | An existing non-directory is returned unchanged, and a directory gets `zotero.sqlite` appended. A missing path becomes the database file under the working directory. |
| ZoteroToFileTree.KeepExisting | src/zotero_to_file_tree_src/ZoteroToFileTree.cpp:29-32 | Exactly the items whose file exists are kept. |
| ZoteroToFileTree.KeepExistingAppend | src/zotero_to_file_tree_src/ZoteroToFileTree.cpp:29-32 | Filtering distributes over concatenation, so the kept items keep their relative order. |
| ZoteroToFileTree.RemoveMissing | src/zotero_to_file_tree_src/ZoteroToFileTree.cpp:29-32 | `remove_if`/`erase` in place leaves exactly the items with an existing file, in order. |
| ZoteroToFileTree.CreatePdfItems | src/zotero_to_file_tree_src/ZoteroToFileTree.cpp:26-35 | The result is the resolved attachments whose file exists, in order, each with its collections or its parent's. |
| ZoteroToFileTree.NodeOf | src/zotero_to_file_tree_src/ZoteroToFileTree.cpp:47-50 | A node copies the collection's id, parent and name, with no files and no children. |
| ZoteroToFileTree.MakeNodes | src/zotero_to_file_tree_src/ZoteroToFileTree.cpp:43-51 | There is one node per collection-map entry, under the same key, each copying its collection. |
| ZoteroToFileTree.BindEntry | src/zotero_to_file_tree_src/ZoteroToFileTree.cpp:64-78 | The entry is appended exactly when no entry has its name. Otherwise the list is unchanged, and unique names stay unique. |
| ZoteroToFileTree.ContainsName | src/zotero_to_file_tree_src/ZoteroToFileTree.cpp:64-67 | The search succeeds exactly when some entry has the name. |
| ZoteroToFileTree.BindCollsOnce | src/zotero_to_file_tree_src/ZoteroToFileTree.cpp:59-79 | Listing a collection several times binds the item to it once. |
| ZoteroToFileTree.BoundItems | src/zotero_to_file_tree_src/ZoteroToFileTree.cpp:55-81 | After binding, no node holds two files with the same name. |
| ZoteroToFileTree.BoundComplete | src/zotero_to_file_tree_src/ZoteroToFileTree.cpp:59-72 | Every item listing a collection has an entry of its name in that node. |
| ZoteroToFileTree.BoundSound | src/zotero_to_file_tree_src/ZoteroToFileTree.cpp:64-78 | Every entry of a node belongs to the first item that lists the node with that name. |
| ZoteroToFileTree.BindStep | src/zotero_to_file_tree_src/ZoteroToFileTree.cpp:61-79 | Handling one more collection binds the item to that node when it is in the tree, and to nothing otherwise. |
| ZoteroToFileTree.BindCollection | src/zotero_to_file_tree_src/ZoteroToFileTree.cpp:61-79 | A collection that `find` locates gets the entry unless its name is taken. An unlocated collection changes nothing, and the tree keeps its shape. |
| ZoteroToFileTree.BindItem | src/zotero_to_file_tree_src/ZoteroToFileTree.cpp:57-80 | Each tree node listed by the item gets its entry at most once. Other nodes and the shape are unchanged. |
| ZoteroToFileTree.BindPdfItems | src/zotero_to_file_tree_src/ZoteroToFileTree.cpp:55-81 | Each tree node ends with the first-wins, name-unique entries of the items listing it. Unreachable nodes get none. |
| ZoteroToFileTree.CreateCollectionTree | src/zotero_to_file_tree_src/ZoteroToFileTree.cpp:37-84 | The tree is well formed and linked, has a node for every item collection, and holds the bound files. Every node's parent is `-1`, a node, or unknown to the lookup, so every looked-up ancestor is a node. Every node is an item collection or an ancestor of one through the lookup's parent links. |

## Left out

- The SQLite queries become inputs: `pdf_attachments`, `parent_collections`, `retrieve_item_collections`, the query of `zotero_db_info` and `item_collections_query`. A query result is a sequence of rows or a map from id to row, and a collection lookup is keyed by its rows' ids.
- The filesystem becomes inputs:
  - `exists`, `is_directory`, `current_path` and `directory_iterator` are sets, a listing map and a parameter;
  - filesystem errors, exceptions and the `std::abort` paths are not modelled;
  - the order of a directory listing is whatever the listing map holds.
- `create_output_dir` is not modelled: it only has filesystem side effects.
- `ZoteroToFileTree::run`, the command line, the locale, `main.cpp` and `ZoteroToFileTreeCli.cpp` are not part of this model. The same goes for the tests, the benchmark, and the older copies in `zotero_to_file_tree.cpp` and `SqlStatements.*`.
- `fmt::print` messages (duplicate files, several PDFs in one directory, version mismatches) are not modelled.
- The parallel `for_each` and `partition` run sequentially in the model: each step writes only its own item.
- RetrievePdfItemCollections: keeps the items in place. `std::partition` may reorder them, so the model fixes one of the orders it allows. CreatePdfItems inherits that order.
- Tree.CollectionTree.WritePdfs: the traversal follows `CollectionTree.cpp:96-129`. The overwrite flag and the `{written, skipped}` counts follow the header `CollectionTree.h:56-62` and its caller. The `.cpp` body takes no flag, returns nothing, and copies with the default options, which fail on an existing destination.
- Paths are sequences of components. A collection name containing `/` is kept as one component, whereas `std::filesystem` would split it.
- The 64-bit ids and the `size_t` counts are unbounded integers. Overflow is not modelled.
- The file count `ItemCount` is stated for the order in which the walk visits the nodes. That the total does not depend on this order is not proved.
- Tree.CollectionTree.Build: requires every key to equal its node's id, as `CollectionTree.h:27` demands and the caller guarantees by keying nodes by collection id.
