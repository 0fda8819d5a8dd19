/** Record types shared by the resolver, the collection tree and the binder.
    Identifiers are the database's 64-bit integer keys, modelled as unbounded `int`;
    `-1` is the "no parent" sentinel used throughout. */
module Records {

  datatype Option<T> = None | Some(value: T)

  /** A filesystem path as a sequence of components; `[]` is the empty path. */
  type Path = seq<string>

  /** Sentinel meaning "this collection / item has no parent". */
  const NoParent: int := -1

  /** A row of the `collections` table. */
  datatype ZoteroCollection = ZoteroCollection(collectionID: int, parentCollectionID: int, collectionName: string)

  /** A row of `itemAttachments` with content type application/pdf.
      `path` is the stored file name, `key` the storage sub-directory. */
  datatype PDFAttachment = PDFAttachment(itemID: int, parentItemID: int, path: string, key: string)

  /** An attachment with its resolved file (`[]` when unresolved) and owning collections. */
  datatype PDFItem = PDFItem(pdfAttachment: PDFAttachment, pdfFilePath: Path, collectionItems: seq<ZoteroCollection>)

  /** A file bound to a collection node. */
  datatype CollectionPDFItem = CollectionPDFItem(pdfItemId: int, pdfName: string, pdfFilePath: Path)

  /** A collection node of the arena; `childrenNodes` holds the keys of its children. */
  datatype CollectionNode = CollectionNode(
    collectionID: int,
    parentCollectionID: int,
    collectionName: string,
    collectionPDFItems: seq<CollectionPDFItem>,
    childrenNodes: seq<int>)

  /** The three outcomes of a `std::strong_ordering` comparison. */
  datatype Ordering = Less | Equivalent | Greater {
    function Reverse(): Ordering {
      match this
      case Less => Greater
      case Equivalent => Equivalent
      case Greater => Less
    }
  }

  function CompareIds(a: int, b: int): (r: Ordering)
    ensures r == Less <==> a < b
    ensures r == Equivalent <==> a == b
    ensures r == Greater <==> a > b
  {
    if a < b then Less else if a == b then Equivalent else Greater
  }

  /** `CollectionPDFItem::operator<=>`: only the item id takes part. */
  function ComparePDFItems(x: CollectionPDFItem, y: CollectionPDFItem): (r: Ordering)
    ensures r == Equivalent <==> x.pdfItemId == y.pdfItemId
    ensures r == Less <==> x.pdfItemId < y.pdfItemId
  {
    CompareIds(x.pdfItemId, y.pdfItemId)
  }

  /** `CollectionNode::operator<=>`: only the collection id takes part. */
  function CompareNodes(x: CollectionNode, y: CollectionNode): (r: Ordering)
    ensures r == Equivalent <==> x.collectionID == y.collectionID
    ensures r == Less <==> x.collectionID < y.collectionID
  {
    CompareIds(x.collectionID, y.collectionID)
  }

  /** `ZoteroCollection::operator<=>`: only the collection id takes part. */
  function CompareCollections(x: ZoteroCollection, y: ZoteroCollection): (r: Ordering)
    ensures r == Equivalent <==> x.collectionID == y.collectionID
    ensures r == Less <==> x.collectionID < y.collectionID
  {
    CompareIds(x.collectionID, y.collectionID)
  }

  /** Two bound files that differ in name or path but share an id compare as equivalent,
      and swapping the operands reverses the outcome. */
  lemma PDFItemOrderIgnoresPayload(x: CollectionPDFItem, y: CollectionPDFItem, x': CollectionPDFItem)
    requires x'.pdfItemId == x.pdfItemId
    ensures ComparePDFItems(x', y) == ComparePDFItems(x, y)
    ensures ComparePDFItems(y, x) == ComparePDFItems(x, y).Reverse()
  {
  }

  /** The node order ignores parent, name, files and children, and is antisymmetric. */
  lemma NodeOrderIgnoresPayload(x: CollectionNode, y: CollectionNode, x': CollectionNode)
    requires x'.collectionID == x.collectionID
    ensures CompareNodes(x', y) == CompareNodes(x, y)
    ensures CompareNodes(y, x) == CompareNodes(x, y).Reverse()
  {
  }

  /** A non-empty set has a member to choose. */
  lemma HasMember(s: set<int>)
    requires s != {}
    ensures exists x :: x in s
  {
    if forall x :: x !in s {
      assert false;
    }
  }
}
