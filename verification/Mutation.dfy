/** What operations make of the document tree, as functions on its node list. The
    loops that compute them in place are in `Editing`. */
module Mutation {
  import opened Lists
  import opened Values
  import opened Schemas
  import opened Documents
  import opened BlockGraph

  /** The part of a document that operations change, with its catalog. */
  datatype Tree = Tree(catalog: Catalog, localeExists: bool, nodes: seq<Node>)

  // ----- placing blocks -----

  /** The order of siblings: by order number, then by identifier. */
  function SiblingKey(n: Node): Key { Key(0, n.order, n.id) }

  /** The order renumbering lists all blocks in. */
  function ListingKey(n: Node): Key { Key(n.parent, n.order, n.id) }

  function PositionOf(s: seq<nat>, x: nat): (i: nat)
    ensures i <= |s|
    ensures i < |s| ==> s[i] == x
    ensures forall j :: 0 <= j < i ==> s[j] != x
  {
    if s == [] then 0 else if s[0] == x then 0 else
      var i := PositionOf(s[1..], x);
      assert forall j :: 1 <= j < i + 1 ==> s[j] == s[1..][j - 1];
      1 + i
  }

  /** `x` placed first, right after `after`, or last when `after` is not there. */
  function InsertAfter(s: seq<nat>, x: nat, after: nat): seq<nat> {
    if after == NONE then [x] + s
    else
      var p := PositionOf(s, after);
      if p == |s| then s + [x] else s[..p + 1] + [x] + s[p + 1..]
  }

  predicate IsSibling(n: Node, parent: BlockID, except: BlockID) {
    n.parent == parent && n.id != except
  }

  function Siblings(nodes: seq<Node>, parent: BlockID, except: BlockID): seq<Node> {
    SortBy(Filter(nodes, (n: Node) => IsSibling(n, parent, except)), SiblingKey)
  }

  function Ids(nodes: seq<Node>): (ids: seq<BlockID>)
    ensures |ids| == |nodes|
    ensures forall i :: 0 <= i < |nodes| ==> ids[i] == nodes[i].id
  {
    Map(nodes, NodeId)
  }

  function Reparent(n: Node, block: BlockID, parent: BlockID): Node {
    if n.id == block then n.(parent := parent, order := 0) else n
  }

  function Reparented(nodes: seq<Node>, block: BlockID, parent: BlockID): (r: seq<Node>)
    ensures |r| == |nodes|
    ensures forall i :: 0 <= i < |nodes| ==> r[i] == Reparent(nodes[i], block, parent)
  {
    seq(|nodes|, i requires 0 <= i < |nodes| => Reparent(nodes[i], block, parent))
  }

  function Reorder(n: Node, ordered: seq<BlockID>): Node {
    if n.id in ordered then n.(order := PositionOf(ordered, n.id)) else n
  }

  function Reordered(nodes: seq<Node>, ordered: seq<BlockID>): (r: seq<Node>)
    ensures |r| == |nodes|
    ensures forall i :: 0 <= i < |nodes| ==> r[i] == Reorder(nodes[i], ordered)
  {
    seq(|nodes|, i requires 0 <= i < |nodes| => Reorder(nodes[i], ordered))
  }

  function PlacedBlock(nodes: seq<Node>, block: BlockID, parent: BlockID, after: BlockID): seq<Node> {
    var moved := Reparented(nodes, block, parent);
    Reordered(moved, InsertAfter(Ids(Siblings(moved, parent, block)), block, after))
  }

  // ----- deleting blocks -----

  function CountParent(nodes: seq<Node>, parent: BlockID): nat {
    if nodes == [] then 0 else (if nodes[0].parent == parent then 1 else 0) + CountParent(nodes[1..], parent)
  }

  /** Each block numbered by how many blocks of the same parent precede it. */
  function Numbered(nodes: seq<Node>): (r: seq<Node>)
    ensures |r| == |nodes|
    ensures forall i :: 0 <= i < |nodes| ==> r[i] == nodes[i].(order := CountParent(nodes[..i], nodes[i].parent))
  {
    seq(|nodes|, i requires 0 <= i < |nodes| => nodes[i].(order := CountParent(nodes[..i], nodes[i].parent)))
  }

  function Renumbered(nodes: seq<Node>): seq<Node> {
    Numbered(SortBy(nodes, ListingKey))
  }

  ghost function WithoutSubtree(nodes: seq<Node>, block: BlockID): seq<Node> {
    var gone := Removed(GraphOf(nodes), block);
    Renumbered(Filter(nodes, (n: Node) => n.id !in gone))
  }

  // ----- relation items -----

  function ItemKey(i: RelationItem): Key { Key(0, i.order, i.id) }

  function NumberedItems(items: seq<RelationItem>): (r: seq<RelationItem>)
    ensures |r| == |items|
    ensures forall i :: 0 <= i < |items| ==> r[i] == items[i].(order := i)
  {
    seq(|items|, i requires 0 <= i < |items| => items[i].(order := i))
  }

  function WithoutId(items: seq<RelationItem>, id: ItemID): seq<RelationItem> {
    Filter(items, (i: RelationItem) => i.id != id)
  }

  /** The item placed first or right after `after`; dropped when `after` is absent. */
  function PlacedItem(others: seq<RelationItem>, moved: RelationItem, after: ItemID): seq<RelationItem> {
    if after == NONE then [moved] + others
    else
      var p := Find(others, ItemId, after);
      if p == |others| then others else others[..p + 1] + [moved] + others[p + 1..]
  }

  function RelationWith(relation: Relation, moved: RelationItem, after: ItemID): Relation {
    relation.(items := NumberedItems(PlacedItem(WithoutId(relation.items, moved.id), moved, after)))
  }

  function RelationWithout(relation: Relation, item: ItemID): Relation {
    relation.(items := NumberedItems(WithoutId(relation.items, item)))
  }

  /** The relation with the item placed in it, created when the block has none. */
  function RelationsWith(relations: seq<Relation>, id: RelationID, moved: RelationItem, after: ItemID): seq<Relation> {
    var r := Find(relations, RelationId, id);
    if r == |relations| then relations + [RelationWith(Relation(id, []), moved, after)]
    else relations[r := RelationWith(relations[r], moved, after)]
  }

  function InsertedItem(nodes: seq<Node>, block: BlockID, relation: RelationID, item: RelationItem, after: ItemID): Option<seq<Node>> {
    var i := Find(nodes, NodeId, block);
    if i == |nodes| then None
    else Some(nodes[i := nodes[i].(relations := RelationsWith(nodes[i].relations, relation, item, after))])
  }

  function DeletedItem(nodes: seq<Node>, block: BlockID, relation: RelationID, item: ItemID): Option<seq<Node>> {
    var i := Find(nodes, NodeId, block);
    if i == |nodes| then None
    else
      var r := Find(nodes[i].relations, RelationId, relation);
      if r == |nodes[i].relations| then None
      else Some(nodes[i := nodes[i].(relations := nodes[i].relations[r := RelationWithout(nodes[i].relations[r], item)])])
  }

  /** The item of that identifier in that relation of that block. */
  function ItemAt(nodes: seq<Node>, block: BlockID, relation: RelationID, item: ItemID): Option<RelationItem> {
    var i := Find(nodes, NodeId, block);
    if i == |nodes| then None
    else
      var r := Find(nodes[i].relations, RelationId, relation);
      if r == |nodes[i].relations| then None
      else
        var k := Find(nodes[i].relations[r].items, ItemId, item);
        if k == |nodes[i].relations[r].items| then None else Some(nodes[i].relations[r].items[k])
  }

  function MovedItem(
    nodes: seq<Node>, block: BlockID, relation: RelationID, item: ItemID,
    targetBlock: BlockID, targetRelation: RelationID, after: ItemID): Option<seq<Node>>
  {
    match ItemAt(nodes, block, relation, item)
    case None => None
    case Some(moved) =>
      match DeletedItem(nodes, block, relation, item)
      case None => None
      case Some(taken) => InsertedItem(taken, targetBlock, targetRelation, moved, after)
  }

  // ----- fields and files -----

  /** The values, files and kind a field target addresses: a block's or an item's. */
  datatype Holder = Holder(shared: seq<Entry>, localized: seq<Entry>, files: seq<FileBinding>)

  function BlockHolder(n: Node): Holder { Holder(n.shared, n.localized, n.files) }
  function ItemHolder(i: RelationItem): Holder { Holder(i.shared, i.localized, i.files) }
  function BlockHolding(n: Node, h: Holder): Node { n.(shared := h.shared, localized := h.localized, files := h.files) }
  function ItemHolding(i: RelationItem, h: Holder): RelationItem {
    i.(shared := h.shared, localized := h.localized, files := h.files)
  }

  function OwnershipOf(catalog: Catalog, node: Node, itemKind: ItemKind, t: Target): Option<Ownership> {
    if t.OnItem() then
      var key := (node.kind, t.relation, itemKind, t.field);
      if key in catalog.relationFields then Some(catalog.relationFields[key].ownership) else None
    else
      var key := (node.kind, t.field);
      if key in catalog.fields then Some(catalog.fields[key].ownership) else None
  }

  function WrittenHolder(h: Holder, ownership: Ownership, t: Target, write: Write): Option<Holder> {
    if ownership == Locale then
      match MutateEntries(h.localized, t.field, t.path, write, true)
      case None => None
      case Some(values) => Some(h.(localized := values))
    else
      match MutateEntries(h.shared, t.field, t.path, write, true)
      case None => None
      case Some(values) => Some(h.(shared := values))
  }

  function FindBinding(files: seq<FileBinding>, field: FieldID, path: seq<Segment>): (i: nat)
    ensures i <= |files|
    ensures i < |files| ==> files[i].field == field && files[i].path == path
    ensures forall j :: 0 <= j < i ==> files[j].field != field || files[j].path != path
  {
    if files == [] then 0
    else if files[0].field == field && files[0].path == path then 0
    else
      var i := FindBinding(files[1..], field, path);
      assert forall j :: 1 <= j < i + 1 ==> files[j] == files[1..][j - 1];
      1 + i
  }

  /** The files with the target's slot bound to `file`, or unbound. */
  function BoundFiles(files: seq<FileBinding>, t: Target, file: Option<FileReference>): seq<FileBinding> {
    var i := FindBinding(files, t.field, t.path);
    match file
    case Some(f) => if i < |files| then files[i := FileBinding(files[i].field, files[i].path, f)] else files + [FileBinding(t.field, t.path, f)]
    case None => if i < |files| then files[..i] + files[i + 1..] else files
  }

  datatype Change = Value(write: Write) | File(file: Option<FileReference>)

  function ChangedHolder(catalog: Catalog, node: Node, itemKind: ItemKind, h: Holder, t: Target, change: Change): Option<Holder> {
    match change
    case File(file) => Some(h.(files := BoundFiles(h.files, t, file)))
    case Value(write) =>
      match OwnershipOf(catalog, node, itemKind, t)
      case None => None
      case Some(ownership) => WrittenHolder(h, ownership, t, write)
  }

  function ChangedItem(catalog: Catalog, node: Node, r: nat, k: nat, t: Target, change: Change): Option<Node>
    requires r < |node.relations| && k < |node.relations[r].items|
  {
    var item := node.relations[r].items[k];
    match ChangedHolder(catalog, node, item.kind, ItemHolder(item), t, change)
    case None => None
    case Some(h) =>
      var relation := node.relations[r].(items := node.relations[r].items[k := ItemHolding(item, h)]);
      Some(node.(relations := node.relations[r := relation]))
  }

  function ChangedNode(catalog: Catalog, node: Node, t: Target, change: Change): Option<Node> {
    if t.OnItem() then
      var r := Find(node.relations, RelationId, t.relation);
      if r == |node.relations| then None
      else
        var k := Find(node.relations[r].items, ItemId, t.item);
        if k == |node.relations[r].items| then None else ChangedItem(catalog, node, r, k, t, change)
    else
      match ChangedHolder(catalog, node, NONE, BlockHolder(node), t, change)
      case None => None
      case Some(h) => Some(BlockHolding(node, h))
  }

  function ChangedField(tree: Tree, t: Target, change: Change): Option<seq<Node>> {
    var i := Find(tree.nodes, NodeId, t.block);
    if i == |tree.nodes| then None
    else
      match ChangedNode(tree.catalog, tree.nodes[i], t, change)
      case None => None
      case Some(n) => Some(tree.nodes[i := n])
  }

  // ----- whole operations -----

  function Replaced(nodes: seq<Node>, block: BlockID, kind: BlockKind): Option<seq<Node>> {
    var i := Find(nodes, NodeId, block);
    if i == |nodes| then None
    else Some(nodes[i := Node(block, kind, nodes[i].parent, nodes[i].order, [], [], [], [])])
  }

  function UntranslatedItem(i: RelationItem): RelationItem { i.(localized := []) }

  function UntranslatedRelation(r: Relation): Relation { r.(items := Map(r.items, UntranslatedItem)) }

  function UntranslatedNode(n: Node): Node {
    n.(localized := [], relations := Map(n.relations, UntranslatedRelation))
  }

  /** The nodes an operation leaves, or None when it fails. */
  ghost function AppliedNodes(tree: Tree, op: Operation): Option<seq<Node>> {
    var nodes := tree.nodes;
    match op
    case SetField(t, value) => ChangedField(tree, t, Value(Set(value)))
    case UnsetField(t) => ChangedField(tree, t, Value(Unset))
    case AttachFile(t, file) => ChangedField(tree, t, File(Some(file)))
    case DetachFile(t) => ChangedField(tree, t, File(None))
    case InsertBlock(block, kind, parent, after) =>
      Some(PlacedBlock(nodes + [Node(block, kind, parent, 0, [], [], [], [])], block, parent, after))
    case DeleteBlock(block) => Some(WithoutSubtree(nodes, block))
    case MoveBlock(block, parent, after) => Some(PlacedBlock(nodes, block, parent, after))
    case ReplaceBlockKind(block, kind) => Replaced(nodes, block, kind)
    case InsertRelationItem(block, relation, item, kind, after) =>
      InsertedItem(nodes, block, relation, RelationItem(item, kind, 0, [], [], []), after)
    case DeleteRelationItem(block, relation, item) => DeletedItem(nodes, block, relation, item)
    case MoveRelationItem(block, relation, item, targetBlock, targetRelation, after) =>
      MovedItem(nodes, block, relation, item, targetBlock, targetRelation, after)
    case CreateTranslation => Some(nodes)
    case DeleteTranslation => Some(Map(nodes, UntranslatedNode))
  }

  ghost function Applied(tree: Tree, op: Operation): Option<Tree> {
    match AppliedNodes(tree, op)
    case None => None
    case Some(nodes) =>
      var exists_ := match op case CreateTranslation => true case DeleteTranslation => false case _ => tree.localeExists;
      Some(Tree(tree.catalog, exists_, nodes))
  }

  /** The tree a batch leaves, or None when one of its operations failed. */
  ghost function AppliedAll(tree: Tree, ops: seq<Operation>): Option<Tree>
    decreases |ops|
  {
    if ops == [] then Some(tree)
    else
      match Applied(tree, ops[0])
      case None => None
      case Some(next) => AppliedAll(next, ops[1..])
  }
}
