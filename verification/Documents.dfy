/** Documents: a flat list of blocks linked by parent, each with values, file
    bindings and relations, and the operations a batch may hold. */
module Documents {
  import opened Lists
  import opened Values
  import opened Schemas

  type BlockID = nat
  type BlockKind = nat
  type RelationID = nat
  type ItemKind = nat
  type FileReference = nat

  datatype FileBinding = FileBinding(field: FieldID, path: seq<Segment>, file: FileReference)

  datatype RelationItem = RelationItem(
    id: ItemID, kind: ItemKind, order: int,
    shared: seq<Entry>, localized: seq<Entry>, files: seq<FileBinding>)

  datatype Relation = Relation(id: RelationID, items: seq<RelationItem>)

  datatype Node = Node(
    id: BlockID, kind: BlockKind, parent: BlockID, order: int,
    shared: seq<Entry>, localized: seq<Entry>, files: seq<FileBinding>, relations: seq<Relation>)

  function NodeId(n: Node): nat { n.id }
  /** Blocks have identifiers, no two alike. */
  ghost predicate Named(nodes: seq<Node>) {
    Unique(nodes, NodeId) && forall i :: 0 <= i < |nodes| ==> nodes[i].id != NONE
  }

  function RelationId(r: Relation): nat { r.id }
  function ItemId(i: RelationItem): nat { i.id }

  /** The catalog, keyed as its index keys it. */
  datatype Catalog = Catalog(
    kinds: set<BlockKind>,
    fields: map<(BlockKind, FieldID), FieldRule>,
    relations: map<(BlockKind, RelationID), set<ItemKind>>,
    relationFields: map<(BlockKind, RelationID, ItemKind, FieldID), FieldRule>)

  datatype Role = SourceLocale | NonSourceLocale

  datatype Target = Target(block: BlockID, relation: RelationID, item: ItemID, field: FieldID, path: seq<Segment>) {
    predicate OnItem() { relation != NONE || item != NONE }
  }

  datatype Operation =
    | SetField(target: Target, value: Value)
    | UnsetField(target: Target)
    | AttachFile(target: Target, file: FileReference)
    | DetachFile(target: Target)
    | InsertBlock(block: BlockID, kind: BlockKind, parent: BlockID, after: BlockID)
    | DeleteBlock(block: BlockID)
    | MoveBlock(block: BlockID, parent: BlockID, after: BlockID)
    | ReplaceBlockKind(block: BlockID, kind: BlockKind)
    | InsertRelationItem(block: BlockID, relation: RelationID, item: ItemID, itemKind: ItemKind, afterItem: ItemID)
    | DeleteRelationItem(block: BlockID, relation: RelationID, item: ItemID)
    | MoveRelationItem(block: BlockID, relation: RelationID, item: ItemID,
                       targetBlock: BlockID, targetRelation: RelationID, afterItem: ItemID)
    | CreateTranslation
    | DeleteTranslation
}
