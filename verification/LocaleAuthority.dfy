/** What a batch in a non-source locale can change: translated values, and nothing
    of the document's structure. */
module LocaleAuthority {
  import opened Lists
  import opened Values
  import opened Schemas
  import opened Documents
  import opened BlockGraph
  import opened Validation
  import opened Mutation
  import opened ValueSoundness
  import opened BatchSoundness

  // ----- everything but values -----

  function BareItem(i: RelationItem): RelationItem { i.(shared := [], localized := []) }
  function BareRelation(r: Relation): Relation { r.(items := Map(r.items, BareItem)) }

  /** A block without its values: its place, kind, files, relations and their items. */
  function Bare(n: Node): Node { n.(shared := [], localized := [], relations := Map(n.relations, BareRelation)) }

  function Skeleton(nodes: seq<Node>): seq<Node> { Map(nodes, Bare) }

  // ----- everything a value can be read at -----

  /** A block, or one of its relation items. */
  datatype Place = Place(block: BlockID, relation: RelationID, item: ItemID)

  function PlaceOf(t: Target): Place { Place(t.block, t.relation, t.item) }

  function HolderIn(n: Node, place: Place): Option<Holder> {
    if place.relation == NONE && place.item == NONE then Some(BlockHolder(n))
    else
      var r := Find(n.relations, RelationId, place.relation);
      if r == |n.relations| then None
      else
        var k := Find(n.relations[r].items, ItemId, place.item);
        if k == |n.relations[r].items| then None else Some(ItemHolder(n.relations[r].items[k]))
  }

  function HolderAt(nodes: seq<Node>, place: Place): Option<Holder> {
    var i := Find(nodes, NodeId, place.block);
    if i == |nodes| then None else HolderIn(nodes[i], place)
  }

  function ReadHolder(h: Holder, localized: bool, field: FieldID, path: seq<Segment>): Option<Value> {
    ReadEntries(if localized then h.localized else h.shared, field, path)
  }

  /** The value at a field and path of a block or item, in one of its two slots. */
  function ReadAt(nodes: seq<Node>, place: Place, localized: bool, field: FieldID, path: seq<Segment>): Option<Value> {
    match HolderAt(nodes, place)
    case None => None
    case Some(h) => ReadHolder(h, localized, field, path)
  }

  function OwnershipIn(c: Catalog, n: Node, t: Target): Option<Ownership> {
    if t.OnItem() then
      var r := Find(n.relations, RelationId, t.relation);
      if r == |n.relations| then None
      else
        var k := Find(n.relations[r].items, ItemId, t.item);
        if k == |n.relations[r].items| then None else OwnershipOf(c, n, n.relations[r].items[k].kind, t)
    else OwnershipOf(c, n, NONE, t)
  }

  /** Whose the addressed field is. */
  function OwnershipAt(c: Catalog, nodes: seq<Node>, t: Target): Option<Ownership> {
    var i := Find(nodes, NodeId, t.block);
    if i == |nodes| then None else OwnershipIn(c, nodes[i], t)
  }

  /** The write reaches what is read: same owner and field, and one path leads through the other. */
  predicate Reaches(t: Target, place: Place, field: FieldID, path: seq<Segment>) {
    PlaceOf(t) == place && !Apart(t.field, t.path, field, path)
  }

  // ----- one value write -----

  lemma {:induction false} HolderWrite(
    c: Catalog, n: Node, itemKind: ItemKind, h: Holder, t: Target, write: Write, localized: bool, field: FieldID, path: seq<Segment>)
    requires ChangedHolder(c, n, itemKind, h, t, Value(write)).Some?
    ensures var after := ChangedHolder(c, n, itemKind, h, t, Value(write)).value;
            after.files == h.files &&
            (Apart(t.field, t.path, field, path) ==> ReadHolder(after, localized, field, path) == ReadHolder(h, localized, field, path))
  {
    if Apart(t.field, t.path, field, path) {
      if OwnershipOf(c, n, itemKind, t).value == Locale {
        WriteThenReadElsewhere(h.localized, t.field, t.path, write, true, field, path);
      } else {
        WriteThenReadElsewhere(h.shared, t.field, t.path, write, true, field, path);
      }
    }
  }

  lemma {:induction false} ItemWrite(n: Node, r: nat, k: nat, item: RelationItem, m: Node)
    requires r < |n.relations| && k < |n.relations[r].items|
    requires BareItem(item) == BareItem(n.relations[r].items[k])
    requires m == n.(relations := n.relations[r := n.relations[r].(items := n.relations[r].items[k := item])])
    ensures Bare(m) == Bare(n)
  {
    var relation := n.relations[r].(items := n.relations[r].items[k := item]);
    assert Map(relation.items, BareItem) == Map(n.relations[r].items, BareItem);
    assert Map(m.relations, BareRelation) == Map(n.relations, BareRelation);
  }

  /** A value write leaves the bare block as it was. */
  lemma {:induction false} NodeWriteBare(c: Catalog, n: Node, t: Target, write: Write)
    requires ChangedNode(c, n, t, Value(write)).Some?
    ensures Bare(ChangedNode(c, n, t, Value(write)).value) == Bare(n)
  {
    var m := ChangedNode(c, n, t, Value(write)).value;
    if t.OnItem() {
      var r := Find(n.relations, RelationId, t.relation);
      var k := Find(n.relations[r].items, ItemId, t.item);
      var item := n.relations[r].items[k];
      HolderWrite(c, n, item.kind, ItemHolder(item), t, write, true, 0, []);
      var h := ChangedHolder(c, n, item.kind, ItemHolder(item), t, Value(write)).value;
      ItemWrite(n, r, k, ItemHolding(item, h), m);
    } else {
      HolderWrite(c, n, NONE, BlockHolder(n), t, write, true, 0, []);
    }
  }

  lemma {:induction false} ItemRead(n: Node, m: Node, r: nat, k: nat, relation: RelationID, id: ItemID, place: Place)
    requires r == Find(n.relations, RelationId, relation) < |n.relations|
    requires k == Find(n.relations[r].items, ItemId, id) < |n.relations[r].items|
    requires |m.relations| == |n.relations| && m.relations[r].id == n.relations[r].id
    requires forall j :: 0 <= j < |n.relations| && j != r ==> m.relations[j] == n.relations[j]
    requires |m.relations[r].items| == |n.relations[r].items| && m.relations[r].items[k].id == n.relations[r].items[k].id
    requires forall j :: 0 <= j < |n.relations[r].items| && j != k ==> m.relations[r].items[j] == n.relations[r].items[j]
    requires BlockHolder(m) == BlockHolder(n) && m.id == n.id && (relation != NONE || id != NONE)
    ensures if place.relation == relation && place.item == id
            then HolderIn(m, place) == Some(ItemHolder(m.relations[r].items[k]))
            else HolderIn(m, place) == HolderIn(n, place)
  {
    FindSameIds(m.relations, n.relations, RelationId, place.relation);
    FindSameIds(m.relations[r].items, n.relations[r].items, ItemId, place.item);
  }

  /** A value write changes what is read only where it reaches. */
  lemma {:induction false} NodeWriteReads(
    c: Catalog, n: Node, t: Target, write: Write, place: Place, localized: bool, field: FieldID, path: seq<Segment>)
    requires ChangedNode(c, n, t, Value(write)).Some? && place.block == t.block && !Reaches(t, place, field, path)
    ensures var m := ChangedNode(c, n, t, Value(write)).value;
            HolderIn(m, place).Some? == HolderIn(n, place).Some? &&
            (HolderIn(n, place).Some? ==>
               ReadHolder(HolderIn(m, place).value, localized, field, path) == ReadHolder(HolderIn(n, place).value, localized, field, path))
  {
    var m := ChangedNode(c, n, t, Value(write)).value;
    if t.OnItem() {
      var r := Find(n.relations, RelationId, t.relation);
      var k := Find(n.relations[r].items, ItemId, t.item);
      var item := n.relations[r].items[k];
      HolderWrite(c, n, item.kind, ItemHolder(item), t, write, localized, field, path);
      var h := ChangedHolder(c, n, item.kind, ItemHolder(item), t, Value(write)).value;
      assert ItemHolder(ItemHolding(item, h)) == h;
      ItemRead(n, m, r, k, t.relation, t.item, place);
    } else {
      HolderWrite(c, n, NONE, BlockHolder(n), t, write, localized, field, path);
    }
  }

  lemma {:induction false} ChangedKeepsId(c: Catalog, n: Node, t: Target, change: Change)
    requires ChangedNode(c, n, t, change).Some?
    ensures ChangedNode(c, n, t, change).value.id == n.id
  {
  }

  /** Writing a value: the structure stays, and so does every read it does not reach. */
  lemma {:induction false} WriteReads(tree: Tree, t: Target, write: Write, place: Place, localized: bool, field: FieldID, path: seq<Segment>)
    requires ChangedField(tree, t, Value(write)).Some?
    ensures Skeleton(ChangedField(tree, t, Value(write)).value) == Skeleton(tree.nodes)
    ensures !Reaches(t, place, field, path) ==>
              ReadAt(ChangedField(tree, t, Value(write)).value, place, localized, field, path)
              == ReadAt(tree.nodes, place, localized, field, path)
  {
    var nodes := tree.nodes;
    var i := Find(nodes, NodeId, t.block);
    var m := ChangedNode(tree.catalog, nodes[i], t, Value(write)).value;
    NodeWriteBare(tree.catalog, nodes[i], t, write);
    ChangedKeepsId(tree.catalog, nodes[i], t, Value(write));
    FindSameIds(nodes[i := m], nodes, NodeId, place.block);
    if !Reaches(t, place, field, path) && place.block == t.block {
      NodeWriteReads(tree.catalog, nodes[i], t, write, place, localized, field, path);
    }
  }

  // ----- a batch -----

  /** The operations that a non-source locale may use. */
  lemma {:induction false} NonSourceOperations(v: Validator, op: Operation)
    requires Forest(v.graph) && v.role.NonSourceLocale?
    ensures Validate(v, op).None? ==> op.SetField? || (v.batchSize == 1 && (op.CreateTranslation? || op.DeleteTranslation?))
  {
  }

  /** The rule that a target resolves to belongs to the locale and is translatable. */
  predicate Translatable(v: Validator, t: Target) {
    ResolveField(v, t).Found? && ResolveField(v, t).value.ownership == Locale && ResolveField(v, t).value.translatable
  }

  lemma {:induction false} NonSourceSetIsTranslatable(v: Validator, op: Operation)
    requires Forest(v.graph) && v.role.NonSourceLocale? && Validate(v, op).None? && op.SetField?
    ensures Translatable(v, op.target) && Accepted(v, op) == v
  {
  }

  lemma {:induction false} UntranslatedSkeleton(nodes: seq<Node>)
    ensures Skeleton(Map(nodes, UntranslatedNode)) == Skeleton(nodes)
  {
    forall i | 0 <= i < |nodes| ensures Bare(UntranslatedNode(nodes[i])) == Bare(nodes[i]) {
      var before, after := nodes[i].relations, UntranslatedNode(nodes[i]).relations;
      forall r | 0 <= r < |before| ensures BareRelation(after[r]) == BareRelation(before[r]) {
        assert Map(after[r].items, BareItem) == Map(before[r].items, BareItem);
      }
      assert Map(after, BareRelation) == Map(before, BareRelation);
    }
  }

  /** Some write of the batch reaches what is read, through a translatable rule. */
  ghost predicate Translates(v: Validator, ops: seq<Operation>, place: Place, field: FieldID, path: seq<Segment>) {
    exists k :: 0 <= k < |ops| && ops[k].SetField? && Reaches(ops[k].target, place, field, path) && Translatable(v, ops[k].target)
  }

  lemma TranslatesFirst(v: Validator, ops: seq<Operation>, place: Place, field: FieldID, path: seq<Segment>)
    requires ops != []
    ensures Translates(v, ops[1..], place, field, path) ==> Translates(v, ops, place, field, path)
    ensures ops[0].SetField? && Reaches(ops[0].target, place, field, path) && Translatable(v, ops[0].target) ==>
              Translates(v, ops, place, field, path)
  {
    if Translates(v, ops[1..], place, field, path) {
      var k :| 0 <= k < |ops[1..]| && ops[1..][k].SetField? && Reaches(ops[1..][k].target, place, field, path)
        && Translatable(v, ops[1..][k].target);
      assert ops[k + 1] == ops[1..][k];
    }
  }

  lemma {:induction false} WritesOnly(tree: Tree, v: Validator, ops: seq<Operation>, place: Place, localized: bool, field: FieldID, path: seq<Segment>)
    requires Forest(v.graph) && v.role.NonSourceLocale? && AcceptedAll(v, ops) && AppliedAll(tree, ops).Some?
    requires forall k :: 0 <= k < |ops| ==> ops[k].SetField?
    ensures Skeleton(AppliedAll(tree, ops).value.nodes) == Skeleton(tree.nodes)
    ensures !Translates(v, ops, place, field, path) ==>
              ReadAt(AppliedAll(tree, ops).value.nodes, place, localized, field, path) == ReadAt(tree.nodes, place, localized, field, path)
    decreases |ops|
  {
    if ops != [] {
      var op := ops[0];
      NonSourceSetIsTranslatable(v, op);
      WriteReads(tree, op.target, Set(op.value), place, localized, field, path);
      WritesOnly(Applied(tree, op).value, v, ops[1..], place, localized, field, path);
      TranslatesFirst(v, ops, place, field, path);
    }
  }

  /** An accepted batch in a non-source locale keeps every block, kind, parent, order,
      relation item and file. It is one translation created or deleted, or it only
      changes values at paths that a translatable, locale-owned rule covers. */
  lemma {:induction false} NonSourceBatch(tree: Tree, v: Validator, ops: seq<Operation>, place: Place, localized: bool, field: FieldID, path: seq<Segment>)
    requires Forest(v.graph) && v.role.NonSourceLocale? && v.batchSize == |ops| && AcceptedAll(v, ops)
    requires AppliedAll(tree, ops).Some?
    ensures Skeleton(AppliedAll(tree, ops).value.nodes) == Skeleton(tree.nodes)
    ensures ops == [CreateTranslation] || ops == [DeleteTranslation] ||
              (Translates(v, ops, place, field, path) ||
               ReadAt(AppliedAll(tree, ops).value.nodes, place, localized, field, path) == ReadAt(tree.nodes, place, localized, field, path))
  {
    if |ops| == 1 && !ops[0].SetField? {
      LoneTranslation(tree, v, ops[0]);
      assert ops == [ops[0]];
    } else {
      OnlyWrites(v, ops);
      WritesOnly(tree, v, ops, place, localized, field, path);
    }
  }

  lemma {:induction false} LoneTranslation(tree: Tree, v: Validator, op: Operation)
    requires Forest(v.graph) && v.role.NonSourceLocale? && Validate(v, op).None? && !op.SetField?
    ensures op.CreateTranslation? || op.DeleteTranslation?
    ensures Applied(tree, op).Some? && AppliedAll(tree, [op]) == Applied(tree, op)
    ensures Skeleton(Applied(tree, op).value.nodes) == Skeleton(tree.nodes)
  {
    NonSourceOperations(v, op);
    assert [op][1..] == [];
    UntranslatedSkeleton(tree.nodes);
  }

  lemma {:induction false} OnlyWrites(v: Validator, ops: seq<Operation>)
    requires Forest(v.graph) && v.role.NonSourceLocale? && AcceptedAll(v, ops)
    requires v.batchSize != 1 || (|ops| == 1 && ops[0].SetField?)
    ensures forall k :: 0 <= k < |ops| ==> ops[k].SetField?
    decreases |ops|
  {
    if ops != [] {
      NonSourceOperations(v, ops[0]);
      NonSourceSetIsTranslatable(v, ops[0]);
      if |ops| > 1 {
        OnlyWrites(v, ops[1..]);
      }
    }
  }
}
