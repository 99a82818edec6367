/** Stored values keep the kinds their catalog rules assign, so an accepted write
    at a nested path never meets a value of the wrong kind. */
module ValueSoundness {
  import opened Lists
  import opened Values
  import opened Schemas
  import opened Documents
  import opened BlockGraph
  import opened Validation
  import opened Mutation
  import opened GraphSoundness

  /** The rule of a field of a block, or of an item of one of its relations. */
  function RuleOf(c: Catalog, kind: BlockKind, relation: RelationID, itemKind: ItemKind, field: FieldID): Option<FieldRule> {
    if relation == NONE then
      if (kind, field) in c.fields then Some(c.fields[(kind, field)]) else None
    else
      if (kind, relation, itemKind, field) in c.relationFields then Some(c.relationFields[(kind, relation, itemKind, field)]) else None
  }

  /** A recursive schema repeats its rule at the root. */
  predicate RootMatches(rule: FieldRule) {
    rule.schema.Some? ==>
      rule.schema.value.kind == rule.kind && rule.schema.value.ownership == rule.ownership &&
      rule.schema.value.translatable == rule.translatable && rule.schema.value.file == rule.file
  }

  ghost predicate ValidCatalog(c: Catalog) {
    forall kind, relation, itemKind, field ::
      RuleOf(c, kind, relation, itemKind, field).Some? ==> RootMatches(RuleOf(c, kind, relation, itemKind, field).value)
  }

  /** Values of one owner, all shared or all localized, that fit their rules. */
  ghost predicate ValuesFit(
    values: seq<Entry>, localized: bool, c: Catalog, kind: BlockKind, relation: RelationID, itemKind: ItemKind)
  {
    forall i :: 0 <= i < |values| ==>
      var rule := RuleOf(c, kind, relation, itemKind, values[i].id);
      rule.Some? && FieldFits(values[i].value, rule.value) && (localized <==> rule.value.ownership == Locale)
  }

  ghost predicate HolderFits(h: Holder, c: Catalog, kind: BlockKind, relation: RelationID, itemKind: ItemKind) {
    ValuesFit(h.shared, false, c, kind, relation, itemKind) && ValuesFit(h.localized, true, c, kind, relation, itemKind)
  }

  ghost predicate RelationFits(items: seq<RelationItem>, c: Catalog, kind: BlockKind, relation: RelationID) {
    forall k :: 0 <= k < |items| ==> HolderFits(ItemHolder(items[k]), c, kind, relation, items[k].kind)
  }

  ghost predicate NodeFits(n: Node, c: Catalog) {
    && HolderFits(BlockHolder(n), c, n.kind, NONE, NONE)
    && forall r :: 0 <= r < |n.relations| ==>
         n.relations[r].id != NONE && RelationFits(n.relations[r].items, c, n.kind, n.relations[r].id)
  }

  ghost predicate NodesFit(nodes: seq<Node>, c: Catalog) {
    forall i :: 0 <= i < |nodes| ==> NodeFits(nodes[i], c)
  }

  // ----- one accepted write -----

  /** What validation established about a write: the rule, and the resolved path. */
  ghost predicate WriteAccepted(rule: FieldRule, path: seq<Segment>, write: Write) {
    && Resolve(rule, path).Some? && !Resolve(rule, path).value.file
    && (write.Set? ==>
          write.value.Kind() == Resolve(rule, path).value.kind &&
          (Resolve(rule, path).value.schema.Some? ==> KindsFit(write.value, Resolve(rule, path).value.schema.value)))
  }

  lemma {:induction false} WriteKeepsFieldFit(stored: Value, rule: FieldRule, path: seq<Segment>, write: Write)
    requires path != [] && FieldFits(stored, rule) && WriteAccepted(rule, path, write)
    ensures MutatePath(stored, path, write).Some?
    ensures FieldFits(MutatePath(stored, path, write).value, rule)
  {
    NestedWriteKeepsKinds(stored, rule.schema.value, path, write);
  }

  lemma {:induction false} WriteKeepsValuesFit(
    values: seq<Entry>, localized: bool, c: Catalog, kind: BlockKind, relation: RelationID, itemKind: ItemKind,
    field: FieldID, path: seq<Segment>, write: Write)
    requires ValuesFit(values, localized, c, kind, relation, itemKind)
    requires RuleOf(c, kind, relation, itemKind, field).Some?
    requires var rule := RuleOf(c, kind, relation, itemKind, field).value;
             RootMatches(rule) && WriteAccepted(rule, path, write) && (localized <==> rule.ownership == Locale)
    ensures MutateEntries(values, field, path, write, true).Some?
    ensures ValuesFit(MutateEntries(values, field, path, write, true).value, localized, c, kind, relation, itemKind)
  {
    var rule := RuleOf(c, kind, relation, itemKind, field).value;
    var i := Find(values, EntryId, field);
    if i < |values| {
      if path != [] {
        WriteKeepsFieldFit(values[i].value, rule, path, write);
      } else if write.Unset? {
        var after := values[..i] + values[i + 1..];
        assert forall j :: 0 <= j < |after| ==> after[j] == values[if j < i then j else j + 1];
      }
    }
  }

  ghost predicate ChangeAccepted(rule: Option<FieldRule>, path: seq<Segment>, change: Change) {
    change.Value? ==> rule.Some? && RootMatches(rule.value) && WriteAccepted(rule.value, path, change.write)
  }

  lemma {:induction false} ChangeKeepsHolderFit(c: Catalog, node: Node, itemKind: ItemKind, h: Holder, t: Target, change: Change)
    requires t.OnItem() <==> t.relation != NONE
    requires HolderFits(h, c, node.kind, t.relation, itemKind)
    requires ChangeAccepted(RuleOf(c, node.kind, t.relation, itemKind, t.field), t.path, change)
    ensures ChangedHolder(c, node, itemKind, h, t, change).Some?
    ensures HolderFits(ChangedHolder(c, node, itemKind, h, t, change).value, c, node.kind, t.relation, itemKind)
  {
    if change.Value? {
      var rule := RuleOf(c, node.kind, t.relation, itemKind, t.field).value;
      if rule.ownership == Locale {
        WriteKeepsValuesFit(h.localized, true, c, node.kind, t.relation, itemKind, t.field, t.path, change.write);
      } else {
        WriteKeepsValuesFit(h.shared, false, c, node.kind, t.relation, itemKind, t.field, t.path, change.write);
      }
    }
  }

  // ----- a write keeps the shape of the document -----

  lemma {:induction false} ItemChangeKeepsRelation(relation: Relation, k: nat, item: RelationItem)
    requires GoodRelation(relation) && k < |relation.items|
    requires item.id == relation.items[k].id && item.kind == relation.items[k].kind && item.order == relation.items[k].order
    ensures GoodRelation(relation.(items := relation.items[k := item]))
    ensures ItemsOf(relation.(items := relation.items[k := item])) == ItemsOf(relation)
  {
    var changed := relation.items[k := item];
    assert forall i :: 0 <= i < |changed| ==> changed[i].id == relation.items[i].id && ItemKey(changed[i]) == ItemKey(relation.items[i]);
    IndexPointwise(changed, relation.items, ItemId, KindOfItem);
  }

  lemma {:induction false} RelationChangeKeepsNode(n: Node, r: nat, relation: Relation)
    requires GoodNode(n) && r < |n.relations| && GoodRelation(relation)
    requires relation.id == n.relations[r].id && ItemsOf(relation) == ItemsOf(n.relations[r])
    ensures GoodNode(n.(relations := n.relations[r := relation]))
    ensures BlockOf(n.(relations := n.relations[r := relation])) == BlockOf(n)
  {
    IndexPointwise(n.relations[r := relation], n.relations, RelationId, ItemsOf);
  }

  lemma {:induction false} ChangeKeepsNode(c: Catalog, n: Node, t: Target, change: Change)
    requires GoodNode(n) && ChangedNode(c, n, t, change).Some?
    ensures GoodNode(ChangedNode(c, n, t, change).value)
    ensures ChangedNode(c, n, t, change).value.id == n.id
    ensures BlockOf(ChangedNode(c, n, t, change).value) == BlockOf(n)
  {
    if t.OnItem() {
      var r := Find(n.relations, RelationId, t.relation);
      var k := Find(n.relations[r].items, ItemId, t.item);
      var item := n.relations[r].items[k];
      var h := ChangedHolder(c, n, item.kind, ItemHolder(item), t, change).value;
      ItemChangeKeepsRelation(n.relations[r], k, ItemHolding(item, h));
      RelationChangeKeepsNode(n, r, n.relations[r].(items := n.relations[r].items[k := ItemHolding(item, h)]));
    }
  }

  lemma {:induction false} FieldChangeGraph(tree: Tree, t: Target, change: Change)
    requires GoodNodes(tree.nodes) && ChangedField(tree, t, change).Some?
    ensures GoodNodes(ChangedField(tree, t, change).value)
    ensures GraphOf(ChangedField(tree, t, change).value) == GraphOf(tree.nodes)
  {
    var i := Find(tree.nodes, NodeId, t.block);
    ChangeKeepsNode(tree.catalog, tree.nodes[i], t, change);
    GoodUpdate(tree.nodes, i, ChangedNode(tree.catalog, tree.nodes[i], t, change).value);
    IndexHas(tree.nodes, NodeId, BlockOf, i);
  }

  // ----- an accepted field operation applies and keeps kinds -----

  lemma {:induction false} ItemChangeFits(c: Catalog, n: Node, r: nat, k: nat, t: Target, change: Change)
    requires NodeFits(n, c) && r < |n.relations| && k < |n.relations[r].items|
    requires t.relation == n.relations[r].id && t.relation != NONE && t.OnItem()
    requires ChangeAccepted(RuleOf(c, n.kind, t.relation, n.relations[r].items[k].kind, t.field), t.path, change)
    ensures ChangedItem(c, n, r, k, t, change).Some?
    ensures NodeFits(ChangedItem(c, n, r, k, t, change).value, c)
  {
    var item := n.relations[r].items[k];
    ChangeKeepsHolderFit(c, n, item.kind, ItemHolder(item), t, change);
    var h := ChangedHolder(c, n, item.kind, ItemHolder(item), t, change).value;
    assert ItemHolder(ItemHolding(item, h)) == h;
    assert RelationFits(n.relations[r].items[k := ItemHolding(item, h)], c, n.kind, t.relation);
  }

  lemma {:induction false} NodeChangeFits(c: Catalog, n: Node, t: Target, change: Change)
    requires NodeFits(n, c) && !t.OnItem()
    requires ChangeAccepted(RuleOf(c, n.kind, NONE, NONE, t.field), t.path, change)
    ensures ChangedNode(c, n, t, change).Some?
    ensures NodeFits(ChangedNode(c, n, t, change).value, c)
  {
    ChangeKeepsHolderFit(c, n, NONE, BlockHolder(n), t, change);
    var h := ChangedHolder(c, n, NONE, BlockHolder(n), t, change).value;
    assert BlockHolder(BlockHolding(n, h)) == h;
  }

  /** The rule validation found through the graph is the rule of the stored holder. */
  ghost predicate TargetAccepted(c: Catalog, g: Graph, t: Target, change: Change) {
    && CanonicalTarget(t) && t.block in g
    && (if t.OnItem() then
          t.relation in g[t.block].relations && t.item in g[t.block].relations[t.relation] &&
          ChangeAccepted(RuleOf(c, g[t.block].kind, t.relation, g[t.block].relations[t.relation][t.item], t.field), t.path, change)
        else
          ChangeAccepted(RuleOf(c, g[t.block].kind, NONE, NONE, t.field), t.path, change))
  }

  lemma {:induction false} FieldChangeApplies(tree: Tree, t: Target, change: Change)
    requires GoodNodes(tree.nodes) && NodesFit(tree.nodes, tree.catalog)
    requires TargetAccepted(tree.catalog, GraphOf(tree.nodes), t, change)
    ensures ChangedField(tree, t, change).Some?
    ensures NodesFit(ChangedField(tree, t, change).value, tree.catalog)
  {
    GraphHas(tree.nodes, t.block);
    var n := tree.nodes[Find(tree.nodes, NodeId, t.block)];
    if t.OnItem() {
      FindIndexed(n.relations, RelationId, ItemsOf, t.relation);
      var r := Find(n.relations, RelationId, t.relation);
      FindIndexed(n.relations[r].items, ItemId, KindOfItem, t.item);
      ItemChangeFits(tree.catalog, n, r, Find(n.relations[r].items, ItemId, t.item), t, change);
    } else {
      NodeChangeFits(tree.catalog, n, t, change);
    }
  }

  function ChangeOf(op: Operation): Option<Change> {
    match op
    case SetField(_, value) => Some(Value(Set(value)))
    case UnsetField(_) => Some(Value(Unset))
    case AttachFile(_, file) => Some(File(Some(file)))
    case DetachFile(_) => Some(File(None))
    case _ => None
  }

  lemma {:induction false} AcceptedTarget(v: Validator, op: Operation)
    requires Forest(v.graph) && ValidCatalog(v.catalog) && Validate(v, op).None? && ChangeOf(op).Some?
    ensures TargetAccepted(v.catalog, v.graph, op.target, ChangeOf(op).value)
  {
    var t := op.target;
    var block := v.graph[t.block];
    var rule := FieldRuleOf(v, t).value;
    var itemKind := if t.OnItem() then block.relations[t.relation][t.item] else NONE;
    assert RuleOf(v.catalog, block.kind, t.relation, itemKind, t.field) == Some(rule);
    if op.SetField? && Resolve(rule, t.path).value.schema.Some? {
      FittingValueFitsKinds(op.value, Resolve(rule, t.path).value.schema.value, 0, v.strings);
    }
  }
}
