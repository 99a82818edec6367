/** When an accepted batch applies, and when it keeps stored values fitting their
    rules: exactly, as conditions on the tree that can be checked before each
    operation. Nothing here asks that graph and tree agree on relation items. */
module BatchApplication {
  import opened Lists
  import opened Values
  import opened Schemas
  import opened Documents
  import opened BlockGraph
  import opened Validation
  import opened Mutation
  import opened GraphSoundness
  import opened ValueSoundness
  import opened BatchSoundness
  import opened GraphCover

  // ----- structural operations keep values fitting -----

  lemma {:induction false} SubsetItemsFit(
    some: seq<RelationItem>, items: seq<RelationItem>, c: Catalog, kind: BlockKind, relation: RelationID)
    requires RelationFits(items, c, kind, relation) && forall x :: x in some ==> x in items
    ensures RelationFits(NumberedItems(some), c, kind, relation)
  {
    var numbered := NumberedItems(some);
    forall k | 0 <= k < |some| ensures HolderFits(ItemHolder(numbered[k]), c, kind, relation, numbered[k].kind) {
      assert some[k] in some;
      var j :| 0 <= j < |items| && items[j] == some[k];
      assert ItemHolder(numbered[k]) == ItemHolder(items[j]);
    }
  }

  lemma {:induction false} RelationWithFits(relation: Relation, moved: RelationItem, after: ItemID, c: Catalog, kind: BlockKind)
    requires RelationFits(relation.items, c, kind, relation.id)
    requires HolderFits(ItemHolder(moved), c, kind, relation.id, moved.kind)
    ensures RelationFits(RelationWith(relation, moved, after).items, c, kind, relation.id)
  {
    var others := WithoutId(relation.items, moved.id);
    var placed := PlacedItem(others, moved, after);
    assert RelationFits(relation.items + [moved], c, kind, relation.id);
    forall x | x in placed ensures x in relation.items + [moved] {
      if x != moved {
        assert x in others;
      }
    }
    SubsetItemsFit(placed, relation.items + [moved], c, kind, relation.id);
  }

  lemma {:induction false} InsertedItemFits(
    nodes: seq<Node>, block: BlockID, relation: RelationID, item: RelationItem, after: ItemID, c: Catalog)
    requires NodesFit(nodes, c) && relation != NONE && InsertedItem(nodes, block, relation, item, after).Some?
    requires var n := nodes[Find(nodes, NodeId, block)]; HolderFits(ItemHolder(item), c, n.kind, relation, item.kind)
    ensures NodesFit(InsertedItem(nodes, block, relation, item, after).value, c)
  {
    var n := nodes[Find(nodes, NodeId, block)];
    var r := Find(n.relations, RelationId, relation);
    var target := if r == |n.relations| then Relation(relation, []) else n.relations[r];
    RelationWithFits(target, item, after, c, n.kind);
    assert NodeFits(n.(relations := RelationsWith(n.relations, relation, item, after)), c);
  }

  lemma {:induction false} DeletedItemFits(nodes: seq<Node>, block: BlockID, relation: RelationID, item: ItemID, c: Catalog)
    requires NodesFit(nodes, c) && DeletedItem(nodes, block, relation, item).Some?
    ensures NodesFit(DeletedItem(nodes, block, relation, item).value, c)
  {
    var n := nodes[Find(nodes, NodeId, block)];
    var r := Find(n.relations, RelationId, relation);
    SubsetItemsFit(WithoutId(n.relations[r].items, item), n.relations[r].items, c, n.kind, n.relations[r].id);
    assert NodeFits(n.(relations := n.relations[r := RelationWithout(n.relations[r], item)]), c);
  }

  lemma {:induction false} SameBodyFits(a: Node, b: Node, c: Catalog)
    requires NodeFits(a, c) && b.kind == a.kind && b.shared == a.shared && b.localized == a.localized && b.relations == a.relations
    ensures NodeFits(b, c)
  {
  }

  lemma {:induction false} PlacedFits(nodes: seq<Node>, block: BlockID, parent: BlockID, after: BlockID, c: Catalog)
    requires NodesFit(nodes, c)
    ensures NodesFit(PlacedBlock(nodes, block, parent, after), c)
  {
    PlacedShape(nodes, block, parent, after);
    var placed := PlacedBlock(nodes, block, parent, after);
    forall i | 0 <= i < |placed| ensures NodeFits(placed[i], c) {
      assert placed[i].(order := 0) == Reparent(nodes[i], block, parent).(order := 0);
      assert placed[i].(order := 0).shared == nodes[i].shared && placed[i].(order := 0).localized == nodes[i].localized;
      assert placed[i].(order := 0).relations == nodes[i].relations && placed[i].(order := 0).kind == nodes[i].kind;
      SameBodyFits(nodes[i], placed[i], c);
    }
  }

  lemma {:induction false} DeletedFits(nodes: seq<Node>, block: BlockID, c: Catalog)
    requires NodesFit(nodes, c)
    ensures NodesFit(WithoutSubtree(nodes, block), c)
  {
    var gone := Removed(GraphOf(nodes), block);
    var kept := Filter(nodes, (n: Node) => n.id !in gone);
    var sorted, numbered := SortBy(kept, ListingKey), Renumbered(kept);
    forall i | 0 <= i < |numbered| ensures NodeFits(numbered[i], c) {
      SortElements(kept, ListingKey, sorted[i]);
      assert sorted[i] in kept;
      var j :| 0 <= j < |nodes| && nodes[j] == sorted[i];
      SameBodyFits(nodes[j], numbered[i], c);
    }
  }

  lemma {:induction false} UntranslatedFits(nodes: seq<Node>, c: Catalog)
    requires NodesFit(nodes, c)
    ensures NodesFit(Map(nodes, UntranslatedNode), c)
  {
    var after := Map(nodes, UntranslatedNode);
    forall i | 0 <= i < |nodes| ensures NodeFits(after[i], c) {
      UntranslatedNodeFits(nodes[i], c);
    }
  }

  lemma {:induction false} UntranslatedNodeFits(n: Node, c: Catalog)
    requires NodeFits(n, c)
    ensures NodeFits(UntranslatedNode(n), c)
  {
    var after := UntranslatedNode(n);
    forall r | 0 <= r < |n.relations|
      ensures after.relations[r].id == n.relations[r].id && RelationFits(after.relations[r].items, c, n.kind, n.relations[r].id)
    {
      assert RelationFits(n.relations[r].items, c, n.kind, n.relations[r].id);
    }
  }

  lemma {:induction false} MovedHolderFits(nodes: seq<Node>, block: BlockID, relation: RelationID, item: ItemID, c: Catalog)
    requires NodesFit(nodes, c) && ItemAt(nodes, block, relation, item).Some?
    ensures var moved := ItemAt(nodes, block, relation, item).value;
            HolderFits(ItemHolder(moved), c, nodes[Find(nodes, NodeId, block)].kind, relation, moved.kind)
  {
    var n := nodes[Find(nodes, NodeId, block)];
    var r := Find(n.relations, RelationId, relation);
    assert RelationFits(n.relations[r].items, c, n.kind, n.relations[r].id);
  }

  lemma {:induction false} SameRulesFit(
    h: Holder, c: Catalog, kind: BlockKind, relation: RelationID, kind': BlockKind, relation': RelationID, itemKind: ItemKind)
    requires HolderFits(h, c, kind, relation, itemKind)
    requires forall field :: RuleOf(c, kind, relation, itemKind, field) == RuleOf(c, kind', relation', itemKind, field)
    ensures HolderFits(h, c, kind', relation', itemKind)
  {
  }

  lemma {:induction false} InsertBlockFits(nodes: seq<Node>, block: BlockID, kind: BlockKind, parent: BlockID, after: BlockID, c: Catalog)
    requires NodesFit(nodes, c)
    ensures NodesFit(PlacedBlock(nodes + [Node(block, kind, parent, 0, [], [], [], [])], block, parent, after), c)
  {
    var n := Node(block, kind, parent, 0, [], [], [], []);
    assert NodeFits(n, c);
    PlacedFits(nodes + [n], block, parent, after, c);
  }

  // ----- when an operation applies -----

  /** What the operation addresses is in the tree: the relation of an item to delete,
      the item to move, the item whose field or file is written. */
  predicate InTree(tree: Tree, op: Operation) {
    var g := GraphOf(tree.nodes);
    match op
    case DeleteRelationItem(block, relation, _) => block in g && relation in g[block].relations
    case MoveRelationItem(block, relation, item, _, _, _) => RequireRelationItem(g, block, relation, item).None?
    case SetField(t, _) => TargetInTree(g, t)
    case UnsetField(t) => TargetInTree(g, t)
    case AttachFile(t, _) => TargetInTree(g, t)
    case DetachFile(t) => TargetInTree(g, t)
    case _ => true
  }

  predicate TargetInTree(g: Graph, t: Target) {
    t.OnItem() ==> RequireRelationItem(g, t.block, t.relation, t.item).None?
  }

  /** The tree under validation: good nodes, of which the graph has all blocks. */
  ghost predicate Covered(tree: Tree, v: Validator) {
    && ValidCatalog(tree.catalog) && tree.catalog == v.catalog
    && GoodNodes(tree.nodes) && Forest(v.graph) && Covers(GraphOf(tree.nodes), v.graph)
  }

  lemma {:induction false} CoveredTarget(c: Catalog, g: Graph, h: Graph, t: Target, change: Change)
    requires Covers(g, h) && TargetAccepted(c, h, t, change) && TargetInTree(g, t)
    ensures TargetAccepted(c, g, t, change)
  {
    assert CoversBlock(g[t.block], h[t.block]);
    if t.OnItem() {
      assert CoversItems(g[t.block].relations[t.relation], h[t.block].relations[t.relation]);
    }
  }

  lemma {:induction false} MissingItem(tree: Tree, t: Target, change: Change)
    requires GoodNodes(tree.nodes) && t.OnItem() && !TargetInTree(GraphOf(tree.nodes), t)
    ensures ChangedField(tree, t, change).None?
  {
    ItemAtGraph(tree.nodes, t.block, t.relation, t.item);
  }

  lemma {:induction false} FieldAppliesIff(tree: Tree, v: Validator, op: Operation)
    requires Covered(tree, v) && NodesFit(tree.nodes, tree.catalog) && Validate(v, op).None? && ChangeOf(op).Some?
    ensures ChangedField(tree, op.target, ChangeOf(op).value).Some? <==> TargetInTree(GraphOf(tree.nodes), op.target)
    ensures ChangedField(tree, op.target, ChangeOf(op).value).Some? ==>
              NodesFit(ChangedField(tree, op.target, ChangeOf(op).value).value, tree.catalog)
  {
    if TargetInTree(GraphOf(tree.nodes), op.target) {
      AcceptedTarget(v, op);
      CoveredTarget(tree.catalog, GraphOf(tree.nodes), v.graph, op.target, ChangeOf(op).value);
      FieldChangeApplies(tree, op.target, ChangeOf(op).value);
    } else {
      MissingItem(tree, op.target, ChangeOf(op).value);
    }
  }

  lemma {:induction false} DeleteAppliesIff(nodes: seq<Node>, block: BlockID, relation: RelationID, item: ItemID)
    requires GoodNodes(nodes)
    ensures DeletedItem(nodes, block, relation, item).Some? <==> block in GraphOf(nodes) && relation in GraphOf(nodes)[block].relations
  {
    GraphHas(nodes, block);
    var i := Find(nodes, NodeId, block);
    if i < |nodes| {
      assert GoodNode(nodes[i]);
      FindIndexed(nodes[i].relations, RelationId, ItemsOf, relation);
    }
  }

  lemma {:induction false} MoveAppliesIff(tree: Tree, v: Validator, op: Operation)
    requires Covered(tree, v) && Validate(v, op).None? && op.MoveRelationItem?
    ensures AppliedNodes(tree, op).Some? <==> RequireRelationItem(GraphOf(tree.nodes), op.block, op.relation, op.item).None?
  {
    var MoveRelationItem(block, relation, item, targetBlock, targetRelation, after) := op;
    ItemAtGraph(tree.nodes, block, relation, item);
    DeleteAppliesIff(tree.nodes, block, relation, item);
    if ItemAt(tree.nodes, block, relation, item).Some? {
      DeletedItemCover(tree.nodes, v.graph, block, relation, item);
      MovedKind(tree.nodes, v.graph, block, relation, item);
      InsertedItemCover(DeletedItem(tree.nodes, block, relation, item).value,
                        v.graph[block := WithoutItem(v.graph[block], relation, item)],
                        targetBlock, targetRelation, ItemAt(tree.nodes, block, relation, item).value, after);
    }
  }

  /** An accepted operation applies exactly when what it addresses is in the tree. */
  lemma {:induction false} StepAppliesIff(tree: Tree, v: Validator, op: Operation)
    requires Covered(tree, v) && NodesFit(tree.nodes, tree.catalog) && Validate(v, op).None?
    ensures Applied(tree, op).Some? <==> InTree(tree, op)
  {
    if ChangeOf(op).Some? {
      FieldAppliesIff(tree, v, op);
    } else if op.DeleteRelationItem? {
      DeleteAppliesIff(tree.nodes, op.block, op.relation, op.item);
    } else if op.MoveRelationItem? {
      MoveAppliesIff(tree, v, op);
    } else {
      StepCovered(tree, v, op);
    }
  }

  // ----- when an operation keeps values fitting -----

  /** The anchor is not among the items of the relation, so the item is dropped. */
  predicate AnchorGone(g: Graph, block: BlockID, relation: RelationID, after: ItemID) {
    after != NONE && !(block in g && relation in g[block].relations && after in g[block].relations[relation])
  }

  lemma {:induction false} RelationWithFitsIff(relation: Relation, moved: RelationItem, after: ItemID, c: Catalog, kind: BlockKind)
    requires GoodRelation(relation) && RelationFits(relation.items, c, kind, relation.id) && after != moved.id && moved.id != NONE
    ensures RelationFits(RelationWith(relation, moved, after).items, c, kind, relation.id) <==>
              (after != NONE && after !in ItemsOf(relation)) || HolderFits(ItemHolder(moved), c, kind, relation.id, moved.kind)
  {
    var others := WithoutId(relation.items, moved.id);
    var placed := PlacedItem(others, moved, after);
    var numbered := NumberedItems(placed);
    if after != NONE && after !in ItemsOf(relation) {
      AnchorAbsent(relation, moved, after);
      SubsetItemsFit(others, relation.items, c, kind, relation.id);
    } else {
      WithoutIdGraph(relation.items, moved.id);
      FindIndexed(others, ItemId, KindOfItem, after);
      PlacedItemMultiset(others, moved, after);
      SameMultisetSameElements(placed, others + [moved]);
      assert (others + [moved])[|others|] == moved;
      assert moved in placed;
      var k :| 0 <= k < |placed| && placed[k] == moved;
      assert ItemHolder(numbered[k]) == ItemHolder(moved) && numbered[k].kind == moved.kind;
      if HolderFits(ItemHolder(moved), c, kind, relation.id, moved.kind) {
        RelationWithFits(relation, moved, after, c, kind);
      }
    }
  }

  lemma {:induction false} InsertedItemFitsIff(
    nodes: seq<Node>, block: BlockID, relation: RelationID, item: RelationItem, after: ItemID, c: Catalog)
    requires GoodNodes(nodes) && NodesFit(nodes, c) && relation != NONE && item.id != NONE && after != item.id
    requires InsertedItem(nodes, block, relation, item, after).Some?
    ensures block in GraphOf(nodes)
    ensures NodesFit(InsertedItem(nodes, block, relation, item, after).value, c) <==>
              AnchorGone(GraphOf(nodes), block, relation, after) ||
              HolderFits(ItemHolder(item), c, GraphOf(nodes)[block].kind, relation, item.kind)
  {
    GraphHas(nodes, block);
    var i := Find(nodes, NodeId, block);
    var n := nodes[i];
    var r := Find(n.relations, RelationId, relation);
    FindIndexed(n.relations, RelationId, ItemsOf, relation);
    var target := if r == |n.relations| then Relation(relation, []) else n.relations[r];
    assert r == |n.relations| ==> ItemsOf(target) == map[];
    RelationWithFitsIff(target, item, after, c, n.kind);
    RelationsFitIff(n, r, RelationWith(target, item, after), c);
    NodesFitAfter(nodes, i, n.(relations := RelationsWith(n.relations, relation, item, after)), c);
  }

  lemma {:induction false} RelationsFitIff(n: Node, r: nat, relation: Relation, c: Catalog)
    requires NodeFits(n, c) && r <= |n.relations| && relation.id != NONE
    ensures NodeFits(n.(relations := if r == |n.relations| then n.relations + [relation] else n.relations[r := relation]), c)
         <==> RelationFits(relation.items, c, n.kind, relation.id)
  {
    var m := n.(relations := if r == |n.relations| then n.relations + [relation] else n.relations[r := relation]);
    assert m.relations[r] == relation;
    assert BlockHolder(m) == BlockHolder(n);
  }

  lemma {:induction false} NodesFitAfter(nodes: seq<Node>, i: nat, m: Node, c: Catalog)
    requires NodesFit(nodes, c) && i < |nodes|
    ensures NodesFit(nodes[i := m], c) <==> NodeFits(m, c)
  {
    assert nodes[i := m][i] == m;
  }

  /** A moved item that stays fits the rules of where it lands. */
  ghost predicate LandsFit(tree: Tree, op: Operation) {
    op.MoveRelationItem? && ItemAt(tree.nodes, op.block, op.relation, op.item).Some? && op.targetBlock in GraphOf(tree.nodes) ==>
      var moved := ItemAt(tree.nodes, op.block, op.relation, op.item).value;
      AnchorGone(GraphOf(tree.nodes), op.targetBlock, op.targetRelation, op.afterItem) ||
      HolderFits(ItemHolder(moved), tree.catalog, GraphOf(tree.nodes)[op.targetBlock].kind, op.targetRelation, moved.kind)
  }

  lemma {:induction false} DeletedItemGraph(nodes: seq<Node>, block: BlockID, relation: RelationID, item: ItemID)
    requires GoodNodes(nodes) && DeletedItem(nodes, block, relation, item).Some?
    ensures block in GraphOf(nodes) && GoodNodes(DeletedItem(nodes, block, relation, item).value)
    ensures GraphOf(DeletedItem(nodes, block, relation, item).value)
         == GraphOf(nodes)[block := WithoutItem(GraphOf(nodes)[block], relation, item)]
  {
    GraphHas(nodes, block);
    var i := Find(nodes, NodeId, block);
    var r := Find(nodes[i].relations, RelationId, relation);
    RelationsWithoutGraph(nodes[i], r, item);
    GoodUpdate(nodes, i, nodes[i].(relations := nodes[i].relations[r := RelationWithout(nodes[i].relations[r], item)]));
  }

  lemma {:induction false} MoveFitsIff(tree: Tree, v: Validator, op: Operation)
    requires Covered(tree, v) && NodesFit(tree.nodes, tree.catalog) && Validate(v, op).None? && op.MoveRelationItem?
    requires AppliedNodes(tree, op).Some?
    ensures NodesFit(AppliedNodes(tree, op).value, tree.catalog) <==> LandsFit(tree, op)
  {
    var MoveRelationItem(block, relation, item, targetBlock, targetRelation, after) := op;
    var nodes := tree.nodes;
    var moved, taken := ItemAt(nodes, block, relation, item).value, DeletedItem(nodes, block, relation, item).value;
    ItemAtGraph(nodes, block, relation, item);
    DeletedItemGraph(nodes, block, relation, item);
    DeletedItemFits(nodes, block, relation, item, tree.catalog);
    InsertedItemFitsIff(taken, targetBlock, targetRelation, moved, after, tree.catalog);
    SameAnchor(GraphOf(nodes), block, relation, item, targetBlock, targetRelation, after);
  }

  lemma {:induction false} SameAnchor(
    g: Graph, block: BlockID, relation: RelationID, item: ItemID, targetBlock: BlockID, targetRelation: RelationID, after: ItemID)
    requires block in g && targetBlock in g && after != item
    ensures var taken := g[block := WithoutItem(g[block], relation, item)];
            taken[targetBlock].kind == g[targetBlock].kind &&
            (AnchorGone(taken, targetBlock, targetRelation, after) <==> AnchorGone(g, targetBlock, targetRelation, after))
  {
  }

  lemma {:induction false} BlockStepFits(tree: Tree, op: Operation)
    requires NodesFit(tree.nodes, tree.catalog) && AppliedNodes(tree, op).Some?
    requires op.InsertBlock? || op.DeleteBlock? || op.MoveBlock? || op.ReplaceBlockKind?
    ensures NodesFit(AppliedNodes(tree, op).value, tree.catalog)
  {
    match op
    case InsertBlock(block, kind, parent, after) => InsertBlockFits(tree.nodes, block, kind, parent, after, tree.catalog);
    case DeleteBlock(block) => DeletedFits(tree.nodes, block, tree.catalog);
    case MoveBlock(block, parent, after) => PlacedFits(tree.nodes, block, parent, after, tree.catalog);
    case ReplaceBlockKind(block, kind) =>
      var i := Find(tree.nodes, NodeId, block);
      NodesFitAfter(tree.nodes, i, Node(block, kind, tree.nodes[i].parent, tree.nodes[i].order, [], [], [], []), tree.catalog);
  }

  /** An accepted operation that applies keeps every stored value fitting its rule
      exactly when it lands no item under rules that the item does not fit. */
  lemma {:induction false} StepFitsIff(tree: Tree, v: Validator, op: Operation)
    requires Covered(tree, v) && NodesFit(tree.nodes, tree.catalog) && Validate(v, op).None? && Applied(tree, op).Some?
    ensures NodesFit(Applied(tree, op).value.nodes, tree.catalog) <==> LandsFit(tree, op)
  {
    if ChangeOf(op).Some? {
      FieldAppliesIff(tree, v, op);
    } else if op.InsertBlock? || op.DeleteBlock? || op.MoveBlock? || op.ReplaceBlockKind? {
      BlockStepFits(tree, op);
    } else if op.MoveRelationItem? {
      MoveFitsIff(tree, v, op);
    } else if op.InsertRelationItem? {
      InsertedItemFits(tree.nodes, op.block, op.relation, RelationItem(op.item, op.itemKind, 0, [], [], []), op.afterItem, tree.catalog);
    } else if op.DeleteRelationItem? {
      DeletedItemFits(tree.nodes, op.block, op.relation, op.item, tree.catalog);
    } else if op.DeleteTranslation? {
      UntranslatedFits(tree.nodes, tree.catalog);
    }
  }

  // ----- moves between relations with the same rules -----

  /** A moved item finds the same field rules where it lands, by the validator's graph. */
  ghost predicate LandsAlike(v: Validator, op: Operation) {
    op.MoveRelationItem? && OwnersPresent(v.graph, op) ==>
      var itemKind := v.graph[op.block].relations[op.relation][op.item];
      forall field ::
        RuleOf(v.catalog, v.graph[op.block].kind, op.relation, itemKind, field) ==
        RuleOf(v.catalog, v.graph[op.targetBlock].kind, op.targetRelation, itemKind, field)
  }

  lemma {:induction false} LandsAlikeFits(tree: Tree, v: Validator, op: Operation)
    requires Covered(tree, v) && NodesFit(tree.nodes, tree.catalog) && Validate(v, op).None? && LandsAlike(v, op)
    ensures LandsFit(tree, op)
  {
    if op.MoveRelationItem? && ItemAt(tree.nodes, op.block, op.relation, op.item).Some? && op.targetBlock in GraphOf(tree.nodes) {
      var g, moved := GraphOf(tree.nodes), ItemAt(tree.nodes, op.block, op.relation, op.item).value;
      MovedKind(tree.nodes, v.graph, op.block, op.relation, op.item);
      MovedHolderFits(tree.nodes, op.block, op.relation, op.item, tree.catalog);
      GraphHas(tree.nodes, op.block);
      assert CoversBlock(g[op.block], v.graph[op.block]) && CoversBlock(g[op.targetBlock], v.graph[op.targetBlock]);
      SameRulesFit(ItemHolder(moved), tree.catalog, g[op.block].kind, op.relation, g[op.targetBlock].kind, op.targetRelation, moved.kind);
    }
  }

  // ----- whole batches -----

  ghost predicate AlwaysLandsAlike(v: Validator, ops: seq<Operation>)
    requires Forest(v.graph) && AcceptedAll(v, ops)
    decreases |ops|
  {
    ops == [] ||
    (LandsAlike(v, ops[0]) && (AcceptedKeepsForest(v, ops[0]); AlwaysLandsAlike(Accepted(v, ops[0]), ops[1..])))
  }

  /** At each operation, as far as the batch applies. */
  ghost predicate AlwaysLandsFit(tree: Tree, ops: seq<Operation>)
    decreases |ops|
  {
    ops == [] ||
    (LandsFit(tree, ops[0]) && (Applied(tree, ops[0]).Some? ==> AlwaysLandsFit(Applied(tree, ops[0]).value, ops[1..])))
  }

  ghost predicate AlwaysInTree(tree: Tree, ops: seq<Operation>)
    decreases |ops|
  {
    ops == [] ||
    (InTree(tree, ops[0]) && (Applied(tree, ops[0]).Some? ==> AlwaysInTree(Applied(tree, ops[0]).value, ops[1..])))
  }

  /** Stored values fit before the batch and after each of its operations. */
  ghost predicate FitsThroughout(tree: Tree, ops: seq<Operation>)
    decreases |ops|
  {
    && NodesFit(tree.nodes, tree.catalog)
    && (ops != [] && Applied(tree, ops[0]).Some? ==> FitsThroughout(Applied(tree, ops[0]).value, ops[1..]))
  }

  lemma {:induction false} CoveredStep(tree: Tree, v: Validator, op: Operation)
    requires Covered(tree, v) && Validate(v, op).None? && Applied(tree, op).Some?
    ensures Covered(Applied(tree, op).value, Accepted(v, op))
  {
    StepCovered(tree, v, op);
    AcceptedKeepsForest(v, op);
  }

  /** Values fit through an accepted batch exactly when every moved item fits where it lands. */
  lemma {:induction false} BatchFitsIff(tree: Tree, v: Validator, ops: seq<Operation>)
    requires Covered(tree, v) && NodesFit(tree.nodes, tree.catalog) && AcceptedAll(v, ops)
    ensures FitsThroughout(tree, ops) <==> AlwaysLandsFit(tree, ops)
    decreases |ops|
  {
    if ops != [] {
      if Applied(tree, ops[0]).Some? {
        CoveredStep(tree, v, ops[0]);
        StepFitsIff(tree, v, ops[0]);
        if LandsFit(tree, ops[0]) {
          BatchFitsIff(Applied(tree, ops[0]).value, Accepted(v, ops[0]), ops[1..]);
        }
      } else {
        UnappliedLandsFit(tree, v, ops[0]);
      }
    }
  }

  lemma {:induction false} UnappliedLandsFit(tree: Tree, v: Validator, op: Operation)
    requires Covered(tree, v) && Validate(v, op).None? && Applied(tree, op).None?
    ensures LandsFit(tree, op)
  {
    if op.MoveRelationItem? {
      MoveAppliesIff(tree, v, op);
      ItemAtGraph(tree.nodes, op.block, op.relation, op.item);
    }
  }

  /** An accepted batch whose moved items fit applies exactly when everything it
      addresses is in the tree at its turn. */
  lemma {:induction false} BatchAppliesIff(tree: Tree, v: Validator, ops: seq<Operation>)
    requires Covered(tree, v) && NodesFit(tree.nodes, tree.catalog) && AcceptedAll(v, ops) && AlwaysLandsFit(tree, ops)
    ensures AppliedAll(tree, ops).Some? <==> AlwaysInTree(tree, ops)
    decreases |ops|
  {
    if ops != [] {
      StepAppliesIff(tree, v, ops[0]);
      if Applied(tree, ops[0]).Some? {
        CoveredStep(tree, v, ops[0]);
        StepFitsIff(tree, v, ops[0]);
        BatchAppliesIff(Applied(tree, ops[0]).value, Accepted(v, ops[0]), ops[1..]);
      }
    }
  }

  lemma {:induction false} LandsAlikeThroughout(tree: Tree, v: Validator, ops: seq<Operation>)
    requires Covered(tree, v) && NodesFit(tree.nodes, tree.catalog) && AcceptedAll(v, ops) && AlwaysLandsAlike(v, ops)
    ensures AlwaysLandsFit(tree, ops)
    decreases |ops|
  {
    if ops != [] {
      LandsAlikeFits(tree, v, ops[0]);
      if Applied(tree, ops[0]).Some? {
        CoveredStep(tree, v, ops[0]);
        StepFitsIff(tree, v, ops[0]);
        LandsAlikeThroughout(Applied(tree, ops[0]).value, Accepted(v, ops[0]), ops[1..]);
      }
    }
  }

  /** Every accepted batch whose moves land on equal rules keeps the kinds of stored
      values, whatever block kinds it replaces. */
  lemma {:induction false} BatchFits(tree: Tree, v: Validator, ops: seq<Operation>)
    requires Covered(tree, v) && NodesFit(tree.nodes, tree.catalog) && AcceptedAll(v, ops)
    requires AlwaysLandsAlike(v, ops) || AlwaysLandsFit(tree, ops)
    requires AppliedAll(tree, ops).Some?
    ensures NodesFit(AppliedAll(tree, ops).value.nodes, tree.catalog)
    decreases |ops|
  {
    if ops != [] {
      if AlwaysLandsAlike(v, ops) {
        LandsAlikeThroughout(tree, v, ops);
      }
      CoveredStep(tree, v, ops[0]);
      StepFitsIff(tree, v, ops[0]);
      BatchFits(Applied(tree, ops[0]).value, Accepted(v, ops[0]), ops[1..]);
    }
  }

  // ----- where graph and tree agree -----

  lemma {:induction false} AgreeingInTree(tree: Tree, v: Validator, op: Operation)
    requires GoodNodes(tree.nodes) && Forest(v.graph) && Agrees(tree, v) && Validate(v, op).None?
    ensures InTree(tree, op)
  {
  }

  /** Where graph and tree agree and no relations are dropped, an accepted batch whose
      moved items fit applies without error. */
  lemma {:induction false} AgreeingBatchApplies(tree: Tree, v: Validator, ops: seq<Operation>)
    requires ValidCatalog(tree.catalog) && GoodNodes(tree.nodes) && NodesFit(tree.nodes, tree.catalog)
    requires Forest(v.graph) && Agrees(tree, v) && AcceptedAll(v, ops) && NeverDrops(v, ops)
    requires AlwaysLandsFit(tree, ops)
    ensures AppliedAll(tree, ops).Some?
    decreases |ops|
  {
    if ops != [] {
      AgreeingInTree(tree, v, ops[0]);
      StepAppliesIff(tree, v, ops[0]);
      StepFitsIff(tree, v, ops[0]);
      StepAgrees(tree, v, ops[0]);
      AcceptedKeepsForest(v, ops[0]);
      AgreeingBatchApplies(Applied(tree, ops[0]).value, Accepted(v, ops[0]), ops[1..]);
    }
  }
}
