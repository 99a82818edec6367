/** Any accepted batch, with no condition on kind replacements or moves: validation's
    graph has the tree's blocks exactly, and every relation item the tree still has. */
module GraphCover {
  import opened Lists
  import opened Values
  import opened Schemas
  import opened Documents
  import opened BlockGraph
  import opened Validation
  import opened Mutation
  import opened GraphSoundness
  import opened ValueSoundness
  import opened BatchSoundness

  ghost predicate CoversItems(a: map<ItemID, ItemKind>, b: map<ItemID, ItemKind>) {
    forall x :: x in a ==> x in b && b[x] == a[x]
  }

  ghost predicate CoversBlock(a: GraphBlock, b: GraphBlock) {
    && a.kind == b.kind && a.parent == b.parent
    && forall r :: r in a.relations ==> r in b.relations && CoversItems(a.relations[r], b.relations[r])
  }

  /** `h` has the blocks of `g`, and its relation items among others. */
  ghost predicate Covers(g: Graph, h: Graph) {
    g.Keys == h.Keys && forall id :: id in g ==> CoversBlock(g[id], h[id])
  }

  lemma {:induction false} RemovedAlike(g: Graph, h: Graph, block: BlockID)
    requires Covers(g, h)
    ensures Removed(g, block) == Removed(h, block)
  {
    forall id ensures Below(g, id, block) <==> Below(h, id, block) {
      if k: nat :| Climbs(g, id, k, block) {
        ClimbsSameParents(g, h, id, k, block);
      }
      if k: nat :| Climbs(h, id, k, block) {
        ClimbsSameParents(h, g, id, k, block);
      }
    }
  }

  /** Placing an item adds it, or drops it for want of its anchor. */
  lemma {:induction false} RelationWithCover(relation: Relation, moved: RelationItem, after: ItemID)
    requires GoodRelation(relation) && moved.id != NONE
    ensures GoodRelation(RelationWith(relation, moved, after))
    ensures CoversItems(ItemsOf(RelationWith(relation, moved, after)), ItemsOf(relation)[moved.id := moved.kind])
  {
    if after == NONE || (after != moved.id && after in ItemsOf(relation)) {
      RelationWithGraph(relation, moved, after);
    } else {
      AnchorAbsent(relation, moved, after);
      RelationWithoutGraph(relation, moved.id);
    }
  }

  lemma {:induction false} AnchorAbsent(relation: Relation, moved: RelationItem, after: ItemID)
    requires GoodRelation(relation) && after != NONE && (after == moved.id || after !in ItemsOf(relation))
    ensures RelationWith(relation, moved, after) == RelationWithout(relation, moved.id)
  {
    WithoutIdGraph(relation.items, moved.id);
    FindIndexed(WithoutId(relation.items, moved.id), ItemId, KindOfItem, after);
  }

  lemma {:induction false} RelationsWithCover(n: Node, id: RelationID, moved: RelationItem, after: ItemID)
    requires GoodNode(n) && moved.id != NONE
    ensures var m := n.(relations := RelationsWith(n.relations, id, moved, after));
            GoodNode(m) && CoversBlock(BlockOf(m), WithItem(BlockOf(n), id, moved.id, moved.kind))
  {
    var r := Find(n.relations, RelationId, id);
    FindIndexed(n.relations, RelationId, ItemsOf, id);
    if r == |n.relations| {
      var empty := Relation(id, []);
      RelationWithCover(empty, moved, after);
      IndexAppend(n.relations, RelationId, ItemsOf, RelationWith(empty, moved, after));
      assert ItemsOf(empty) == map[];
    } else {
      RelationWithCover(n.relations[r], moved, after);
      IndexUpdate(n.relations, RelationId, ItemsOf, r, RelationWith(n.relations[r], moved, after));
    }
  }

  lemma {:induction false} WithItemCovers(a: GraphBlock, b: GraphBlock, c: GraphBlock, relation: RelationID, item: ItemID, kind: ItemKind)
    requires CoversBlock(a, b) && CoversBlock(c, WithItem(a, relation, item, kind))
    ensures CoversBlock(c, WithItem(b, relation, item, kind))
  {
    var m := WithItem(b, relation, item, kind);
    forall r | r in c.relations ensures r in m.relations && CoversItems(c.relations[r], m.relations[r]) {
      assert r in WithItem(a, relation, item, kind).relations;
    }
  }

  lemma {:induction false} WithoutItemCovers(a: GraphBlock, b: GraphBlock, relation: RelationID, item: ItemID)
    requires CoversBlock(a, b)
    ensures CoversBlock(WithoutItem(a, relation, item), WithoutItem(b, relation, item))
  {
  }

  lemma {:induction false} InsertedItemCover(nodes: seq<Node>, h: Graph, block: BlockID, relation: RelationID, item: RelationItem, after: ItemID)
    requires GoodNodes(nodes) && Covers(GraphOf(nodes), h) && item.id != NONE && block in h
    ensures InsertedItem(nodes, block, relation, item, after).Some?
    ensures GoodNodes(InsertedItem(nodes, block, relation, item, after).value)
    ensures Covers(GraphOf(InsertedItem(nodes, block, relation, item, after).value),
                   h[block := WithItem(h[block], relation, item.id, item.kind)])
  {
    GraphHas(nodes, block);
    var i := Find(nodes, NodeId, block);
    var m := nodes[i].(relations := RelationsWith(nodes[i].relations, relation, item, after));
    RelationsWithCover(nodes[i], relation, item, after);
    GoodUpdate(nodes, i, m);
    WithItemCovers(BlockOf(nodes[i]), h[block], BlockOf(m), relation, item.id, item.kind);
    CoversPut(GraphOf(nodes), h, block, BlockOf(m), WithItem(h[block], relation, item.id, item.kind));
  }

  lemma {:induction false} CoversPut(g: Graph, h: Graph, block: BlockID, a: GraphBlock, b: GraphBlock)
    requires Covers(g, h) && CoversBlock(a, b)
    ensures Covers(g[block := a], h[block := b])
  {
  }

  lemma {:induction false} DeletedItemCover(nodes: seq<Node>, h: Graph, block: BlockID, relation: RelationID, item: ItemID)
    requires GoodNodes(nodes) && Covers(GraphOf(nodes), h) && DeletedItem(nodes, block, relation, item).Some?
    ensures GoodNodes(DeletedItem(nodes, block, relation, item).value) && block in h
    ensures Covers(GraphOf(DeletedItem(nodes, block, relation, item).value), h[block := WithoutItem(h[block], relation, item)])
  {
    GraphHas(nodes, block);
    var i := Find(nodes, NodeId, block);
    var r := Find(nodes[i].relations, RelationId, relation);
    RelationsWithoutGraph(nodes[i], r, item);
    GoodUpdate(nodes, i, nodes[i].(relations := nodes[i].relations[r := RelationWithout(nodes[i].relations[r], item)]));
    WithoutItemCovers(BlockOf(nodes[i]), h[block], relation, item);
  }

  lemma {:induction false} RelationCover(tree: Tree, v: Validator, op: Operation)
    requires GoodNodes(tree.nodes) && Forest(v.graph) && Covers(GraphOf(tree.nodes), v.graph)
    requires Validate(v, op).None? && AppliedNodes(tree, op).Some?
    requires op.InsertRelationItem? || op.DeleteRelationItem? || op.MoveRelationItem?
    ensures GoodNodes(AppliedNodes(tree, op).value)
    ensures Covers(GraphOf(AppliedNodes(tree, op).value), Accepted(v, op).graph)
  {
    var nodes, h := tree.nodes, v.graph;
    match op
    case InsertRelationItem(block, relation, item, kind, after) =>
      InsertedItemCover(nodes, h, block, relation, RelationItem(item, kind, 0, [], [], []), after);
    case DeleteRelationItem(block, relation, item) => DeletedItemCover(nodes, h, block, relation, item);
    case MoveRelationItem(block, relation, item, targetBlock, targetRelation, after) =>
      var moved := ItemAt(nodes, block, relation, item).value;
      ItemAtGraph(nodes, block, relation, item);
      DeletedItemCover(nodes, h, block, relation, item);
      MovedKind(nodes, h, block, relation, item);
      InsertedItemCover(DeletedItem(nodes, block, relation, item).value, h[block := WithoutItem(h[block], relation, item)],
                        targetBlock, targetRelation, moved, after);
  }

  lemma {:induction false} MovedKind(nodes: seq<Node>, h: Graph, block: BlockID, relation: RelationID, item: ItemID)
    requires GoodNodes(nodes) && Covers(GraphOf(nodes), h) && ItemAt(nodes, block, relation, item).Some?
    ensures block in h && relation in h[block].relations && item in h[block].relations[relation]
    ensures h[block].relations[relation][item] == ItemAt(nodes, block, relation, item).value.kind
  {
    ItemAtGraph(nodes, block, relation, item);
    assert CoversBlock(GraphOf(nodes)[block], h[block]);
    assert CoversItems(GraphOf(nodes)[block].relations[relation], h[block].relations[relation]);
  }

  lemma {:induction false} ReplaceCover(nodes: seq<Node>, h: Graph, block: BlockID, kind: BlockKind)
    requires GoodNodes(nodes) && Covers(GraphOf(nodes), h) && block in h
    ensures Replaced(nodes, block, kind).Some? && GoodNodes(Replaced(nodes, block, kind).value)
    ensures Covers(GraphOf(Replaced(nodes, block, kind).value), h[block := h[block].(kind := kind)])
  {
    ReplaceStep(nodes, block, kind);
    CoversPut(GraphOf(nodes), h, block, GraphBlock(kind, h[block].parent, map[]), h[block].(kind := kind));
  }

  lemma {:induction false} InsertCover(nodes: seq<Node>, h: Graph, block: BlockID, kind: BlockKind, parent: BlockID, after: BlockID)
    requires GoodNodes(nodes) && Covers(GraphOf(nodes), h) && block !in h && block != NONE
    ensures var added := nodes + [Node(block, kind, parent, 0, [], [], [], [])];
            GoodNodes(PlacedBlock(added, block, parent, after)) &&
            Covers(GraphOf(PlacedBlock(added, block, parent, after)), h[block := GraphBlock(kind, parent, map[])])
  {
    InsertGraph(nodes, block, kind, parent, after);
  }

  lemma {:induction false} DeleteCover(nodes: seq<Node>, h: Graph, block: BlockID)
    requires GoodNodes(nodes) && Covers(GraphOf(nodes), h)
    ensures GoodNodes(WithoutSubtree(nodes, block)) && Covers(GraphOf(WithoutSubtree(nodes, block)), h - Removed(h, block))
  {
    DeleteGraph(nodes, block);
    RemovedAlike(GraphOf(nodes), h, block);
  }

  lemma {:induction false} MoveCover(nodes: seq<Node>, h: Graph, block: BlockID, parent: BlockID, after: BlockID)
    requires GoodNodes(nodes) && Covers(GraphOf(nodes), h) && block in h
    ensures GoodNodes(PlacedBlock(nodes, block, parent, after))
    ensures Covers(GraphOf(PlacedBlock(nodes, block, parent, after)), Moved(h, block, parent))
  {
    MoveGraph(nodes, block, parent, after);
  }

  lemma {:induction false} BlockCover(tree: Tree, v: Validator, op: Operation)
    requires GoodNodes(tree.nodes) && Forest(v.graph) && Covers(GraphOf(tree.nodes), v.graph) && Validate(v, op).None?
    requires op.InsertBlock? || op.DeleteBlock? || op.MoveBlock?
    ensures GoodNodes(AppliedNodes(tree, op).value)
    ensures Covers(GraphOf(AppliedNodes(tree, op).value), Accepted(v, op).graph)
  {
    match op
    case InsertBlock(block, kind, parent, after) => InsertCover(tree.nodes, v.graph, block, kind, parent, after);
    case DeleteBlock(block) => DeleteCover(tree.nodes, v.graph, block);
    case MoveBlock(block, parent, after) => MoveCover(tree.nodes, v.graph, block, parent, after);
  }

  /** An accepted operation that applies keeps the tree covered; only one that
      addresses a field or an existing item can fail to apply. */
  lemma {:induction false} StepCovered(tree: Tree, v: Validator, op: Operation)
    requires GoodNodes(tree.nodes) && Forest(v.graph) && Covers(GraphOf(tree.nodes), v.graph) && Validate(v, op).None?
    ensures Applied(tree, op).None? ==> ChangeOf(op).Some? || op.DeleteRelationItem? || op.MoveRelationItem?
    ensures Applied(tree, op).Some? ==>
              GoodNodes(Applied(tree, op).value.nodes) && Covers(GraphOf(Applied(tree, op).value.nodes), Accepted(v, op).graph)
  {
    if op.InsertBlock? || op.DeleteBlock? || op.MoveBlock? {
      BlockCover(tree, v, op);
    } else if op.ReplaceBlockKind? {
      ReplaceCover(tree.nodes, v.graph, op.block, op.kind);
    } else if op.DeleteTranslation? {
      UntranslatedGraph(tree.nodes);
    } else if op.InsertRelationItem? {
      InsertedItemCover(tree.nodes, v.graph, op.block, op.relation, RelationItem(op.item, op.itemKind, 0, [], [], []), op.afterItem);
      RelationCover(tree, v, op);
    } else if Applied(tree, op).Some? {
      if ChangeOf(op).Some? {
        FieldChangeGraph(tree, op.target, ChangeOf(op).value);
      } else if op.DeleteRelationItem? || op.MoveRelationItem? {
        RelationCover(tree, v, op);
      }
    }
  }

  /** Over any accepted batch that applies, the tree's blocks, kinds and parents are
      the graph's, and its relation items are among the graph's. */
  lemma {:induction false} BatchCovered(tree: Tree, v: Validator, ops: seq<Operation>)
    requires GoodNodes(tree.nodes) && Forest(v.graph) && Covers(GraphOf(tree.nodes), v.graph) && AcceptedAll(v, ops)
    requires AppliedAll(tree, ops).Some?
    ensures GoodNodes(AppliedAll(tree, ops).value.nodes)
    ensures Covers(GraphOf(AppliedAll(tree, ops).value.nodes), AcceptedThrough(v, ops).graph)
    decreases |ops|
  {
    if ops != [] {
      AcceptedKeepsForest(v, ops[0]);
      StepCovered(tree, v, ops[0]);
      BatchCovered(Applied(tree, ops[0]).value, Accepted(v, ops[0]), ops[1..]);
    }
  }
}
