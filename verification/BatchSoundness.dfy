/** Whole batches: the graph that validation keeps through an accepted batch is the
    graph of the tree the batch leaves, exactly when no relations are dropped. */
module BatchSoundness {
  import opened Lists
  import opened Values
  import opened Schemas
  import opened Documents
  import opened BlockGraph
  import opened Validation
  import opened Mutation
  import opened GraphSoundness
  import opened ValueSoundness

  // ----- translations leave the graph -----

  lemma {:induction false} UntranslatedGraph(nodes: seq<Node>)
    requires GoodNodes(nodes)
    ensures var after := Map(nodes, UntranslatedNode); GoodNodes(after) && GraphOf(after) == GraphOf(nodes)
  {
    var after := Map(nodes, UntranslatedNode);
    forall i | 0 <= i < |nodes|
      ensures after[i].id == nodes[i].id && BlockOf(after[i]) == BlockOf(nodes[i]) && GoodNode(after[i])
    {
      UntranslatedNodeGraph(nodes[i]);
    }
    IndexPointwise(after, nodes, NodeId, BlockOf);
  }

  lemma {:induction false} UntranslatedNodeGraph(n: Node)
    requires GoodNode(n)
    ensures BlockOf(UntranslatedNode(n)) == BlockOf(n) && GoodNode(UntranslatedNode(n))
  {
    var after := UntranslatedNode(n);
    forall r | 0 <= r < |n.relations|
      ensures ItemsOf(after.relations[r]) == ItemsOf(n.relations[r]) && GoodRelation(after.relations[r])
    {
      IndexPointwise(after.relations[r].items, n.relations[r].items, ItemId, KindOfItem);
    }
    IndexPointwise(after.relations, n.relations, RelationId, ItemsOf);
  }

  // ----- item identifiers stay unique across the document -----

  ghost predicate HeldAt(g: Graph, block: BlockID, relation: RelationID, item: ItemID) {
    block in g && relation in g[block].relations && item in g[block].relations[relation]
  }

  /** No two relations of the document hold the same item. */
  ghost predicate ItemsUnique(g: Graph) {
    forall a, r, b, s, x :: HeldAt(g, a, r, x) && HeldAt(g, b, s, x) ==> a == b && r == s
  }

  lemma {:induction false} ItemsUniqueByHeldAt(g: Graph, h: Graph)
    requires ItemsUnique(g)
    requires forall b, r, x :: HeldAt(h, b, r, x) ==> HeldAt(g, b, r, x)
    ensures ItemsUnique(h)
  {
    forall a, r, b, s, x | HeldAt(h, a, r, x) && HeldAt(h, b, s, x) ensures a == b && r == s {
      assert HeldAt(g, a, r, x) && HeldAt(g, b, s, x);
    }
  }

  /** An item that no relation holds can be put in any one of them. */
  lemma {:induction false} ItemsUniqueAfterPut(g: Graph, block: BlockID, relation: RelationID, item: ItemID, kind: ItemKind)
    requires ItemsUnique(g) && block in g && forall b, r :: !HeldAt(g, b, r, item)
    ensures ItemsUnique(g[block := WithItem(g[block], relation, item, kind)])
  {
    var h := g[block := WithItem(g[block], relation, item, kind)];
    forall b, r, x | HeldAt(h, b, r, x) ensures HeldAt(g, b, r, x) || (b == block && r == relation && x == item) {
    }
  }

  /** Taking an item out leaves it nowhere. */
  lemma {:induction false} TakenIsGone(g: Graph, taken: Graph, block: BlockID, relation: RelationID, item: ItemID)
    requires ItemsUnique(g) && HeldAt(g, block, relation, item)
    requires taken == g[block := WithoutItem(g[block], relation, item)]
    ensures forall b, r :: !HeldAt(taken, b, r, item)
  {
    forall b, r ensures !HeldAt(taken, b, r, item) {
      assert HeldAt(taken, b, r, item) ==> HeldAt(g, b, r, item);
    }
  }

  lemma {:induction false} AcceptedKeepsItemsUnique(v: Validator, op: Operation)
    requires Forest(v.graph) && ItemsUnique(v.graph) && Validate(v, op).None?
    ensures ItemsUnique(Accepted(v, op).graph)
  {
    var g, h := v.graph, Accepted(v, op).graph;
    match op
    case InsertRelationItem(block, relation, item, kind, _) =>
      ItemsUniqueAfterPut(g, block, relation, item, kind);
    case MoveRelationItem(block, relation, item, targetBlock, targetRelation, _) =>
      var taken := g[block := WithoutItem(g[block], relation, item)];
      ItemsUniqueByHeldAt(g, taken);
      TakenIsGone(g, taken, block, relation, item);
      ItemsUniqueAfterPut(taken, targetBlock, targetRelation, item, g[block].relations[relation][item]);
    case _ => ItemsUniqueByHeldAt(g, h);
  }

  // ----- one step -----

  ghost predicate Agrees(tree: Tree, v: Validator) {
    v.graph == GraphOf(tree.nodes) && v.catalog == tree.catalog && v.localeExists == tree.localeExists
  }

  /** Replacing the kind drops the block's relations from the tree, not from the graph. */
  predicate DropsRelations(g: Graph, op: Operation) {
    op.ReplaceBlockKind? && op.block in g && g[op.block].relations != map[]
  }

  lemma {:induction false} RelationStep(tree: Tree, v: Validator, op: Operation)
    requires GoodNodes(tree.nodes) && Forest(v.graph) && Agrees(tree, v) && Validate(v, op).None?
    requires op.InsertRelationItem? || op.DeleteRelationItem? || op.MoveRelationItem?
    ensures Applied(tree, op).Some? && GoodNodes(Applied(tree, op).value.nodes)
    ensures GraphOf(Applied(tree, op).value.nodes) == Accepted(v, op).graph
  {
    match op
    case InsertRelationItem(block, relation, item, kind, after) =>
      InsertItemGraph(tree.nodes, block, relation, RelationItem(item, kind, 0, [], [], []), after);
    case DeleteRelationItem(block, relation, item) => DeleteItemGraph(tree.nodes, block, relation, item);
    case MoveRelationItem(block, relation, item, targetBlock, targetRelation, after) =>
      MoveItemGraph(tree.nodes, block, relation, item, targetBlock, targetRelation, after);
  }

  lemma {:induction false} BlockStep(tree: Tree, v: Validator, op: Operation)
    requires GoodNodes(tree.nodes) && Forest(v.graph) && Agrees(tree, v) && Validate(v, op).None?
    requires op.InsertBlock? || op.DeleteBlock? || op.MoveBlock?
    ensures GoodNodes(AppliedNodes(tree, op).value)
    ensures GraphOf(AppliedNodes(tree, op).value) == Accepted(v, op).graph
  {
    match op
    case InsertBlock(block, kind, parent, after) => InsertGraph(tree.nodes, block, kind, parent, after);
    case DeleteBlock(block) => DeleteGraph(tree.nodes, block);
    case MoveBlock(block, parent, after) => MoveGraph(tree.nodes, block, parent, after);
  }

  lemma {:induction false} ReplaceStep(nodes: seq<Node>, block: BlockID, kind: BlockKind)
    requires GoodNodes(nodes) && block in GraphOf(nodes)
    ensures Replaced(nodes, block, kind).Some?
    ensures var after := Replaced(nodes, block, kind).value;
            GoodNodes(after) && GraphOf(after) == GraphOf(nodes)[block := GraphBlock(kind, GraphOf(nodes)[block].parent, map[])]
  {
    GraphHas(nodes, block);
    var i := Find(nodes, NodeId, block);
    var n := Node(block, kind, nodes[i].parent, nodes[i].order, [], [], [], []);
    assert GoodNode(n);
    GoodUpdate(nodes, i, n);
  }

  lemma {:induction false} ReplaceAgrees(g: Graph, block: BlockID, kind: BlockKind)
    requires block in g
    ensures g[block := GraphBlock(kind, g[block].parent, map[])] == g[block := g[block].(kind := kind)] <==> g[block].relations == map[]
  {
    var a, b := g[block := GraphBlock(kind, g[block].parent, map[])], g[block := g[block].(kind := kind)];
    assert a[block].relations == map[] && b[block].relations == g[block].relations;
  }

  /** Where graph and tree agree, an accepted operation other than a field or file
      write applies; and an accepted operation that applies changes both alike exactly
      when it is no kind replacement of a block that holds relations. */
  lemma {:induction false} StepAgrees(tree: Tree, v: Validator, op: Operation)
    requires GoodNodes(tree.nodes) && Forest(v.graph) && Agrees(tree, v) && Validate(v, op).None?
    ensures ChangeOf(op).None? ==> Applied(tree, op).Some?
    ensures Applied(tree, op).Some? ==>
              GoodNodes(Applied(tree, op).value.nodes) &&
              (Agrees(Applied(tree, op).value, Accepted(v, op)) <==> !DropsRelations(v.graph, op))
  {
    if ChangeOf(op).Some? {
      if Applied(tree, op).Some? {
        FieldChangeGraph(tree, op.target, ChangeOf(op).value);
      }
    } else if op.InsertBlock? || op.DeleteBlock? || op.MoveBlock? {
      BlockStep(tree, v, op);
    } else if op.ReplaceBlockKind? {
      ReplaceStep(tree.nodes, op.block, op.kind);
      ReplaceAgrees(v.graph, op.block, op.kind);
    } else if op.DeleteTranslation? {
      UntranslatedGraph(tree.nodes);
    } else if op.CreateTranslation? {
    } else {
      RelationStep(tree, v, op);
    }
  }

  // ----- the whole batch -----

  ghost predicate AcceptedAll(v: Validator, ops: seq<Operation>)
    requires Forest(v.graph)
    decreases |ops|
  {
    ops == [] ||
    (Validate(v, ops[0]).None? && (AcceptedKeepsForest(v, ops[0]); AcceptedAll(Accepted(v, ops[0]), ops[1..])))
  }

  /** No operation of an accepted batch drops relations. */
  ghost predicate NeverDrops(v: Validator, ops: seq<Operation>)
    requires Forest(v.graph) && AcceptedAll(v, ops)
    decreases |ops|
  {
    ops == [] ||
    (!DropsRelations(v.graph, ops[0]) && (AcceptedKeepsForest(v, ops[0]); NeverDrops(Accepted(v, ops[0]), ops[1..])))
  }

  /** The validator's state after an accepted batch. */
  ghost function AcceptedThrough(v: Validator, ops: seq<Operation>): Validator
    requires Forest(v.graph) && AcceptedAll(v, ops)
    decreases |ops|
  {
    if ops == [] then v else AcceptedKeepsForest(v, ops[0]); AcceptedThrough(Accepted(v, ops[0]), ops[1..])
  }

  /** Graph and tree agree before the batch and after each of its operations. */
  ghost predicate AgreesThroughout(tree: Tree, v: Validator, ops: seq<Operation>)
    requires Forest(v.graph) && AcceptedAll(v, ops)
    decreases |ops|
  {
    && Agrees(tree, v)
    && (ops != [] && Applied(tree, ops[0]).Some? ==>
          (AcceptedKeepsForest(v, ops[0]); AgreesThroughout(Applied(tree, ops[0]).value, Accepted(v, ops[0]), ops[1..])))
  }

  /** An accepted batch is one for which validation reports no issue. */
  lemma {:induction false} AcceptedAllIff(v: Validator, ops: seq<Operation>, k: nat)
    requires Forest(v.graph) && k <= |ops|
    ensures AcceptedAll(v, ops[k..]) <==> IssuesFrom(v, ops, k) == []
    decreases |ops| - k
  {
    if k < |ops| {
      assert ops[k..][0] == ops[k] && ops[k..][1..] == ops[k + 1..];
      if Validate(v, ops[k]).None? {
        AcceptedKeepsForest(v, ops[k]);
        AcceptedAllIff(Accepted(v, ops[k]), ops, k + 1);
      }
    }
  }

  /** Every accepted batch keeps the blocks a forest and item identifiers unique. */
  lemma {:induction false} AcceptedThroughKeeps(v: Validator, ops: seq<Operation>)
    requires Forest(v.graph) && AcceptedAll(v, ops)
    ensures Forest(AcceptedThrough(v, ops).graph)
    ensures ItemsUnique(v.graph) ==> ItemsUnique(AcceptedThrough(v, ops).graph)
    decreases |ops|
  {
    if ops != [] {
      AcceptedKeepsForest(v, ops[0]);
      if ItemsUnique(v.graph) {
        AcceptedKeepsItemsUnique(v, ops[0]);
      }
      AcceptedThroughKeeps(Accepted(v, ops[0]), ops[1..]);
    }
  }

  /** Graph and tree agree through an accepted batch, as far as it applies, when no
      operation replaces the kind of a block that holds relations; of a batch that
      applies, only then. */
  lemma {:induction false} AgreesThroughoutIff(tree: Tree, v: Validator, ops: seq<Operation>)
    requires GoodNodes(tree.nodes) && Forest(v.graph) && Agrees(tree, v) && AcceptedAll(v, ops)
    ensures NeverDrops(v, ops) ==> AgreesThroughout(tree, v, ops)
    ensures AppliedAll(tree, ops).Some? && AgreesThroughout(tree, v, ops) ==> NeverDrops(v, ops)
    decreases |ops|
  {
    if ops != [] {
      AcceptedKeepsForest(v, ops[0]);
      StepAgrees(tree, v, ops[0]);
      if Applied(tree, ops[0]).Some? {
        var next, w := Applied(tree, ops[0]).value, Accepted(v, ops[0]);
        assert AgreesThroughout(next, w, ops[1..]) ==> Agrees(next, w);
        if !DropsRelations(v.graph, ops[0]) {
          AgreesThroughoutIff(next, w, ops[1..]);
        }
      }
    }
  }

  /** The tree that an accepted batch leaves, if it never replaces the kind of a block
      holding relations, has the graph that the effects on the graph folded to. */
  lemma {:induction false} BatchAgrees(tree: Tree, v: Validator, ops: seq<Operation>)
    requires GoodNodes(tree.nodes) && Forest(v.graph) && Agrees(tree, v) && AcceptedAll(v, ops)
    requires NeverDrops(v, ops) && AppliedAll(tree, ops).Some?
    ensures GoodNodes(AppliedAll(tree, ops).value.nodes)
    ensures Agrees(AppliedAll(tree, ops).value, AcceptedThrough(v, ops))
    decreases |ops|
  {
    if ops != [] {
      AcceptedKeepsForest(v, ops[0]);
      StepAgrees(tree, v, ops[0]);
      BatchAgrees(Applied(tree, ops[0]).value, Accepted(v, ops[0]), ops[1..]);
    }
  }
}
