/** The graph that validation keeps is the graph of the tree: an accepted operation
    changes both alike. */
module GraphSoundness {
  import opened Lists
  import opened Values
  import opened Schemas
  import opened Documents
  import opened BlockGraph
  import opened Validation
  import opened Mutation

  // ----- what every operation keeps of the node list -----

  /** Items are named once and listed in strictly increasing order, so sorting the
      relation leaves it as it is. */
  ghost predicate GoodRelation(r: Relation) {
    Unique(r.items, ItemId) && Increasing(r.items, ItemKey) && ItemsNamed(r.items)
  }

  ghost predicate ItemsNamed(items: seq<RelationItem>) {
    forall i :: 0 <= i < |items| ==> items[i].id != NONE
  }

  ghost predicate GoodNode(n: Node) {
    && n.id != NONE && Unique(n.relations, RelationId)
    && forall i :: 0 <= i < |n.relations| ==> GoodRelation(n.relations[i])
  }

  ghost predicate GoodNodes(nodes: seq<Node>) {
    Named(nodes) && forall i :: 0 <= i < |nodes| ==> GoodNode(nodes[i])
  }

  lemma GoodUpdate(nodes: seq<Node>, i: nat, n: Node)
    requires GoodNodes(nodes) && i < |nodes| && GoodNode(n) && n.id == nodes[i].id
    ensures GoodNodes(nodes[i := n])
    ensures GraphOf(nodes[i := n]) == GraphOf(nodes)[n.id := BlockOf(n)]
  {
    IndexUpdate(nodes, NodeId, BlockOf, i, n);
  }

  lemma GraphHas(nodes: seq<Node>, block: BlockID)
    requires Unique(nodes, NodeId)
    ensures block in GraphOf(nodes) <==> Find(nodes, NodeId, block) < |nodes|
    ensures block in GraphOf(nodes) ==> GraphOf(nodes)[block] == BlockOf(nodes[Find(nodes, NodeId, block)])
  {
    FindIndexed(nodes, NodeId, BlockOf, block);
  }

  // ----- placing and deleting blocks -----

  lemma {:induction false} PlacedShape(nodes: seq<Node>, block: BlockID, parent: BlockID, after: BlockID)
    ensures var placed := PlacedBlock(nodes, block, parent, after);
            |placed| == |nodes| &&
            forall i :: 0 <= i < |nodes| ==> placed[i].(order := 0) == Reparent(nodes[i], block, parent).(order := 0)
  {
  }

  lemma {:induction false} PlacedKeeps(nodes: seq<Node>, block: BlockID, parent: BlockID, after: BlockID)
    requires GoodNodes(nodes)
    ensures GoodNodes(PlacedBlock(nodes, block, parent, after))
    ensures GraphOf(PlacedBlock(nodes, block, parent, after)) == GraphOf(Reparented(nodes, block, parent))
  {
    PlacedShape(nodes, block, parent, after);
    var placed, moved := PlacedBlock(nodes, block, parent, after), Reparented(nodes, block, parent);
    forall i | 0 <= i < |nodes|
      ensures placed[i].id == nodes[i].id && BlockOf(placed[i]) == BlockOf(moved[i]) && GoodNode(placed[i])
    {
      assert placed[i].relations == nodes[i].relations && GoodNode(nodes[i]);
      assert placed[i].(order := 0).parent == moved[i].(order := 0).parent;
      assert placed[i].(order := 0).kind == moved[i].(order := 0).kind;
    }
    IndexPointwise(placed, moved, NodeId, BlockOf);
  }

  lemma {:induction false} MoveGraph(nodes: seq<Node>, block: BlockID, parent: BlockID, after: BlockID)
    requires GoodNodes(nodes) && block in GraphOf(nodes)
    ensures GoodNodes(PlacedBlock(nodes, block, parent, after))
    ensures GraphOf(PlacedBlock(nodes, block, parent, after)) == Moved(GraphOf(nodes), block, parent)
  {
    PlacedKeeps(nodes, block, parent, after);
    GraphHas(nodes, block);
    var i := Find(nodes, NodeId, block);
    var n := nodes[i].(parent := parent, order := 0);
    assert Reparented(nodes, block, parent) == nodes[i := n];
    IndexUpdate(nodes, NodeId, BlockOf, i, n);
  }

  lemma {:induction false} InsertGraph(nodes: seq<Node>, block: BlockID, kind: BlockKind, parent: BlockID, after: BlockID)
    requires GoodNodes(nodes) && block !in GraphOf(nodes) && block != NONE
    ensures var added := nodes + [Node(block, kind, parent, 0, [], [], [], [])];
            GoodNodes(PlacedBlock(added, block, parent, after)) &&
            GraphOf(PlacedBlock(added, block, parent, after)) == GraphOf(nodes)[block := GraphBlock(kind, parent, map[])]
  {
    var n := Node(block, kind, parent, 0, [], [], [], []);
    AppendedGood(nodes, n);
    MoveGraph(nodes + [n], block, parent, after);
    MovedToItsPlace(GraphOf(nodes + [n]), block);
  }

  lemma {:induction false} AppendedGood(nodes: seq<Node>, n: Node)
    requires GoodNodes(nodes) && n.id != NONE && n.id !in GraphOf(nodes) && n.relations == []
    ensures GoodNodes(nodes + [n]) && GraphOf(nodes + [n]) == GraphOf(nodes)[n.id := GraphBlock(n.kind, n.parent, map[])]
  {
    GraphHas(nodes, n.id);
    IndexAppend(nodes, NodeId, BlockOf, n);
    assert GoodNode(n) && BlockOf(n) == GraphBlock(n.kind, n.parent, map[]);
  }

  lemma MovedToItsPlace(g: Graph, block: BlockID)
    requires block in g
    ensures Moved(g, block, g[block].parent) == g
  {
  }

  lemma {:induction false} RenumberKeeps(nodes: seq<Node>)
    requires GoodNodes(nodes)
    ensures GoodNodes(Renumbered(nodes))
    ensures GraphOf(Renumbered(nodes)) == GraphOf(nodes)
  {
    var sorted := SortBy(nodes, ListingKey);
    PermutedGood(nodes, sorted);
    NumberedGood(sorted);
  }

  lemma {:induction false} PermutedGood(nodes: seq<Node>, sorted: seq<Node>)
    requires GoodNodes(nodes) && multiset(sorted) == multiset(nodes)
    ensures GoodNodes(sorted) && GraphOf(sorted) == GraphOf(nodes)
  {
    UniquePermutation(nodes, sorted, NodeId);
    SameMultisetMembers(sorted, nodes);
    IndexSameElements(sorted, nodes, NodeId, BlockOf);
    forall i | 0 <= i < |sorted| ensures GoodNode(sorted[i]) {
      assert sorted[i] in nodes;
    }
  }

  lemma {:induction false} NumberedGood(sorted: seq<Node>)
    requires GoodNodes(sorted)
    ensures GoodNodes(Numbered(sorted)) && GraphOf(Numbered(sorted)) == GraphOf(sorted)
  {
    IndexPointwise(Numbered(sorted), sorted, NodeId, BlockOf);
    forall i | 0 <= i < |sorted| ensures GoodNode(Numbered(sorted)[i]) {
      assert GoodNode(sorted[i]);
    }
  }

  lemma {:induction false} DeleteGraph(nodes: seq<Node>, block: BlockID)
    requires GoodNodes(nodes)
    ensures GoodNodes(WithoutSubtree(nodes, block))
    ensures GraphOf(WithoutSubtree(nodes, block)) == GraphOf(nodes) - Removed(GraphOf(nodes), block)
  {
    var gone := Removed(GraphOf(nodes), block);
    var keep := (n: Node) => n.id !in gone;
    var kept := Filter(nodes, keep);
    IndexFilter(nodes, NodeId, BlockOf, gone, keep);
    forall i | 0 <= i < |kept| ensures GoodNode(kept[i]) {
      assert kept[i] in kept;
      assert kept[i] in nodes;
    }
    RenumberKeeps(kept);
  }

  // ----- relations of one block -----

  lemma {:induction false} NumberedIncreasing(items: seq<RelationItem>)
    requires Unique(items, ItemId)
    ensures Unique(NumberedItems(items), ItemId) && Increasing(NumberedItems(items), ItemKey)
    ensures Index(NumberedItems(items), ItemId, KindOfItem) == Index(items, ItemId, KindOfItem)
  {
    IndexPointwise(NumberedItems(items), items, ItemId, KindOfItem);
  }

  lemma {:induction false} PlacedItemMultiset(others: seq<RelationItem>, moved: RelationItem, after: ItemID)
    requires after == NONE || Find(others, ItemId, after) < |others|
    ensures multiset(PlacedItem(others, moved, after)) == multiset(others + [moved])
  {
    if after != NONE {
      var p := Find(others, ItemId, after);
      assert others == others[..p + 1] + others[p + 1..];
    }
  }

  lemma {:induction false} SameMultisetSameElements(a: seq<RelationItem>, b: seq<RelationItem>)
    requires multiset(a) == multiset(b)
    ensures forall x :: x in a <==> x in b
  {
    forall x ensures x in a <==> x in b {
      assert x in a <==> x in multiset(a);
      assert x in b <==> x in multiset(b);
    }
  }

  lemma {:induction false} PlacedItemGraph(others: seq<RelationItem>, moved: RelationItem, after: ItemID)
    requires Unique(others, ItemId) && moved.id !in Index(others, ItemId, KindOfItem)
    requires after == NONE || after in Index(others, ItemId, KindOfItem)
    ensures Unique(PlacedItem(others, moved, after), ItemId)
    ensures Index(PlacedItem(others, moved, after), ItemId, KindOfItem) == Index(others, ItemId, KindOfItem)[moved.id := moved.kind]
  {
    var placed := PlacedItem(others, moved, after);
    FindIndexed(others, ItemId, KindOfItem, moved.id);
    IndexAppend(others, ItemId, KindOfItem, moved);
    FindIndexed(others, ItemId, KindOfItem, after);
    PlacedItemMultiset(others, moved, after);
    UniquePermutation(others + [moved], placed, ItemId);
    SameMultisetSameElements(placed, others + [moved]);
    IndexSameElements(placed, others + [moved], ItemId, KindOfItem);
  }

  lemma {:induction false} WithoutIdGraph(items: seq<RelationItem>, id: ItemID)
    requires Unique(items, ItemId)
    ensures Unique(WithoutId(items, id), ItemId)
    ensures Index(WithoutId(items, id), ItemId, KindOfItem) == Index(items, ItemId, KindOfItem) - {id}
  {
    IndexFilter(items, ItemId, KindOfItem, {id}, (i: RelationItem) => i.id != id);
  }

  lemma {:induction false} PlacedItemsNamed(items: seq<RelationItem>, moved: RelationItem, after: ItemID)
    requires ItemsNamed(items) && moved.id != NONE
    ensures ItemsNamed(PlacedItem(WithoutId(items, moved.id), moved, after))
  {
    var others := WithoutId(items, moved.id);
    var placed := PlacedItem(others, moved, after);
    forall i | 0 <= i < |placed| ensures placed[i].id != NONE {
      assert placed[i] == moved || placed[i] in others;
    }
  }

  lemma {:induction false} RelationWithGraph(relation: Relation, moved: RelationItem, after: ItemID)
    requires GoodRelation(relation) && moved.id != NONE
    requires after == NONE || (after != moved.id && after in ItemsOf(relation))
    ensures GoodRelation(RelationWith(relation, moved, after))
    ensures ItemsOf(RelationWith(relation, moved, after)) == ItemsOf(relation)[moved.id := moved.kind]
  {
    WithoutIdGraph(relation.items, moved.id);
    var others := WithoutId(relation.items, moved.id);
    PlacedItemGraph(others, moved, after);
    NumberedIncreasing(PlacedItem(others, moved, after));
    PlacedItemsNamed(relation.items, moved, after);
    TakeThenPut(ItemsOf(relation), moved.id, moved.kind);
  }

  lemma {:induction false} TakeThenPut(m: map<ItemID, ItemKind>, id: ItemID, kind: ItemKind)
    ensures (m - {id})[id := kind] == m[id := kind]
  {
  }

  lemma {:induction false} RelationWithoutGraph(relation: Relation, item: ItemID)
    requires GoodRelation(relation)
    ensures GoodRelation(RelationWithout(relation, item))
    ensures ItemsOf(RelationWithout(relation, item)) == ItemsOf(relation) - {item}
  {
    WithoutIdGraph(relation.items, item);
    NumberedIncreasing(WithoutId(relation.items, item));
    forall i | 0 <= i < |WithoutId(relation.items, item)| ensures WithoutId(relation.items, item)[i].id != NONE {
      assert WithoutId(relation.items, item)[i] in relation.items;
    }
  }

  lemma {:induction false} RelationsWithGraph(n: Node, id: RelationID, moved: RelationItem, after: ItemID)
    requires GoodNode(n) && moved.id != NONE
    requires after == NONE || (after != moved.id && id in BlockOf(n).relations && after in BlockOf(n).relations[id])
    ensures var m := n.(relations := RelationsWith(n.relations, id, moved, after));
            GoodNode(m) && BlockOf(m) == WithItem(BlockOf(n), id, moved.id, moved.kind)
  {
    var r := Find(n.relations, RelationId, id);
    FindIndexed(n.relations, RelationId, ItemsOf, id);
    if r == |n.relations| {
      var empty := Relation(id, []);
      RelationWithGraph(empty, moved, after);
      IndexAppend(n.relations, RelationId, ItemsOf, RelationWith(empty, moved, after));
      assert ItemsOf(empty) == map[];
    } else {
      RelationWithGraph(n.relations[r], moved, after);
      IndexUpdate(n.relations, RelationId, ItemsOf, r, RelationWith(n.relations[r], moved, after));
    }
  }

  lemma {:induction false} RelationsWithoutGraph(n: Node, r: nat, item: ItemID)
    requires GoodNode(n) && r < |n.relations|
    ensures var m := n.(relations := n.relations[r := RelationWithout(n.relations[r], item)]);
            GoodNode(m) && BlockOf(m) == WithoutItem(BlockOf(n), n.relations[r].id, item)
  {
    RelationWithoutGraph(n.relations[r], item);
    IndexUpdate(n.relations, RelationId, ItemsOf, r, RelationWithout(n.relations[r], item));
    IndexHas(n.relations, RelationId, ItemsOf, r);
  }

  // ----- relation operations on the document -----

  lemma {:induction false} InsertItemGraph(nodes: seq<Node>, block: BlockID, relation: RelationID, item: RelationItem, after: ItemID)
    requires GoodNodes(nodes) && item.id != NONE && ValidateRelationPlacement(GraphOf(nodes), block, relation, item.id, after).None?
    ensures InsertedItem(nodes, block, relation, item, after).Some?
    ensures GoodNodes(InsertedItem(nodes, block, relation, item, after).value)
    ensures GraphOf(InsertedItem(nodes, block, relation, item, after).value)
         == GraphOf(nodes)[block := WithItem(GraphOf(nodes)[block], relation, item.id, item.kind)]
  {
    GraphHas(nodes, block);
    var i := Find(nodes, NodeId, block);
    RelationsWithGraph(nodes[i], relation, item, after);
    GoodUpdate(nodes, i, nodes[i].(relations := RelationsWith(nodes[i].relations, relation, item, after)));
  }

  lemma {:induction false} DeleteItemGraph(nodes: seq<Node>, block: BlockID, relation: RelationID, item: ItemID)
    requires GoodNodes(nodes) && RequireRelationItem(GraphOf(nodes), block, relation, item).None?
    ensures DeletedItem(nodes, block, relation, item).Some?
    ensures GoodNodes(DeletedItem(nodes, block, relation, item).value)
    ensures GraphOf(DeletedItem(nodes, block, relation, item).value)
         == GraphOf(nodes)[block := WithoutItem(GraphOf(nodes)[block], relation, item)]
  {
    GraphHas(nodes, block);
    var i := Find(nodes, NodeId, block);
    FindIndexed(nodes[i].relations, RelationId, ItemsOf, relation);
    var r := Find(nodes[i].relations, RelationId, relation);
    RelationsWithoutGraph(nodes[i], r, item);
    GoodUpdate(nodes, i, nodes[i].(relations := nodes[i].relations[r := RelationWithout(nodes[i].relations[r], item)]));
  }

  /** The graph's answer about an item is the tree's. */
  lemma {:induction false} ItemAtGraph(nodes: seq<Node>, block: BlockID, relation: RelationID, item: ItemID)
    requires GoodNodes(nodes)
    ensures ItemAt(nodes, block, relation, item).Some? <==> RequireRelationItem(GraphOf(nodes), block, relation, item).None?
    ensures ItemAt(nodes, block, relation, item).Some? ==>
              ItemAt(nodes, block, relation, item).value.id == item && item != NONE &&
              ItemAt(nodes, block, relation, item).value.kind == GraphOf(nodes)[block].relations[relation][item]
  {
    GraphHas(nodes, block);
    var i := Find(nodes, NodeId, block);
    if i < |nodes| {
      FindIndexed(nodes[i].relations, RelationId, ItemsOf, relation);
      var r := Find(nodes[i].relations, RelationId, relation);
      if r < |nodes[i].relations| {
        FindIndexed(nodes[i].relations[r].items, ItemId, KindOfItem, item);
      }
    }
  }

  lemma {:induction false} PlacementAfterTaking(
    g: Graph, block: BlockID, relation: RelationID, item: ItemID, targetBlock: BlockID, targetRelation: RelationID, after: ItemID)
    requires block in g && ValidateRelationPlacement(g, targetBlock, targetRelation, item, after).None?
    ensures ValidateRelationPlacement(
              g[block := WithoutItem(g[block], relation, item)], targetBlock, targetRelation, item, after).None?
  {
  }

  lemma {:induction false} MoveItemGraph(
    nodes: seq<Node>, block: BlockID, relation: RelationID, item: ItemID,
    targetBlock: BlockID, targetRelation: RelationID, after: ItemID)
    requires GoodNodes(nodes) && RequireRelationItem(GraphOf(nodes), block, relation, item).None?
    requires ValidateRelationPlacement(GraphOf(nodes), targetBlock, targetRelation, item, after).None?
    ensures MovedItem(nodes, block, relation, item, targetBlock, targetRelation, after).Some?
    ensures GoodNodes(MovedItem(nodes, block, relation, item, targetBlock, targetRelation, after).value)
    ensures GraphOf(MovedItem(nodes, block, relation, item, targetBlock, targetRelation, after).value)
         == GraphEffect(GraphOf(nodes), MoveRelationItem(block, relation, item, targetBlock, targetRelation, after))
  {
    ItemAtGraph(nodes, block, relation, item);
    DeleteItemGraph(nodes, block, relation, item);
    PlacementAfterTaking(GraphOf(nodes), block, relation, item, targetBlock, targetRelation, after);
    var taken, moved := DeletedItem(nodes, block, relation, item).value, ItemAt(nodes, block, relation, item).value;
    InsertItemGraph(taken, targetBlock, targetRelation, moved, after);
    assert MovedItem(nodes, block, relation, item, targetBlock, targetRelation, after)
        == InsertedItem(taken, targetBlock, targetRelation, moved, after);
  }
}
