/** The order of relation items: an item placed in a relation goes first or right after
    its anchor, a taken one leaves a gap that closes, and items are numbered in order. */
module RelationOrder {
  import opened Lists
  import opened Values
  import opened Documents
  import opened BlockGraph
  import opened Mutation
  import opened LocaleAuthority
  import opened SiblingOrder
  import opened StructureReads

  // ----- placing in a list -----

  /** The place of a new element: first without an anchor, right behind the first
      occurrence of its anchor, last when the anchor is not in the list. */
  lemma {:induction false} InsertAfterMeaning(s: seq<nat>, x: nat, after: nat, a: seq<nat>, b: seq<nat>)
    ensures after == NONE ==> InsertAfter(s, x, after) == [x] + s
    ensures after != NONE && after !in s ==> InsertAfter(s, x, after) == s + [x]
    ensures after != NONE && s == a + [after] + b && after !in a ==> InsertAfter(s, x, after) == a + [after, x] + b
  {
    if after != NONE && s == a + [after] + b && after !in a {
      assert s[|a|] == after;
      forall j | 0 <= j < |a| ensures s[j] != after {
        assert s[j] == a[j];
      }
      assert PositionOf(s, after) == |a|;
      assert s[..|a| + 1] == a + [after] && s[|a| + 1..] == b;
      assert (a + [after]) + [x] == a + [after, x];
    }
  }

  // ----- one relation -----

  function ItemIds(items: seq<RelationItem>): (ids: seq<ItemID>)
    ensures |ids| == |items| && forall i :: 0 <= i < |items| ==> ids[i] == items[i].id
  {
    Map(items, ItemId)
  }

  lemma {:induction false} IdsConcat(a: seq<RelationItem>, b: seq<RelationItem>)
    ensures ItemIds(a + b) == ItemIds(a) + ItemIds(b)
  {
  }

  lemma {:induction false} IdsWithout(items: seq<RelationItem>, gone: ItemID)
    ensures ItemIds(WithoutId(items, gone)) == Without(ItemIds(items), {gone})
  {
    if items != [] {
      IdsWithout(items[1..], gone);
      assert ItemIds(items)[1..] == ItemIds(items[1..]);
      IdsConcat(if items[0].id != gone then [items[0]] else [], WithoutId(items[1..], gone));
    }
  }

  lemma {:induction false} IdsPosition(items: seq<RelationItem>, id: ItemID)
    ensures PositionOf(ItemIds(items), id) == Find(items, ItemId, id)
  {
    var p, f := PositionOf(ItemIds(items), id), Find(items, ItemId, id);
    assert p < |items| ==> items[p].id == id;
    assert f < |items| ==> ItemIds(items)[f] == id;
  }

  lemma {:induction false} IdsPlaced(others: seq<RelationItem>, moved: RelationItem, after: ItemID)
    requires after == NONE || Find(others, ItemId, after) < |others|
    ensures ItemIds(PlacedItem(others, moved, after)) == InsertAfter(ItemIds(others), moved.id, after)
  {
    IdsPosition(others, after);
    if after == NONE {
      IdsConcat([moved], others);
    } else {
      var p := Find(others, ItemId, after);
      IdsConcat(others[..p + 1] + [moved], others[p + 1..]);
      IdsConcat(others[..p + 1], [moved]);
      assert ItemIds(others[..p + 1]) == ItemIds(others)[..p + 1];
      assert ItemIds(others[p + 1..]) == ItemIds(others)[p + 1..];
    }
  }

  ghost predicate NumberedInOrder(items: seq<RelationItem>) {
    forall k :: 0 <= k < |items| ==> items[k].order == k
  }

  lemma {:induction false} RelationWithOrder(relation: Relation, moved: RelationItem, after: ItemID)
    requires AnchorThere(relation.items, moved.id, after)
    ensures ItemIds(RelationWith(relation, moved, after).items)
         == InsertAfter(Without(ItemIds(relation.items), {moved.id}), moved.id, after)
    ensures NumberedInOrder(RelationWith(relation, moved, after).items)
  {
    var others := WithoutId(relation.items, moved.id);
    FindKept(relation.items, moved.id, after);
    IdsPlaced(others, moved, after);
    IdsWithout(relation.items, moved.id);
    assert ItemIds(NumberedItems(PlacedItem(others, moved, after))) == ItemIds(PlacedItem(others, moved, after));
  }

  lemma {:induction false} RelationWithoutOrder(relation: Relation, item: ItemID)
    ensures ItemIds(RelationWithout(relation, item).items) == Without(ItemIds(relation.items), {item})
    ensures NumberedInOrder(RelationWithout(relation, item).items)
  {
    IdsWithout(relation.items, item);
    assert ItemIds(NumberedItems(WithoutId(relation.items, item))) == ItemIds(WithoutId(relation.items, item));
  }

  // ----- the document -----

  lemma {:induction false} ItemsAfterUpdate(nodes: seq<Node>, i: nat, m: Node, block: BlockID, relation: RelationID)
    requires i < |nodes| && Find(nodes, NodeId, m.id) == i
    ensures ItemsAt(nodes[i := m], block, relation) == if block == m.id then ItemsAt([m], m.id, relation) else ItemsAt(nodes, block, relation)
  {
    FindSameIds(nodes[i := m], nodes, NodeId, block);
  }

  lemma {:induction false} InsertedItemOrder(
    nodes: seq<Node>, block: BlockID, relation: RelationID, item: RelationItem, after: ItemID, b: BlockID, r: RelationID)
    requires InsertedItem(nodes, block, relation, item, after).Some? && AnchorThere(ItemsAt(nodes, block, relation), item.id, after)
    ensures var items := ItemsAt(InsertedItem(nodes, block, relation, item, after).value, b, r);
            if b == block && r == relation
            then ItemIds(items) == InsertAfter(Without(ItemIds(ItemsAt(nodes, b, r)), {item.id}), item.id, after) && NumberedInOrder(items)
            else items == ItemsAt(nodes, b, r)
  {
    var i := Find(nodes, NodeId, block);
    var n := nodes[i];
    var m := n.(relations := RelationsWith(n.relations, relation, item, after));
    ItemsAfterUpdate(nodes, i, m, b, r);
    var k := Find(n.relations, RelationId, relation);
    if k == |n.relations| {
      RelationWithOrder(Relation(relation, []), item, after);
      RelationAppended(n.relations, RelationWith(Relation(relation, []), item, after), r);
      assert ItemIds([]) == [];
    } else {
      RelationWithOrder(n.relations[k], item, after);
      FindSameIds(m.relations, n.relations, RelationId, r);
    }
  }

  lemma {:induction false} RelationAppended(relations: seq<Relation>, relation: Relation, r: RelationID)
    requires Find(relations, RelationId, relation.id) == |relations|
    ensures var all := relations + [relation];
            var i, j := Find(all, RelationId, r), Find(relations, RelationId, r);
            if r == relation.id then i < |all| && all[i] == relation
            else if j == |relations| then i == |all| else i < |all| && all[i] == relations[j]
  {
    var all := relations + [relation];
    assert all[|relations|] == relation;
    assert forall k :: 0 <= k < |relations| ==> all[k] == relations[k];
    var i, j := Find(all, RelationId, r), Find(relations, RelationId, r);
    assert j < |relations| ==> all[j].id == r;
    assert i < |relations| ==> relations[i].id == r;
  }

  lemma {:induction false} DeletedItemOrder(nodes: seq<Node>, block: BlockID, relation: RelationID, item: ItemID, b: BlockID, r: RelationID)
    requires DeletedItem(nodes, block, relation, item).Some?
    ensures var items := ItemsAt(DeletedItem(nodes, block, relation, item).value, b, r);
            if b == block && r == relation then ItemIds(items) == Without(ItemIds(ItemsAt(nodes, b, r)), {item}) && NumberedInOrder(items)
            else items == ItemsAt(nodes, b, r)
  {
    var i := Find(nodes, NodeId, block);
    var n := nodes[i];
    var k := Find(n.relations, RelationId, relation);
    var m := n.(relations := n.relations[k := RelationWithout(n.relations[k], item)]);
    ItemsAfterUpdate(nodes, i, m, b, r);
    RelationWithoutOrder(n.relations[k], item);
    FindSameIds(m.relations, n.relations, RelationId, r);
  }

  /** In every relation a taken item leaves its list and a placed one goes first or
      right after its anchor; the other items keep their order, and a changed relation
      is numbered in order. */
  lemma {:induction false} ItemOperationOrder(tree: Tree, op: Operation, block: BlockID, relation: RelationID)
    requires AppliedNodes(tree, op).Some? && (op.InsertRelationItem? || op.DeleteRelationItem? || op.MoveRelationItem?)
    requires op.InsertRelationItem? ==> AnchorThere(ItemsAt(tree.nodes, op.block, op.relation), op.item, op.afterItem)
    requires op.MoveRelationItem? ==> AnchorThere(ItemsAt(tree.nodes, op.targetBlock, op.targetRelation), op.item, op.afterItem)
    ensures var before, after := ItemsAt(tree.nodes, block, relation), ItemsAt(AppliedNodes(tree, op).value, block, relation);
            var rest := Without(ItemIds(before), {op.item});
            && (after == before || NumberedInOrder(after))
            && ItemIds(after) == match op
                 case InsertRelationItem(b, r, item, _, anchor) =>
                   if b == block && r == relation then InsertAfter(rest, item, anchor) else ItemIds(before)
                 case DeleteRelationItem(b, r, _) => if b == block && r == relation then rest else ItemIds(before)
                 case MoveRelationItem(b, r, item, targetBlock, targetRelation, anchor) =>
                   if targetBlock == block && targetRelation == relation then InsertAfter(rest, item, anchor)
                   else if b == block && r == relation then rest else ItemIds(before)
  {
    match op
    case InsertRelationItem(b, r, item, kind, after) =>
      InsertedItemOrder(tree.nodes, b, r, RelationItem(item, kind, 0, [], [], []), after, block, relation);
    case DeleteRelationItem(b, r, item) =>
      DeletedItemOrder(tree.nodes, b, r, item, block, relation);
    case MoveRelationItem(b, r, item, targetBlock, targetRelation, after) =>
      var moved := ItemAt(tree.nodes, b, r, item).value;
      var taken := DeletedItem(tree.nodes, b, r, item).value;
      DeletedItemOrder(tree.nodes, b, r, item, block, relation);
      DeletedItemOrder(tree.nodes, b, r, item, targetBlock, targetRelation);
      AnchorAfterDelete(tree.nodes, b, r, item, targetBlock, targetRelation, after);
      InsertedItemOrder(taken, targetBlock, targetRelation, moved, after, block, relation);
      WithoutTwice(ItemIds(ItemsAt(tree.nodes, block, relation)), item);
  }

  lemma {:induction false} WithoutTwice(s: seq<ItemID>, x: ItemID)
    ensures Without(Without(s, {x}), {x}) == Without(s, {x})
  {
    if s != [] {
      WithoutTwice(s[1..], x);
      var tail := Without(s[1..], {x});
      assert ([s[0]] + tail)[1..] == tail && [] + tail == tail;
    }
  }
}
