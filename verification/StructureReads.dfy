/** What structural operations make of the document around the values: which blocks
    and items are there, with what kind and parent, and that each of them keeps its
    values and files. */
module StructureReads {
  import opened Lists
  import opened Values
  import opened Schemas
  import opened Documents
  import opened BlockGraph
  import opened Validation
  import opened Mutation
  import opened GraphSoundness
  import opened ValueSoundness
  import opened LocaleAuthority
  import opened DocumentReads

  // ----- what a place holds -----

  /** The kind of a block or item, its values and its files. */
  datatype Content = Content(kind: nat, holder: Holder)

  const NOTHING: Holder := Holder([], [], [])

  function BlockContent(n: Node): Content { Content(n.kind, BlockHolder(n)) }
  function ItemContent(i: RelationItem): Content { Content(i.kind, ItemHolder(i)) }

  function ContentIn(n: Node, place: Place): Option<Content> {
    if place.relation == NONE && place.item == NONE then Some(BlockContent(n))
    else
      var r := Find(n.relations, RelationId, place.relation);
      if r == |n.relations| then None else ItemIn(n.relations[r].items, place.item)
  }

  function ItemIn(items: seq<RelationItem>, id: ItemID): Option<Content> {
    var k := Find(items, ItemId, id);
    if k == |items| then None else Some(ItemContent(items[k]))
  }

  function ContentAt(nodes: seq<Node>, place: Place): Option<Content> {
    var i := Find(nodes, NodeId, place.block);
    if i == |nodes| then None else ContentIn(nodes[i], place)
  }

  /** Reads go to what the place holds: where contents agree, so do all reads. */
  lemma {:induction false} ContentIsRead(nodes: seq<Node>, place: Place)
    ensures HolderAt(nodes, place) == if ContentAt(nodes, place).Some? then Some(ContentAt(nodes, place).value.holder) else None
  {
  }

  lemma {:induction false} ContentAfterUpdate(nodes: seq<Node>, i: nat, m: Node, place: Place)
    requires i < |nodes| && Find(nodes, NodeId, m.id) == i
    ensures ContentAt(nodes[i := m], place) == if place.block == m.id then ContentIn(m, place) else ContentAt(nodes, place)
  {
    FindSameIds(nodes[i := m], nodes, NodeId, place.block);
  }

  // ----- the same blocks in another list -----

  lemma {:induction false} PointwiseHolders(a: seq<Node>, b: seq<Node>, place: Place)
    requires |a| == |b| && forall i :: 0 <= i < |a| ==> a[i].id == b[i].id
    requires forall i :: 0 <= i < |a| && a[i].id == place.block ==> ContentIn(a[i], place) == ContentIn(b[i], place)
    ensures ContentAt(a, place) == ContentAt(b, place)
  {
    FindSameIds(a, b, NodeId, place.block);
  }

  /** A block is found by its identifier, wherever it is listed. */
  lemma {:induction false} HolderOf(nodes: seq<Node>, i: nat, place: Place)
    requires Unique(nodes, NodeId) && i < |nodes| && nodes[i].id == place.block
    ensures ContentAt(nodes, place) == ContentIn(nodes[i], place)
  {
    assert Find(nodes, NodeId, place.block) == i;
  }

  lemma {:induction false} NoHolder(nodes: seq<Node>, place: Place)
    requires Unique(nodes, NodeId) && place.block !in GraphOf(nodes)
    ensures ContentAt(nodes, place) == None
  {
    GraphHas(nodes, place.block);
  }

  /** Listings with the same blocks, up to parents and orders, hold the same. */
  lemma {:induction false} MemberHolder(a: seq<Node>, b: seq<Node>, i: nat, j: nat, place: Place)
    requires Unique(a, NodeId) && Unique(b, NodeId) && i < |a| && j < |b|
    requires a[i].id == b[j].id == place.block && BlockContent(a[i]) == BlockContent(b[j]) && a[i].relations == b[j].relations
    ensures ContentAt(a, place) == ContentAt(b, place)
  {
    HolderOf(a, i, place);
    HolderOf(b, j, place);
  }

  // ----- blocks -----

  lemma {:induction false} PlacedHolders(nodes: seq<Node>, block: BlockID, parent: BlockID, after: BlockID, place: Place)
    ensures ContentAt(PlacedBlock(nodes, block, parent, after), place) == ContentAt(nodes, place)
  {
    PlacedShape(nodes, block, parent, after);
    var placed := PlacedBlock(nodes, block, parent, after);
    forall i | 0 <= i < |nodes| ensures placed[i].id == nodes[i].id && ContentIn(placed[i], place) == ContentIn(nodes[i], place) {
      SameButPlace(placed[i], nodes[i], Reparent(nodes[i], block, parent));
    }
    PointwiseHolders(placed, nodes, place);
  }

  lemma SameButPlace(placed: Node, n: Node, m: Node)
    requires placed.(order := 0) == m.(order := 0) && m.(parent := n.parent, order := n.order) == n
    ensures placed.id == n.id && placed.kind == n.kind && BlockHolder(placed) == BlockHolder(n) && placed.relations == n.relations
  {
    assert placed.(order := 0).id == m.id && placed.(order := 0).kind == m.kind && placed.(order := 0).relations == m.relations;
    assert BlockHolder(placed.(order := 0)) == BlockHolder(m.(order := 0));
    assert m.(parent := n.parent, order := n.order).id == m.id && m.(parent := n.parent, order := n.order).relations == m.relations;
    assert BlockHolder(m.(parent := n.parent, order := n.order)) == BlockHolder(m);
  }

  /** A moved block has the new parent; nothing else of any block changes but orders. */
  lemma {:induction false} MoveBlockReads(tree: Tree, op: Operation, place: Place)
    requires GoodNodes(tree.nodes) && op.MoveBlock? && op.block in GraphOf(tree.nodes)
    ensures AppliedNodes(tree, op).Some?
    ensures GraphOf(AppliedNodes(tree, op).value) == GraphOf(tree.nodes)[op.block := GraphOf(tree.nodes)[op.block].(parent := op.parent)]
    ensures ContentAt(AppliedNodes(tree, op).value, place) == ContentAt(tree.nodes, place)
  {
    MoveGraph(tree.nodes, op.block, op.parent, op.after);
    PlacedHolders(tree.nodes, op.block, op.parent, op.after, place);
  }

  /** An inserted block has its kind and parent, holds nothing and has no items; every
      other block keeps everything but its order. */
  lemma {:induction false} InsertBlockReads(tree: Tree, op: Operation, place: Place)
    requires GoodNodes(tree.nodes) && op.InsertBlock? && op.block != NONE && op.block !in GraphOf(tree.nodes)
    ensures AppliedNodes(tree, op).Some?
    ensures GraphOf(AppliedNodes(tree, op).value) == GraphOf(tree.nodes)[op.block := GraphBlock(op.kind, op.parent, map[])]
    ensures ContentAt(AppliedNodes(tree, op).value, place)
         == if place.block != op.block then ContentAt(tree.nodes, place)
            else if place.relation == NONE && place.item == NONE then Some(Content(op.kind, NOTHING)) else None
  {
    var nodes := tree.nodes;
    var n := Node(op.block, op.kind, op.parent, 0, [], [], [], []);
    InsertGraph(nodes, op.block, op.kind, op.parent, op.after);
    PlacedHolders(nodes + [n], op.block, op.parent, op.after, place);
    AppendedGood(nodes, n);
    AppendedHolder(nodes, n, place);
  }

  lemma {:induction false} AppendedHolder(nodes: seq<Node>, n: Node, place: Place)
    requires Unique(nodes + [n], NodeId)
    ensures ContentAt(nodes + [n], place) == if place.block == n.id then ContentIn(n, place) else ContentAt(nodes, place)
  {
    var all := nodes + [n];
    assert all[|nodes|] == n;
    if place.block == n.id {
      HolderOf(all, |nodes|, place);
    } else {
      var i := Find(nodes, NodeId, place.block);
      assert i < |nodes| ==> all[i] == nodes[i] && Find(all, NodeId, place.block) == i;
      var j := Find(all, NodeId, place.block);
      assert j < |nodes| ==> nodes[j].id == place.block;
    }
  }

  /** A deletion takes the block and every block below it; the others keep everything
      but their orders. */
  lemma {:induction false} DeleteBlockReads(tree: Tree, op: Operation, place: Place)
    requires GoodNodes(tree.nodes) && op.DeleteBlock? && op.block in GraphOf(tree.nodes)
    ensures AppliedNodes(tree, op).Some?
    ensures var g, h := GraphOf(tree.nodes), GraphOf(AppliedNodes(tree, op).value);
            forall id :: (id in h <==> id in g && !Below(g, id, op.block)) && (id in h ==> h[id] == g[id])
    ensures ContentAt(AppliedNodes(tree, op).value, place)
         == if Below(GraphOf(tree.nodes), place.block, op.block) then None else ContentAt(tree.nodes, place)
  {
    var g := GraphOf(tree.nodes);
    DeleteGraph(tree.nodes, op.block);
    assert Climbs(g, op.block, 0, op.block);
    var after := WithoutSubtree(tree.nodes, op.block);
    if place.block in GraphOf(after) {
      KeptHolder(tree.nodes, op.block, place);
    } else {
      NoHolder(after, place);
      if !Below(g, place.block, op.block) {
        NoHolder(tree.nodes, place);
      }
    }
  }

  lemma {:induction false} KeptHolder(nodes: seq<Node>, block: BlockID, place: Place)
    requires GoodNodes(nodes) && place.block in GraphOf(WithoutSubtree(nodes, block))
    ensures ContentAt(WithoutSubtree(nodes, block), place) == ContentAt(nodes, place)
  {
    var gone := Removed(GraphOf(nodes), block);
    var kept := Filter(nodes, (n: Node) => n.id !in gone);
    var sorted := SortBy(kept, ListingKey);
    var after := Numbered(sorted);
    DeleteGraph(nodes, block);
    GraphHas(after, place.block);
    var j := Find(after, NodeId, place.block);
    SortElements(kept, ListingKey, sorted[j]);
    assert sorted[j] in sorted && sorted[j] in nodes;
    var i :| 0 <= i < |nodes| && nodes[i] == sorted[j];
    MemberHolder(after, nodes, j, i, place);
  }

  /** A block whose kind is replaced has the new kind, keeps its parent and its order,
      holds nothing and has no relations; every other block stays as it is. */
  lemma {:induction false} ReplaceBlockReads(tree: Tree, op: Operation, place: Place)
    requires op.ReplaceBlockKind? && AppliedNodes(tree, op).Some?
    ensures var before, after := tree.nodes, AppliedNodes(tree, op).value;
            && |after| == |before|
            && (forall i :: 0 <= i < |before| && before[i].id != op.block ==> after[i] == before[i])
            && exists i :: 0 <= i < |before| && before[i].id == op.block &&
                 after[i].id == op.block && after[i].kind == op.kind && after[i].parent == before[i].parent
                 && after[i].order == before[i].order && after[i].relations == []
    ensures ContentAt(AppliedNodes(tree, op).value, place)
         == if place.block != op.block then ContentAt(tree.nodes, place)
            else if place.relation == NONE && place.item == NONE then Some(Content(op.kind, NOTHING)) else None
  {
    var i := Find(tree.nodes, NodeId, op.block);
    var n := Node(op.block, op.kind, tree.nodes[i].parent, tree.nodes[i].order, [], [], [], []);
    ContentAfterUpdate(tree.nodes, i, n, place);
    assert AppliedNodes(tree, op).value[i] == n;
  }

  // ----- relation items -----

  lemma FindCons(x: RelationItem, tail: seq<RelationItem>, id: ItemID)
    ensures Find([x] + tail, ItemId, id) == if x.id == id then 0 else 1 + Find(tail, ItemId, id)
  {
    assert ([x] + tail)[1..] == tail;
  }

  lemma WithoutCons(x: RelationItem, tail: seq<RelationItem>, gone: ItemID)
    ensures WithoutId([x] + tail, gone) == if x.id != gone then [x] + WithoutId(tail, gone) else WithoutId(tail, gone)
  {
    assert ([x] + tail)[1..] == tail;
  }

  /** The same item is found in what is left, unless it is the one taken. */
  ghost predicate FoundAlike(items: seq<RelationItem>, rest: seq<RelationItem>, gone: ItemID, id: ItemID) {
    var i, j := Find(rest, ItemId, id), Find(items, ItemId, id);
    if id == gone || j == |items| then i == |rest| else i < |rest| && j < |items| && rest[i] == items[j]
  }

  lemma {:induction false} FindKept(items: seq<RelationItem>, gone: ItemID, id: ItemID)
    ensures FoundAlike(items, WithoutId(items, gone), gone, id)
  {
    if items != [] {
      FindKept(items[1..], gone, id);
      assert items == [items[0]] + items[1..];
      WithoutCons(items[0], items[1..], gone);
      FindKeptCons(items[0], items[1..], WithoutId(items[1..], gone), gone, id);
    }
  }

  lemma {:induction false} FindKeptCons(x: RelationItem, tail: seq<RelationItem>, rest: seq<RelationItem>, gone: ItemID, id: ItemID)
    requires FoundAlike(tail, rest, gone, id)
    ensures FoundAlike([x] + tail, if x.id != gone then [x] + rest else rest, gone, id)
  {
    FindCons(x, tail, id);
    FindCons(x, rest, id);
  }

  lemma {:induction false} FindPlaced(others: seq<RelationItem>, moved: RelationItem, after: ItemID, id: ItemID)
    requires Find(others, ItemId, moved.id) == |others|
    ensures var placed := PlacedItem(others, moved, after);
            var i, j := Find(placed, ItemId, id), Find(others, ItemId, id);
            if id == moved.id && (after == NONE || Find(others, ItemId, after) < |others|) then i < |placed| && placed[i] == moved
            else if j == |others| then i == |placed| else i < |placed| && placed[i] == others[j]
  {
    var p := Find(others, ItemId, after);
    if after == NONE {
      FindAmong([], moved, others, id);
    } else if p < |others| {
      FindAmong(others[..p + 1], moved, others[p + 1..], id);
      assert others == others[..p + 1] + others[p + 1..];
    }
  }

  lemma {:induction false} FindAmong(a: seq<RelationItem>, moved: RelationItem, b: seq<RelationItem>, id: ItemID)
    requires Find(a + b, ItemId, moved.id) == |a + b|
    ensures var all := a + [moved] + b;
            var i, j := Find(all, ItemId, id), Find(a + b, ItemId, id);
            if id == moved.id then i < |all| && all[i] == moved
            else if j == |a + b| then i == |all| else i < |all| && all[i] == (a + b)[j]
  {
    var all, others := a + [moved] + b, a + b;
    assert all[|a|] == moved;
    forall k | 0 <= k < |others| ensures others[k] == all[if k < |a| then k else k + 1] {
    }
    forall k | 0 <= k < |all| && k != |a| ensures all[k] == others[if k < |a| then k else k - 1] {
    }
    var j := Find(others, ItemId, id);
    if id == moved.id {
      forall k | 0 <= k < |all| && k != |a| ensures all[k].id != id {
        assert others[if k < |a| then k else k - 1].id != id;
      }
    } else if j < |others| {
      var at := if j < |a| then j else j + 1;
      assert all[at] == others[j];
      forall k | 0 <= k < at ensures all[k].id != id {
        assert k != |a| ==> all[k] == others[if k < |a| then k else k - 1];
      }
      assert Find(all, ItemId, id) == at;
    } else {
      forall k | 0 <= k < |all| ensures all[k].id != id {
        assert k != |a| ==> all[k] == others[if k < |a| then k else k - 1];
      }
    }
  }

  lemma {:induction false} NumberedItem(items: seq<RelationItem>, id: ItemID)
    ensures ItemIn(NumberedItems(items), id) == ItemIn(items, id)
  {
    FindSameIds(NumberedItems(items), items, ItemId, id);
  }

  /** The anchor of a placement: none, or another item of the relation. */
  predicate AnchorThere(items: seq<RelationItem>, moved: ItemID, after: ItemID) {
    after == NONE || (after != moved && Find(items, ItemId, after) < |items|)
  }

  lemma {:induction false} RelationWithHolders(relation: Relation, moved: RelationItem, after: ItemID, id: ItemID)
    requires AnchorThere(relation.items, moved.id, after)
    ensures ItemIn(RelationWith(relation, moved, after).items, id)
         == if id == moved.id then Some(ItemContent(moved)) else ItemIn(relation.items, id)
  {
    var others := WithoutId(relation.items, moved.id);
    FindKept(relation.items, moved.id, moved.id);
    FindKept(relation.items, moved.id, after);
    FindKept(relation.items, moved.id, id);
    FindPlaced(others, moved, after, id);
    NumberedItem(PlacedItem(others, moved, after), id);
  }

  lemma {:induction false} RelationWithoutHolders(relation: Relation, item: ItemID, id: ItemID)
    ensures ItemIn(RelationWithout(relation, item).items, id) == if id == item then None else ItemIn(relation.items, id)
  {
    FindKept(relation.items, item, id);
    NumberedItem(WithoutId(relation.items, item), id);
  }

  lemma {:induction false} RelationUpdateHolders(n: Node, r: nat, relation: Relation, place: Place)
    requires r < |n.relations| && relation.id == n.relations[r].id && Find(n.relations, RelationId, relation.id) == r
    ensures ContentIn(n.(relations := n.relations[r := relation]), place)
         == if (place.relation != NONE || place.item != NONE) && place.relation == relation.id
            then ItemIn(relation.items, place.item) else ContentIn(n, place)
  {
    FindSameIds(n.relations[r := relation], n.relations, RelationId, place.relation);
  }

  lemma {:induction false} RelationAppendHolders(n: Node, relation: Relation, place: Place)
    requires Find(n.relations, RelationId, relation.id) == |n.relations|
    ensures ContentIn(n.(relations := n.relations + [relation]), place)
         == if (place.relation != NONE || place.item != NONE) && place.relation == relation.id
            then ItemIn(relation.items, place.item) else ContentIn(n, place)
  {
    var all := n.relations + [relation];
    assert all[|n.relations|] == relation;
    assert forall k :: 0 <= k < |n.relations| ==> all[k] == n.relations[k];
    var i, j := Find(all, RelationId, place.relation), Find(n.relations, RelationId, place.relation);
    assert j < |n.relations| ==> all[j].id == place.relation;
    assert i < |n.relations| ==> n.relations[i].id == place.relation;
  }

  /** The items of a relation of a block; none when either is missing. */
  function ItemsAt(nodes: seq<Node>, block: BlockID, relation: RelationID): seq<RelationItem> {
    var i := Find(nodes, NodeId, block);
    if i == |nodes| then []
    else
      var r := Find(nodes[i].relations, RelationId, relation);
      if r == |nodes[i].relations| then [] else nodes[i].relations[r].items
  }

  /** An item placed in a relation is there with what it holds; every other place
      reads as before. */
  lemma {:induction false} InsertedItemHolders(
    nodes: seq<Node>, block: BlockID, relation: RelationID, item: RelationItem, after: ItemID, place: Place)
    requires InsertedItem(nodes, block, relation, item, after).Some? && item.id != NONE
    requires AnchorThere(ItemsAt(nodes, block, relation), item.id, after)
    ensures ContentAt(InsertedItem(nodes, block, relation, item, after).value, place)
         == if place == Place(block, relation, item.id) then Some(ItemContent(item)) else ContentAt(nodes, place)
  {
    var i := Find(nodes, NodeId, block);
    var n := nodes[i];
    var m := n.(relations := RelationsWith(n.relations, relation, item, after));
    ContentAfterUpdate(nodes, i, m, place);
    var r := Find(n.relations, RelationId, relation);
    if r == |n.relations| {
      RelationWithHolders(Relation(relation, []), item, after, place.item);
      RelationAppendHolders(n, RelationWith(Relation(relation, []), item, after), place);
    } else {
      RelationWithHolders(n.relations[r], item, after, place.item);
      RelationUpdateHolders(n, r, RelationWith(n.relations[r], item, after), place);
    }
  }

  lemma {:induction false} DeletedItemHolders(nodes: seq<Node>, block: BlockID, relation: RelationID, item: ItemID, place: Place)
    requires DeletedItem(nodes, block, relation, item).Some? && item != NONE
    ensures ContentAt(DeletedItem(nodes, block, relation, item).value, place)
         == if place == Place(block, relation, item) then None else ContentAt(nodes, place)
  {
    var i := Find(nodes, NodeId, block);
    var n := nodes[i];
    var r := Find(n.relations, RelationId, relation);
    var m := n.(relations := n.relations[r := RelationWithout(n.relations[r], item)]);
    ContentAfterUpdate(nodes, i, m, place);
    RelationWithoutHolders(n.relations[r], item, place.item);
    RelationUpdateHolders(n, r, RelationWithout(n.relations[r], item), place);
  }

  lemma {:induction false} AnchorAfterDelete(nodes: seq<Node>, block: BlockID, relation: RelationID, item: ItemID,
                                             targetBlock: BlockID, targetRelation: RelationID, after: ItemID)
    requires DeletedItem(nodes, block, relation, item).Some?
    requires AnchorThere(ItemsAt(nodes, targetBlock, targetRelation), item, after)
    ensures AnchorThere(ItemsAt(DeletedItem(nodes, block, relation, item).value, targetBlock, targetRelation), item, after)
  {
    var i := Find(nodes, NodeId, block);
    var n := nodes[i];
    var r := Find(n.relations, RelationId, relation);
    var m := n.(relations := n.relations[r := RelationWithout(n.relations[r], item)]);
    var taken := nodes[i := m];
    FindSameIds(taken, nodes, NodeId, targetBlock);
    FindSameIds(m.relations, n.relations, RelationId, targetRelation);
    if targetBlock == block && targetRelation == relation && after != NONE {
      FindKept(n.relations[r].items, item, after);
      FindSameIds(NumberedItems(WithoutId(n.relations[r].items, item)), WithoutId(n.relations[r].items, item), ItemId, after);
    }
  }

  /** An item operation adds, takes or moves exactly its item, with what it holds. */
  lemma {:induction false} ItemOperationReads(tree: Tree, op: Operation, place: Place)
    requires AppliedNodes(tree, op).Some? && (op.InsertRelationItem? || op.DeleteRelationItem? || op.MoveRelationItem?)
    requires op.item != NONE
    requires op.InsertRelationItem? ==> AnchorThere(ItemsAt(tree.nodes, op.block, op.relation), op.item, op.afterItem)
    requires op.MoveRelationItem? ==> AnchorThere(ItemsAt(tree.nodes, op.targetBlock, op.targetRelation), op.item, op.afterItem)
    ensures var before, after := ContentAt(tree.nodes, place), ContentAt(AppliedNodes(tree, op).value, place);
            match op
            case InsertRelationItem(block, relation, item, kind, _) =>
              after == (if place == Place(block, relation, item) then Some(Content(kind, NOTHING)) else before)
            case DeleteRelationItem(block, relation, item) =>
              after == (if place == Place(block, relation, item) then None else before)
            case MoveRelationItem(block, relation, item, targetBlock, targetRelation, _) =>
              after == (if place == Place(targetBlock, targetRelation, item) then ContentAt(tree.nodes, Place(block, relation, item))
                        else if place == Place(block, relation, item) then None
                        else before)
  {
    match op
    case InsertRelationItem(block, relation, item, kind, after) =>
      InsertedItemHolders(tree.nodes, block, relation, RelationItem(item, kind, 0, [], [], []), after, place);
    case DeleteRelationItem(block, relation, item) =>
      DeletedItemHolders(tree.nodes, block, relation, item, place);
    case MoveRelationItem(block, relation, item, targetBlock, targetRelation, after) =>
      var moved := ItemAt(tree.nodes, block, relation, item).value;
      var taken := DeletedItem(tree.nodes, block, relation, item).value;
      DeletedItemHolders(tree.nodes, block, relation, item, place);
      AnchorAfterDelete(tree.nodes, block, relation, item, targetBlock, targetRelation, after);
      InsertedItemHolders(taken, targetBlock, targetRelation, moved, after, place);
  }
}
