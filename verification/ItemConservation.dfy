/** Relation items across the document: what an accepted insert, delete or move of
    one makes of all of them, and where conservation would fail. */
module ItemConservation {
  import opened Lists
  import opened Values
  import opened Schemas
  import opened Documents
  import opened BlockGraph
  import opened Validation
  import opened Mutation
  import opened GraphSoundness
  import opened ValueSoundness
  import opened BatchSoundness

  // ----- counting items, without their positions -----

  function Unplaced(i: RelationItem): RelationItem { i.(order := 0) }

  function CountItems(items: seq<RelationItem>, x: RelationItem): nat {
    if items == [] then 0 else One(items[0], x) + CountItems(items[1..], x)
  }

  function One(item: RelationItem, x: RelationItem): nat {
    if Unplaced(item) == x then 1 else 0
  }

  function CountRelations(relations: seq<Relation>, x: RelationItem): nat {
    if relations == [] then 0 else CountItems(relations[0].items, x) + CountRelations(relations[1..], x)
  }

  /** How often the document holds the item `x`, with its payload, in any place. */
  function CountAll(nodes: seq<Node>, x: RelationItem): nat {
    if nodes == [] then 0 else CountRelations(nodes[0].relations, x) + CountAll(nodes[1..], x)
  }

  /** The same items with the same payloads, wherever they are. */
  ghost predicate SameItems(a: seq<Node>, b: seq<Node>) {
    forall x :: CountAll(b, x) == CountAll(a, x)
  }

  lemma {:induction false} CountConcat(a: seq<RelationItem>, b: seq<RelationItem>, x: RelationItem)
    ensures CountItems(a + b, x) == CountItems(a, x) + CountItems(b, x)
  {
    if a == [] {
      assert a + b == b;
    } else {
      assert (a + b)[1..] == a[1..] + b;
      CountConcat(a[1..], b, x);
    }
  }

  lemma CountOne(item: RelationItem, x: RelationItem)
    ensures CountItems([item], x) == One(item, x)
  {
    assert [item][1..] == [];
  }

  lemma {:induction false} CountPointwise(a: seq<RelationItem>, b: seq<RelationItem>, x: RelationItem)
    requires |a| == |b| && forall i :: 0 <= i < |a| ==> Unplaced(a[i]) == Unplaced(b[i])
    ensures CountItems(a, x) == CountItems(b, x)
  {
    if a != [] {
      CountPointwise(a[1..], b[1..], x);
    }
  }

  lemma {:induction false} CountWithoutAbsent(items: seq<RelationItem>, id: ItemID)
    requires Find(items, ItemId, id) == |items|
    ensures WithoutId(items, id) == items
  {
    if items != [] {
      CountWithoutAbsent(items[1..], id);
    }
  }

  lemma {:induction false} CountWithout(items: seq<RelationItem>, id: ItemID, x: RelationItem)
    requires Unique(items, ItemId)
    ensures var i := Find(items, ItemId, id);
            CountItems(items, x) == CountItems(WithoutId(items, id), x) + if i < |items| then One(items[i], x) else 0
  {
    if items != [] {
      if items[0].id == id {
        assert forall j :: 0 <= j < |items[1..]| ==> items[1..][j] == items[j + 1];
        CountWithoutAbsent(items[1..], id);
        assert WithoutId(items, id) == WithoutId(items[1..], id);
      } else {
        CountWithout(items[1..], id, x);
        CountConcat([items[0]], WithoutId(items[1..], id), x);
        CountOne(items[0], x);
      }
    }
  }

  lemma {:induction false} CountPlaced(others: seq<RelationItem>, moved: RelationItem, after: ItemID, x: RelationItem)
    requires after == NONE || Find(others, ItemId, after) < |others|
    ensures CountItems(PlacedItem(others, moved, after), x) == CountItems(others, x) + One(moved, x)
  {
    CountOne(moved, x);
    if after == NONE {
      CountConcat([moved], others, x);
    } else {
      var p := Find(others, ItemId, after);
      var front, back := others[..p + 1], others[p + 1..];
      assert others == front + back;
      CountConcat(front, back, x);
      CountConcat(front, [moved], x);
      CountConcat(front + [moved], back, x);
    }
  }

  lemma {:induction false} CountRelationsUpdate(relations: seq<Relation>, r: nat, relation: Relation, x: RelationItem)
    requires r < |relations|
    ensures CountRelations(relations[r := relation], x) + CountItems(relations[r].items, x)
         == CountRelations(relations, x) + CountItems(relation.items, x)
    decreases r
  {
    if r > 0 {
      assert relations[r := relation][1..] == relations[1..][r - 1 := relation];
      CountRelationsUpdate(relations[1..], r - 1, relation, x);
    } else {
      assert relations[r := relation][1..] == relations[1..];
    }
  }

  lemma {:induction false} CountRelationsAppend(relations: seq<Relation>, relation: Relation, x: RelationItem)
    ensures CountRelations(relations + [relation], x) == CountRelations(relations, x) + CountItems(relation.items, x)
  {
    if relations == [] {
      assert [] + [relation] == [relation] && [relation][1..] == [];
    } else {
      assert (relations + [relation])[1..] == relations[1..] + [relation];
      CountRelationsAppend(relations[1..], relation, x);
    }
  }

  lemma {:induction false} CountUpdate(nodes: seq<Node>, i: nat, n: Node, x: RelationItem)
    requires i < |nodes|
    ensures CountAll(nodes[i := n], x) + CountRelations(nodes[i].relations, x) == CountAll(nodes, x) + CountRelations(n.relations, x)
    decreases i
  {
    if i > 0 {
      assert nodes[i := n][1..] == nodes[1..][i - 1 := n];
      CountUpdate(nodes[1..], i - 1, n, x);
    } else {
      assert nodes[i := n][1..] == nodes[1..];
    }
  }

  // ----- one relation -----

  /** What placing an item of that identifier displaces. */
  function Displaced(items: seq<RelationItem>, id: ItemID, x: RelationItem): nat {
    var i := Find(items, ItemId, id);
    if i < |items| then One(items[i], x) else 0
  }

  lemma {:induction false} RelationWithItems(relation: Relation, moved: RelationItem, after: ItemID, x: RelationItem)
    requires GoodRelation(relation) && (after == NONE || (after != moved.id && after in ItemsOf(relation)))
    ensures CountItems(RelationWith(relation, moved, after).items, x) + Displaced(relation.items, moved.id, x)
         == CountItems(relation.items, x) + One(moved, x)
  {
    var others := WithoutId(relation.items, moved.id);
    CountWithout(relation.items, moved.id, x);
    WithoutIdGraph(relation.items, moved.id);
    FindIndexed(others, ItemId, KindOfItem, after);
    CountPlaced(others, moved, after, x);
    CountPointwise(NumberedItems(PlacedItem(others, moved, after)), PlacedItem(others, moved, after), x);
  }

  lemma {:induction false} RelationWithoutItems(relation: Relation, item: ItemID, x: RelationItem)
    requires GoodRelation(relation) && item in ItemsOf(relation)
    ensures Find(relation.items, ItemId, item) < |relation.items|
    ensures CountItems(RelationWithout(relation, item).items, x) + One(relation.items[Find(relation.items, ItemId, item)], x)
         == CountItems(relation.items, x)
  {
    FindIndexed(relation.items, ItemId, KindOfItem, item);
    CountWithout(relation.items, item, x);
    CountPointwise(RelationWithout(relation, item).items, WithoutId(relation.items, item), x);
  }

  function DisplacedIn(relations: seq<Relation>, relation: RelationID, id: ItemID, x: RelationItem): nat {
    var r := Find(relations, RelationId, relation);
    if r < |relations| then Displaced(relations[r].items, id, x) else 0
  }

  lemma {:induction false} RelationsWithItems(n: Node, relation: RelationID, item: RelationItem, after: ItemID, x: RelationItem)
    requires GoodNode(n) && after != item.id
    requires after == NONE || (relation in BlockOf(n).relations && after in BlockOf(n).relations[relation])
    ensures CountRelations(RelationsWith(n.relations, relation, item, after), x) + DisplacedIn(n.relations, relation, item.id, x)
         == CountRelations(n.relations, x) + One(item, x)
  {
    var r := Find(n.relations, RelationId, relation);
    FindIndexed(n.relations, RelationId, ItemsOf, relation);
    if r == |n.relations| {
      var empty := Relation(relation, []);
      RelationWithItems(empty, item, after, x);
      CountRelationsAppend(n.relations, RelationWith(empty, item, after), x);
    } else {
      RelationWithItems(n.relations[r], item, after, x);
      CountRelationsUpdate(n.relations, r, RelationWith(n.relations[r], item, after), x);
    }
  }

  // ----- the document -----

  function DisplacedAt(nodes: seq<Node>, block: BlockID, relation: RelationID, id: ItemID, x: RelationItem): nat {
    match ItemAt(nodes, block, relation, id)
    case None => 0
    case Some(old_) => One(old_, x)
  }

  /** Placing an item at an anchor its relation has adds it, and displaces one of the
      same identifier there. */
  lemma {:induction false} InsertedItems(nodes: seq<Node>, block: BlockID, relation: RelationID, item: RelationItem, after: ItemID, x: RelationItem)
    requires GoodNodes(nodes) && item.id != NONE && ValidateRelationPlacement(GraphOf(nodes), block, relation, item.id, after).None?
    ensures InsertedItem(nodes, block, relation, item, after).Some?
    ensures CountAll(InsertedItem(nodes, block, relation, item, after).value, x) + DisplacedAt(nodes, block, relation, item.id, x)
         == CountAll(nodes, x) + One(item, x)
  {
    GraphHas(nodes, block);
    var i := Find(nodes, NodeId, block);
    RelationsWithItems(nodes[i], relation, item, after, x);
    CountUpdate(nodes, i, nodes[i].(relations := RelationsWith(nodes[i].relations, relation, item, after)), x);
  }

  lemma {:induction false} DeletedItems(nodes: seq<Node>, block: BlockID, relation: RelationID, item: ItemID, x: RelationItem)
    requires GoodNodes(nodes) && RequireRelationItem(GraphOf(nodes), block, relation, item).None?
    ensures DeletedItem(nodes, block, relation, item).Some? && ItemAt(nodes, block, relation, item).Some?
    ensures CountAll(DeletedItem(nodes, block, relation, item).value, x) + One(ItemAt(nodes, block, relation, item).value, x)
         == CountAll(nodes, x)
  {
    GraphHas(nodes, block);
    ItemAtGraph(nodes, block, relation, item);
    var i := Find(nodes, NodeId, block);
    var n := nodes[i];
    FindIndexed(n.relations, RelationId, ItemsOf, relation);
    var r := Find(n.relations, RelationId, relation);
    RelationWithoutItems(n.relations[r], item, x);
    CountRelationsUpdate(n.relations, r, RelationWithout(n.relations[r], item), x);
    CountUpdate(nodes, i, n.(relations := n.relations[r := RelationWithout(n.relations[r], item)]), x);
  }

  lemma {:induction false} MovedItems(
    nodes: seq<Node>, block: BlockID, relation: RelationID, item: ItemID,
    targetBlock: BlockID, targetRelation: RelationID, after: ItemID, x: RelationItem)
    requires GoodNodes(nodes) && RequireRelationItem(GraphOf(nodes), block, relation, item).None?
    requires ValidateRelationPlacement(GraphOf(nodes), targetBlock, targetRelation, item, after).None?
    ensures MovedItem(nodes, block, relation, item, targetBlock, targetRelation, after).Some?
    ensures CountAll(MovedItem(nodes, block, relation, item, targetBlock, targetRelation, after).value, x)
              + DisplacedAt(DeletedItem(nodes, block, relation, item).value, targetBlock, targetRelation, item, x)
         == CountAll(nodes, x)
  {
    DeletedItems(nodes, block, relation, item, x);
    DeleteItemGraph(nodes, block, relation, item);
    ItemAtGraph(nodes, block, relation, item);
    PlacementAfterTaking(GraphOf(nodes), block, relation, item, targetBlock, targetRelation, after);
    InsertedItems(DeletedItem(nodes, block, relation, item).value, targetBlock, targetRelation,
                  ItemAt(nodes, block, relation, item).value, after, x);
  }

  /** The item is held where it is moved to, apart from where it is taken. */
  predicate HasTwin(g: Graph, block: BlockID, relation: RelationID, item: ItemID, targetBlock: BlockID, targetRelation: RelationID) {
    && (block != targetBlock || relation != targetRelation)
    && targetBlock in g && targetRelation in g[targetBlock].relations && item in g[targetBlock].relations[targetRelation]
  }

  lemma {:induction false} TwinIsDisplaced(
    nodes: seq<Node>, block: BlockID, relation: RelationID, item: ItemID, targetBlock: BlockID, targetRelation: RelationID)
    requires GoodNodes(nodes) && RequireRelationItem(GraphOf(nodes), block, relation, item).None? && targetBlock in GraphOf(nodes)
    ensures DeletedItem(nodes, block, relation, item).Some?
    ensures ItemAt(DeletedItem(nodes, block, relation, item).value, targetBlock, targetRelation, item).Some?
       <==> HasTwin(GraphOf(nodes), block, relation, item, targetBlock, targetRelation)
  {
    DeleteItemGraph(nodes, block, relation, item);
    ItemAtGraph(DeletedItem(nodes, block, relation, item).value, targetBlock, targetRelation, item);
  }

  /** A move of an item that is there, to an anchor that is there, conserves all items
      with their payload exactly when the target does not hold another of its name. */
  lemma {:induction false} MoveConservesIff(
    nodes: seq<Node>, block: BlockID, relation: RelationID, item: ItemID,
    targetBlock: BlockID, targetRelation: RelationID, after: ItemID)
    requires GoodNodes(nodes) && RequireRelationItem(GraphOf(nodes), block, relation, item).None?
    requires ValidateRelationPlacement(GraphOf(nodes), targetBlock, targetRelation, item, after).None?
    ensures MovedItem(nodes, block, relation, item, targetBlock, targetRelation, after).Some?
    ensures SameItems(nodes, MovedItem(nodes, block, relation, item, targetBlock, targetRelation, after).value)
       <==> !HasTwin(GraphOf(nodes), block, relation, item, targetBlock, targetRelation)
  {
    var g := GraphOf(nodes);
    TwinIsDisplaced(nodes, block, relation, item, targetBlock, targetRelation);
    MovedItems(nodes, block, relation, item, targetBlock, targetRelation, after, RelationItem(0, 0, 0, [], [], []));
    var moved := MovedItem(nodes, block, relation, item, targetBlock, targetRelation, after).value;
    if HasTwin(g, block, relation, item, targetBlock, targetRelation) {
      var twin := ItemAt(DeletedItem(nodes, block, relation, item).value, targetBlock, targetRelation, item).value;
      MovedItems(nodes, block, relation, item, targetBlock, targetRelation, after, Unplaced(twin));
      assert CountAll(moved, Unplaced(twin)) != CountAll(nodes, Unplaced(twin));
    } else {
      forall x ensures CountAll(moved, x) == CountAll(nodes, x) {
        MovedItems(nodes, block, relation, item, targetBlock, targetRelation, after, x);
      }
    }
  }

  /** Over an accepted relation operation, where graph and tree agree: an insert adds
      exactly the new item, a delete takes exactly the named one, and a move keeps
      every item with its payload. */
  lemma {:induction false} StepItems(tree: Tree, v: Validator, op: Operation, x: RelationItem)
    requires GoodNodes(tree.nodes) && Forest(v.graph) && ItemsUnique(v.graph) && Agrees(tree, v) && Validate(v, op).None?
    requires op.InsertRelationItem? || op.DeleteRelationItem? || op.MoveRelationItem?
    ensures AppliedNodes(tree, op).Some?
    ensures var before, after := CountAll(tree.nodes, x), CountAll(AppliedNodes(tree, op).value, x);
            match op
            case InsertRelationItem(_, _, item, kind, _) => after == before + One(RelationItem(item, kind, 0, [], [], []), x)
            case DeleteRelationItem(block, relation, item) =>
              ItemAt(tree.nodes, block, relation, item).Some? &&
              after + One(ItemAt(tree.nodes, block, relation, item).value, x) == before
            case _ => after == before
  {
    match op
    case InsertRelationItem(block, relation, item, kind, after) =>
      ItemAtGraph(tree.nodes, block, relation, item);
      InsertedItems(tree.nodes, block, relation, RelationItem(item, kind, 0, [], [], []), after, x);
    case DeleteRelationItem(block, relation, item) => DeletedItems(tree.nodes, block, relation, item, x);
    case MoveRelationItem(block, relation, item, targetBlock, targetRelation, after) =>
      assert HeldAt(v.graph, block, relation, item);
      assert HasTwin(v.graph, block, relation, item, targetBlock, targetRelation) ==> HeldAt(v.graph, targetBlock, targetRelation, item);
      TwinIsDisplaced(tree.nodes, block, relation, item, targetBlock, targetRelation);
      MovedItems(tree.nodes, block, relation, item, targetBlock, targetRelation, after, x);
  }

  // ----- where it would fail -----

  /** A placement whose anchor its relation lacks loses the item: the check of the
      anchor is what conservation rests on. */
  lemma {:induction false} AbsentAnchorLosesItem(relation: Relation, moved: RelationItem, after: ItemID, x: RelationItem)
    requires GoodRelation(relation) && moved.id !in ItemsOf(relation) && after != NONE && after !in ItemsOf(relation)
    ensures CountItems(RelationWith(relation, moved, after).items, x) == CountItems(relation.items, x)
  {
    var others := WithoutId(relation.items, moved.id);
    FindIndexed(relation.items, ItemId, KindOfItem, moved.id);
    CountWithoutAbsent(relation.items, moved.id);
    FindIndexed(others, ItemId, KindOfItem, after);
    CountPointwise(NumberedItems(others), others, x);
  }
}
