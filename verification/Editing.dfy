/** The loops that apply operations to a document in place. Each is proved to leave
    what the functions of `Mutation` say. */
module Editing {
  import opened Lists
  import opened Values
  import opened Schemas
  import opened Documents
  import opened BlockGraph
  import opened Validation
  import opened Mutation
  import opened GraphSoundness
  import opened ValueSoundness
  import opened BatchSoundness
  import opened SiblingOrder
  import opened GraphCover
  import opened CanonicalOrder
  import opened LocaleAuthority

  // ----- placing a block among its siblings -----

  lemma InsertAfterStep(s: seq<BlockID>, k: nat, block: BlockID, after: BlockID)
    requires NoDuplicates(s) && k < |s| && after != NONE
    ensures PositionOf(s, after) == k <==> s[k] == after
  {
    if s[k] == after {
      PositionOfElement(s, k);
    }
  }

  method PlaceAmong(siblings: seq<BlockID>, block: BlockID, after: BlockID) returns (ordered: seq<BlockID>)
    requires NoDuplicates(siblings) && NONE !in siblings
    ensures ordered == InsertAfter(siblings, block, after)
  {
    ghost var p := PositionOf(siblings, after);
    ordered := [];
    var inserted := false;
    if after == NONE {
      ordered, inserted := [block], true;
    }
    for k := 0 to |siblings|
      invariant after == NONE ==> inserted && ordered == [block] + siblings[..k]
      invariant after != NONE && k <= p ==> !inserted && ordered == siblings[..k]
      invariant after != NONE && k > p ==> inserted && ordered == siblings[..p + 1] + [block] + siblings[p + 1..k]
    {
      if after != NONE {
        InsertAfterStep(siblings, k, block, after);
      }
      ordered := ordered + [siblings[k]];
      if siblings[k] == after {
        ordered := ordered + [block];
        inserted := true;
      }
    }
    assert siblings[..|siblings|] == siblings && (p < |siblings| ==> siblings[p + 1..|siblings|] == siblings[p + 1..]);
    if !inserted {
      ordered := ordered + [block];
    }
  }

  lemma ReorderStep(n: Node, ordered: seq<BlockID>, k: nat)
    requires NoDuplicates(ordered) && k < |ordered|
    ensures Reorder(n, ordered[..k + 1]) == if n.id == ordered[k] then n.(order := k) else Reorder(n, ordered[..k])
  {
    var less, more := ordered[..k], ordered[..k + 1];
    assert more == less + [ordered[k]];
    if n.id == ordered[k] {
      PositionOfElement(more, k);
    } else if n.id in less {
      var i :| 0 <= i < |less| && less[i] == n.id;
      PositionOfElement(less, i);
      PositionOfElement(more, i);
    }
  }

  // ----- relation items -----

  method RenumberRelationOrders(items: seq<RelationItem>) returns (numbered: seq<RelationItem>)
    ensures numbered == NumberedItems(items)
  {
    numbered := items;
    for k := 0 to |items|
      invariant |numbered| == |items|
      invariant forall j :: 0 <= j < |items| ==> numbered[j] == if j < k then items[j].(order := j) else items[j]
    {
      numbered := numbered[k := numbered[k].(order := k)];
    }
  }

  /** The items but one, and that one when it was found. */
  method TakeItem(items: seq<RelationItem>, item: ItemID) returns (kept: seq<RelationItem>, moved: Option<RelationItem>)
    requires Unique(items, ItemId)
    ensures kept == WithoutId(items, item)
    ensures moved == if Find(items, ItemId, item) < |items| then Some(items[Find(items, ItemId, item)]) else None
  {
    kept, moved := [], None;
    for k := 0 to |items|
      invariant kept == WithoutId(items[..k], item)
      invariant moved == if Find(items, ItemId, item) < k then Some(items[Find(items, ItemId, item)]) else None
    {
      WithoutStep(items, k, item);
      if items[k].id == item {
        moved := Some(items[k]);
      } else {
        kept := kept + [items[k]];
      }
    }
    assert items[..|items|] == items;
  }

  /** Lists the others, with the moved item first or right after its anchor. */
  method PlaceRelationItemAfter(items: seq<RelationItem>, moved: RelationItem, after: ItemID) returns (placed: seq<RelationItem>)
    requires Unique(items, ItemId) && ItemsNamed(items)
    ensures placed == NumberedItems(PlacedItem(WithoutId(items, moved.id), moved, after))
  {
    ghost var others := WithoutId(items, moved.id);
    FilterUnique(items, ItemId, (i: RelationItem) => i.id != moved.id);
    placed := [];
    if after == NONE {
      placed := [moved];
    }
    for k := 0 to |items|
      invariant placed == PlacedSoFar(WithoutId(items[..k], moved.id), others, moved, after)
    {
      WithoutStep(items, k, moved.id);
      if items[k].id != moved.id {
        PlacedStep(WithoutId(items[..k], moved.id), others, items[k], moved, after);
        placed := placed + [items[k]];
        if items[k].id == after {
          placed := placed + [moved];
        }
      }
    }
    assert items[..|items|] == items;
    PlacedAll(others, moved, after);
    placed := RenumberRelationOrders(placed);
  }

  lemma PlacedAll(others: seq<RelationItem>, moved: RelationItem, after: ItemID)
    ensures PlacedSoFar(others, others, moved, after) == PlacedItem(others, moved, after)
  {
  }

  /** What placing has built once it has listed `done` of the others. */
  ghost function PlacedSoFar(done: seq<RelationItem>, others: seq<RelationItem>, moved: RelationItem, after: ItemID): seq<RelationItem> {
    if after == NONE then [moved] + done
    else
      var p := Find(others, ItemId, after);
      if p < |done| then done[..p + 1] + [moved] + done[p + 1..] else done
  }

  lemma PlacedStep(done: seq<RelationItem>, others: seq<RelationItem>, next: RelationItem, moved: RelationItem, after: ItemID)
    requires Unique(others, ItemId) && done + [next] <= others && next.id != NONE
    ensures PlacedSoFar(done + [next], others, moved, after)
         == PlacedSoFar(done, others, moved, after) + [next] + (if next.id == after then [moved] else [])
  {
    assert others[|done|] == next;
    var p := Find(others, ItemId, after);
    assert next.id == after ==> p == |done|;
    if after != NONE && p < |done| {
      assert (done + [next])[..p + 1] == done[..p + 1] && (done + [next])[p + 1..] == done[p + 1..] + [next];
    }
  }

  lemma WithoutStep(items: seq<RelationItem>, k: nat, id: ItemID)
    requires k < |items|
    ensures WithoutId(items[..k + 1], id) == WithoutId(items[..k], id) + if items[k].id == id then [] else [items[k]]
    ensures WithoutId(items[..k + 1], id) <= WithoutId(items, id)
  {
    var keep := (i: RelationItem) => i.id != id;
    FilterStep(items, k, keep);
    assert items == items[..k + 1] + items[k + 1..];
    FilterConcat(items[..k + 1], items[k + 1..], keep);
  }

  // ----- the document -----

  // ----- values and files -----

  /** Finds the named entry and writes it or below it. */
  method MutateFieldValues(values: seq<Entry>, id: nat, path: seq<Segment>, write: Write, create: bool) returns (r: Option<seq<Entry>>)
    ensures r == MutateEntries(values, id, path, write, create)
    decreases |path|, 1
  {
    var i := 0;
    while i < |values|
      invariant i <= Find(values, EntryId, id)
    {
      if values[i].id == id {
        if path != [] {
          var inner := MutateValuePath(values[i].value, path, write);
          return if inner.None? then None else Some(values[i := Entry(id, inner.value)]);
        }
        match write {
          case Set(x) => return Some(values[i := Entry(id, x)]);
          case Unset => return Some(values[..i] + values[i + 1..]);
        }
      }
      i := i + 1;
    }
    if path != [] || write.Unset? || !create {
      return Some(values);
    }
    return Some(values + [Entry(id, write.value)]);
  }

  method MutateValuePath(value: Value, path: seq<Segment>, write: Write) returns (r: Option<Value>)
    requires path != []
    ensures r == MutatePath(value, path, write)
    decreases |path|, 0
  {
    match path[0] {
      case FieldSegment(field) =>
        if !value.ObjectValue? {
          return None;
        }
        var fields := MutateFieldValues(value.fields, field, path[1..], write, true);
        return if fields.None? then None else Some(ObjectValue(fields.value));
      case ItemSegment(item) =>
        if !value.ListValue? {
          return None;
        }
        var items := MutateFieldValues(value.items, item, path[1..], write, false);
        return if items.None? then None else Some(ListValue(items.value));
    }
  }

  method BindFile(files: seq<FileBinding>, t: Target, file: Option<FileReference>) returns (r: seq<FileBinding>)
    ensures r == BoundFiles(files, t, file)
  {
    var i := 0;
    while i < |files|
      invariant i <= FindBinding(files, t.field, t.path)
    {
      if files[i].field == t.field && files[i].path == t.path {
        return if file.Some? then files[i := files[i].(file := file.value)] else files[..i] + files[i + 1..];
      }
      i := i + 1;
    }
    return if file.Some? then files + [FileBinding(t.field, t.path, file.value)] else files;
  }

  lemma {:induction false} FieldFrame(tree: Tree, t: Target, change: Change)
    requires ChangedField(tree, t, change).Some?
    ensures |ChangedField(tree, t, change).value| == |tree.nodes|
    ensures forall j :: 0 <= j < |tree.nodes| && ChangedField(tree, t, change).value[j].id != t.block ==>
              ChangedField(tree, t, change).value[j] == tree.nodes[j]
    ensures GoodNodes(tree.nodes) ==>
              GoodNodes(ChangedField(tree, t, change).value) && GraphOf(ChangedField(tree, t, change).value) == GraphOf(tree.nodes)
    ensures change.Value? ==> Skeleton(ChangedField(tree, t, change).value) == Skeleton(tree.nodes)
  {
    var i := Find(tree.nodes, NodeId, t.block);
    ChangedKeepsId(tree.catalog, tree.nodes[i], t, change);
    if GoodNodes(tree.nodes) {
      FieldChangeGraph(tree, t, change);
    }
    if change.Value? {
      WriteReads(tree, t, change.write, PlaceOf(t), true, t.field, t.path);
    }
  }

  /** An insertion names a new block, and a move names a block. */
  ghost predicate NamesBlock(nodes: seq<Node>, op: Operation) {
    (op.InsertBlock? ==> op.block != NONE && op.block !in GraphOf(nodes)) && (op.MoveBlock? ==> op.block != NONE)
  }

  lemma AcceptedNamesBlock(nodes: seq<Node>, v: Validator, op: Operation)
    requires Forest(v.graph) && Covers(GraphOf(nodes), v.graph) && Validate(v, op).None?
    ensures NamesBlock(nodes, op)
  {
  }

  class Editor {
    const catalog: Catalog
    var localeExists: bool
    var nodes: seq<Node>

    ghost function State(): Tree
      reads this
    {
      Tree(catalog, localeExists, nodes)
    }

    constructor (tree: Tree)
      ensures State() == tree
    {
      catalog, localeExists, nodes := tree.catalog, tree.localeExists, tree.nodes;
    }

    method MutableNode(id: BlockID) returns (index: nat)
      ensures index == Find(nodes, NodeId, id)
    {
      index := 0;
      while index < |nodes|
        invariant index <= Find(nodes, NodeId, id)
      {
        if nodes[index].id == id {
          return;
        }
        index := index + 1;
      }
    }

    method ReparentBlock(block: BlockID, parent: BlockID)
      modifies this`nodes
      ensures nodes == Reparented(old(nodes), block, parent)
    {
      var k := 0;
      while k < |nodes|
        invariant |nodes| == |old(nodes)| && k <= |nodes|
        invariant forall j :: 0 <= j < |nodes| ==> nodes[j] == if j < k then Reparent(old(nodes)[j], block, parent) else old(nodes)[j]
      {
        if nodes[k].id == block {
          nodes := nodes[k := nodes[k].(parent := parent, order := 0)];
        }
        k := k + 1;
      }
    }

    method SiblingsOf(parent: BlockID, block: BlockID) returns (siblings: seq<Node>)
      ensures siblings == Siblings(nodes, parent, block)
    {
      ghost var keep := (n: Node) => IsSibling(n, parent, block);
      siblings := [];
      for k := 0 to |nodes|
        invariant siblings == Filter(nodes[..k], keep)
      {
        FilterStep(nodes, k, keep);
        if nodes[k].parent == parent && nodes[k].id != block {
          siblings := siblings + [nodes[k]];
        }
      }
      assert nodes[..|nodes|] == nodes;
      siblings := SortBy(siblings, SiblingKey);
    }

    method NumberInOrder(ordered: seq<BlockID>)
      requires NoDuplicates(ordered)
      modifies this`nodes
      ensures nodes == Reordered(old(nodes), ordered)
    {
      var order := 0;
      while order < |ordered|
        invariant order <= |ordered| && |nodes| == |old(nodes)|
        invariant forall j :: 0 <= j < |nodes| ==> nodes[j] == Reorder(old(nodes)[j], ordered[..order])
      {
        NumberOne(ordered[order], order);
        forall j | 0 <= j < |nodes| ensures nodes[j] == Reorder(old(nodes)[j], ordered[..order + 1]) {
          ReorderStep(old(nodes)[j], ordered, order);
        }
        order := order + 1;
      }
      assert ordered[..|ordered|] == ordered;
    }

    method NumberOne(id: BlockID, order: nat)
      modifies this`nodes
      ensures |nodes| == |old(nodes)|
      ensures forall j :: 0 <= j < |nodes| ==>
                nodes[j] == if old(nodes)[j].id == id then old(nodes)[j].(order := order) else old(nodes)[j]
    {
      var k := 0;
      while k < |nodes|
        invariant |nodes| == |old(nodes)| && k <= |nodes|
        invariant forall j :: 0 <= j < |nodes| ==>
                    nodes[j] == if j < k && old(nodes)[j].id == id then old(nodes)[j].(order := order) else old(nodes)[j]
      {
        if nodes[k].id == id {
          nodes := nodes[k := nodes[k].(order := order)];
        }
        k := k + 1;
      }
    }

    method PlaceBlockAfter(block: BlockID, parent: BlockID, after: BlockID)
      requires GoodNodes(nodes) && block != NONE
      modifies this`nodes
      ensures nodes == PlacedBlock(old(nodes), block, parent, after)
    {
      ReparentBlock(block, parent);
      var siblings := SiblingsOf(parent, block);
      SiblingIds(nodes, parent, block);
      InsertAfterMembers(Ids(siblings), block, after);
      var ordered := PlaceAmong(Ids(siblings), block, after);
      NumberInOrder(ordered);
    }

    method DeletionPass(block: BlockID, deleted: set<BlockID>) returns (more: set<BlockID>, changed: bool)
      requires Unique(nodes, NodeId) && block in deleted && deleted <= Removed(GraphOf(nodes), block)
      ensures deleted <= more <= Removed(GraphOf(nodes), block)
      ensures changed <==> more != deleted
      ensures !changed ==> ClosedBelow(GraphOf(nodes), deleted)
    {
      ghost var g := GraphOf(nodes);
      more, changed := deleted, false;
      for k := 0 to |nodes|
        invariant deleted <= more <= Removed(g, block)
        invariant changed <==> more != deleted
        invariant !changed ==> forall j :: 0 <= j < k && nodes[j].parent in deleted ==> nodes[j].id in deleted
      {
        IndexHas(nodes, NodeId, BlockOf, k);
        if nodes[k].parent in more && nodes[k].id !in more {
          ChildIsRemoved(g, nodes[k].id, block);
          more, changed := more + {nodes[k].id}, true;
        }
      }
      IndexIndexes(nodes, NodeId, BlockOf);
    }

    method SubtreeToDelete(block: BlockID) returns (deleted: set<BlockID>)
      requires Unique(nodes, NodeId)
      ensures deleted == Removed(GraphOf(nodes), block)
    {
      ghost var all := Removed(GraphOf(nodes), block);
      deleted := {block};
      var changed := true;
      while changed
        invariant block in deleted && deleted <= all
        invariant !changed ==> ClosedBelow(GraphOf(nodes), deleted)
        decreases all - deleted, changed
      {
        ghost var before := deleted;
        deleted, changed := DeletionPass(block, deleted);
        assert changed ==> all - deleted < all - before;
      }
      ClosedIsRemoved(GraphOf(nodes), deleted, block);
    }

    method RenumberBlockOrders()
      modifies this`nodes
      ensures nodes == Renumbered(old(nodes))
    {
      ghost var sorted := SortBy(nodes, ListingKey);
      nodes := SortBy(nodes, ListingKey);
      var parents: map<BlockID, nat> := map[];
      var k := 0;
      while k < |nodes|
        invariant |nodes| == |sorted| && k <= |nodes|
        invariant forall j :: 0 <= j < |nodes| ==>
                    nodes[j] == if j < k then sorted[j].(order := CountParent(sorted[..j], sorted[j].parent)) else sorted[j]
        invariant forall p :: (if p in parents then parents[p] else 0) == CountParent(sorted[..k], p)
      {
        var parent := nodes[k].parent;
        var count := if parent in parents then parents[parent] else 0;
        nodes := nodes[k := nodes[k].(order := count)];
        parents := parents[parent := count + 1];
        CountStep(sorted, k);
        k := k + 1;
      }
    }

    method DeleteBlockSubtree(block: BlockID)
      requires Unique(nodes, NodeId)
      modifies this`nodes
      ensures nodes == WithoutSubtree(old(nodes), block)
    {
      var deleted := SubtreeToDelete(block);
      var kept := NodesWithout(deleted);
      nodes := kept;
      RenumberBlockOrders();
    }

    method NodesWithout(deleted: set<BlockID>) returns (kept: seq<Node>)
      ensures kept == Filter(nodes, (n: Node) => n.id !in deleted)
    {
      ghost var keep := (n: Node) => n.id !in deleted;
      kept := [];
      for k := 0 to |nodes|
        invariant kept == Filter(nodes[..k], keep)
      {
        FilterStep(nodes, k, keep);
        if nodes[k].id !in deleted {
          kept := kept + [nodes[k]];
        }
      }
      assert nodes[..|nodes|] == nodes;
    }

    method ReplaceBlockKind(block: BlockID, kind: BlockKind) returns (ok: bool)
      modifies this`nodes
      ensures ok <==> Replaced(old(nodes), block, kind).Some?
      ensures nodes == if ok then Replaced(old(nodes), block, kind).value else old(nodes)
    {
      var i := MutableNode(block);
      ok := i < |nodes|;
      if ok {
        nodes := nodes[i := nodes[i].(kind := kind, shared := [], localized := [], files := [], relations := [])];
      }
    }

    method MutableRelation(i: nat, id: RelationID) returns (r: nat)
      requires i < |nodes|
      ensures r == Find(nodes[i].relations, RelationId, id)
    {
      r := 0;
      while r < |nodes[i].relations|
        invariant r <= Find(nodes[i].relations, RelationId, id)
      {
        if nodes[i].relations[r].id == id {
          return;
        }
        r := r + 1;
      }
    }

    method SetItems(i: nat, r: nat, items: seq<RelationItem>)
      requires i < |nodes| && r < |nodes[i].relations|
      modifies this`nodes
      ensures nodes == old(nodes)[i := old(nodes)[i].(relations :=
                         old(nodes)[i].relations[r := old(nodes)[i].relations[r].(items := items)])]
    {
      var relation := nodes[i].relations[r].(items := items);
      nodes := nodes[i := nodes[i].(relations := nodes[i].relations[r := relation])];
    }

    method PlaceItem(block: BlockID, relation: RelationID, item: RelationItem, after: ItemID) returns (ok: bool)
      requires GoodNodes(nodes)
      modifies this`nodes
      ensures ok <==> InsertedItem(old(nodes), block, relation, item, after).Some?
      ensures ok ==> nodes == InsertedItem(old(nodes), block, relation, item, after).value
    {
      var i := MutableNode(block);
      if i == |nodes| {
        return false;
      }
      var r := MutableRelation(i, relation);
      ghost var was := nodes[i];
      if r == |nodes[i].relations| {
        nodes := nodes[i := nodes[i].(relations := nodes[i].relations + [Relation(relation, [])])];
      } else {
        assert GoodRelation(nodes[i].relations[r]);
      }
      var placed := PlaceRelationItemAfter(nodes[i].relations[r].items, item, after);
      SetItems(i, r, placed);
      assert nodes[i].relations == RelationsWith(was.relations, relation, item, after);
      return true;
    }

    method RemoveItem(block: BlockID, relation: RelationID, item: ItemID) returns (ok: bool, moved: Option<RelationItem>)
      requires GoodNodes(nodes)
      modifies this`nodes
      ensures ok <==> DeletedItem(old(nodes), block, relation, item).Some?
      ensures ok ==> nodes == DeletedItem(old(nodes), block, relation, item).value
      ensures moved == ItemAt(old(nodes), block, relation, item)
    {
      var i := MutableNode(block);
      if i == |nodes| {
        return false, None;
      }
      var r := MutableRelation(i, relation);
      if r == |nodes[i].relations| {
        return false, None;
      }
      assert GoodRelation(nodes[i].relations[r]);
      var kept;
      kept, moved := TakeItem(nodes[i].relations[r].items, item);
      kept := RenumberRelationOrders(kept);
      SetItems(i, r, kept);
      ok := true;
    }

    method DeleteTranslation()
      modifies this
      ensures nodes == Map(old(nodes), UntranslatedNode) && !localeExists
    {
      localeExists := false;
      var k := 0;
      while k < |nodes|
        invariant |nodes| == |old(nodes)| && k <= |nodes| && !localeExists
        invariant forall j :: 0 <= j < |nodes| ==> nodes[j] == if j < k then UntranslatedNode(old(nodes)[j]) else old(nodes)[j]
      {
        nodes := nodes[k := UntranslatedNode(nodes[k])];
        k := k + 1;
      }
    }

    method MutableItem(i: nat, r: nat, id: ItemID) returns (k: nat)
      requires i < |nodes| && r < |nodes[i].relations|
      ensures k == Find(nodes[i].relations[r].items, ItemId, id)
    {
      k := 0;
      while k < |nodes[i].relations[r].items|
        invariant k <= Find(nodes[i].relations[r].items, ItemId, id)
      {
        if nodes[i].relations[r].items[k].id == id {
          return;
        }
        k := k + 1;
      }
    }

    /** Writes into the half of the holder that the field's ownership names. */
    method WriteHolder(node: Node, itemKind: ItemKind, h: Holder, t: Target, change: Change) returns (r: Option<Holder>)
      ensures r == ChangedHolder(catalog, node, itemKind, h, t, change)
    {
      if change.File? {
        var files := BindFile(h.files, t, change.file);
        return Some(h.(files := files));
      }
      var ownership := OwnershipOf(catalog, node, itemKind, t);
      if ownership.None? {
        return None;
      }
      if ownership.value == Locale {
        var values := MutateFieldValues(h.localized, t.field, t.path, change.write, true);
        return if values.None? then None else Some(h.(localized := values.value));
      }
      var values := MutateFieldValues(h.shared, t.field, t.path, change.write, true);
      return if values.None? then None else Some(h.(shared := values.value));
    }

    /** Writes one value or file in place. Only the addressed block changes, and of it
        neither kind, parent, order nor any relation item; a value write leaves files
        alone too. */
    method ChangeField(t: Target, change: Change) returns (ok: bool)
      modifies this`nodes
      ensures ok <==> ChangedField(old(State()), t, change).Some?
      ensures ok ==> nodes == ChangedField(old(State()), t, change).value
      ensures !ok ==> nodes == old(nodes)
      ensures |nodes| == |old(nodes)| && forall j :: 0 <= j < |nodes| && nodes[j].id != t.block ==> nodes[j] == old(nodes)[j]
      ensures GoodNodes(old(nodes)) ==> GoodNodes(nodes) && GraphOf(nodes) == GraphOf(old(nodes))
      ensures change.Value? ==> Skeleton(nodes) == Skeleton(old(nodes))
    {
      ghost var before := State();
      var i := MutableNode(t.block);
      if i == |nodes| {
        return false;
      }
      if t.OnItem() {
        ok := ChangeItem(i, t, change);
      } else {
        ok := ChangeBlock(i, t, change);
      }
      if ok {
        FieldFrame(before, t, change);
      }
    }

    method ChangeBlock(i: nat, t: Target, change: Change) returns (ok: bool)
      requires i < |nodes| && !t.OnItem()
      modifies this`nodes
      ensures ok <==> ChangedNode(catalog, old(nodes)[i], t, change).Some?
      ensures nodes == if ok then old(nodes)[i := ChangedNode(catalog, old(nodes)[i], t, change).value] else old(nodes)
    {
      var h := WriteHolder(nodes[i], NONE, BlockHolder(nodes[i]), t, change);
      if h.None? {
        return false;
      }
      nodes := nodes[i := BlockHolding(nodes[i], h.value)];
      return true;
    }

    method ChangeItem(i: nat, t: Target, change: Change) returns (ok: bool)
      requires i < |nodes| && t.OnItem()
      modifies this`nodes
      ensures ok <==> ChangedNode(catalog, old(nodes)[i], t, change).Some?
      ensures nodes == if ok then old(nodes)[i := ChangedNode(catalog, old(nodes)[i], t, change).value] else old(nodes)
    {
      var n := nodes[i];
      var r := MutableRelation(i, t.relation);
      if r == |n.relations| {
        return false;
      }
      var k := MutableItem(i, r, t.item);
      if k == |n.relations[r].items| {
        return false;
      }
      var item := n.relations[r].items[k];
      var h := WriteHolder(n, item.kind, ItemHolder(item), t, change);
      if h.None? {
        return false;
      }
      SetItems(i, r, n.relations[r].items[k := ItemHolding(item, h.value)]);
      return true;
    }

    method MoveRelationItem(block: BlockID, relation: RelationID, item: ItemID,
                            targetBlock: BlockID, targetRelation: RelationID, after: ItemID) returns (ok: bool)
      requires GoodNodes(nodes)
      modifies this`nodes
      ensures ok <==> MovedItem(old(nodes), block, relation, item, targetBlock, targetRelation, after).Some?
      ensures ok ==> nodes == MovedItem(old(nodes), block, relation, item, targetBlock, targetRelation, after).value
    {
      ItemAtGraph(nodes, block, relation, item);
      if ItemAt(nodes, block, relation, item).Some? {
        DeleteItemGraph(nodes, block, relation, item);
      }
      var moved;
      ok, moved := RemoveItem(block, relation, item);
      if !ok || moved.None? {
        return false;
      }
      ok := PlaceItem(targetBlock, targetRelation, moved.value, after);
    }

    method ApplyBlocks(op: Operation) returns (ok: bool)
      requires GoodNodes(nodes) && NamesBlock(nodes, op)
      requires op.InsertBlock? || op.DeleteBlock? || op.MoveBlock? || op.ReplaceBlockKind?
      modifies this`nodes
      ensures ok <==> Applied(old(State()), op).Some?
      ensures ok ==> State() == Applied(old(State()), op).value
    {
      ok := true;
      match op {
        case InsertBlock(block, kind, parent, after) =>
          AppendedGood(nodes, Node(block, kind, parent, 0, [], [], [], []));
          nodes := nodes + [Node(block, kind, parent, 0, [], [], [], [])];
          PlaceBlockAfter(block, parent, after);
        case DeleteBlock(block) => DeleteBlockSubtree(block);
        case MoveBlock(block, parent, after) => PlaceBlockAfter(block, parent, after);
        case ReplaceBlockKind(block, kind) => ok := ReplaceBlockKind(block, kind);
      }
    }

    method ApplyItems(op: Operation) returns (ok: bool)
      requires GoodNodes(nodes)
      requires op.InsertRelationItem? || op.DeleteRelationItem? || op.MoveRelationItem?
      modifies this`nodes
      ensures ok <==> Applied(old(State()), op).Some?
      ensures ok ==> State() == Applied(old(State()), op).value
    {
      match op {
        case InsertRelationItem(block, relation, item, kind, after) =>
          ok := PlaceItem(block, relation, RelationItem(item, kind, 0, [], [], []), after);
        case DeleteRelationItem(block, relation, item) =>
          var moved;
          ok, moved := RemoveItem(block, relation, item);
        case MoveRelationItem(block, relation, item, targetBlock, targetRelation, after) =>
          ok := MoveRelationItem(block, relation, item, targetBlock, targetRelation, after);
      }
    }

    /** One operation: its effect when it applies, an error exactly when it does not. */
    method Apply(op: Operation) returns (ok: bool)
      requires GoodNodes(nodes) && NamesBlock(nodes, op)
      modifies this
      ensures ok <==> Applied(old(State()), op).Some?
      ensures ok ==> State() == Applied(old(State()), op).value
    {
      match op {
        case SetField(t, value) => ok := ChangeField(t, Value(Set(value)));
        case UnsetField(t) => ok := ChangeField(t, Value(Unset));
        case AttachFile(t, file) => ok := ChangeField(t, File(Some(file)));
        case DetachFile(t) => ok := ChangeField(t, File(None));
        case CreateTranslation =>
          localeExists, ok := true, true;
        case DeleteTranslation =>
          DeleteTranslation();
          ok := true;
        case InsertRelationItem(_, _, _, _, _) => ok := ApplyItems(op);
        case DeleteRelationItem(_, _, _) => ok := ApplyItems(op);
        case MoveRelationItem(_, _, _, _, _, _) => ok := ApplyItems(op);
        case _ => ok := ApplyBlocks(op);
      }
    }
  }

  /** The document an update starts from: its nodes in canonical order. */
  function Opened(document: Tree): Tree
    requires Named(document.nodes)
  {
    document.(nodes := Canonical(document.nodes))
  }

  /** Applies a validated batch to a copy of the document. */
  method DocumentAfterOperations(document: Tree, ops: seq<Operation>, ghost v: Validator) returns (result: Option<Tree>)
    requires Named(document.nodes) && GoodNodes(Canonical(document.nodes))
    requires Forest(v.graph) && Covers(GraphOf(Canonical(document.nodes)), v.graph) && AcceptedAll(v, ops)
    ensures result.Some? <==> AppliedAll(Opened(document), ops).Some?
    ensures result.Some? ==>
              Named(AppliedAll(Opened(document), ops).value.nodes) &&
              result.value == Opened(AppliedAll(Opened(document), ops).value)
  {
    var nodes := CanonicalNodes(document.nodes);
    var editor := new Editor(document.(nodes := nodes));
    ghost var validator := v;
    for k := 0 to |ops|
      invariant GoodNodes(editor.nodes) && editor.catalog == document.catalog
      invariant Forest(validator.graph) && Covers(GraphOf(editor.nodes), validator.graph) && AcceptedAll(validator, ops[k..])
      invariant AppliedAll(editor.State(), ops[k..]) == AppliedAll(Opened(document), ops)
    {
      assert ops[k..][0] == ops[k] && ops[k..][1..] == ops[k + 1..];
      AcceptedNamesBlock(editor.nodes, validator, ops[k]);
      StepCovered(editor.State(), validator, ops[k]);
      AcceptedKeepsForest(validator, ops[k]);
      var ok := editor.Apply(ops[k]);
      if !ok {
        return None;
      }
      validator := Accepted(validator, ops[k]);
    }
    nodes := CanonicalNodes(editor.nodes);
    return Some(Tree(editor.catalog, editor.localeExists, nodes));
  }

  lemma SiblingIds(nodes: seq<Node>, parent: BlockID, block: BlockID)
    requires Unique(nodes, NodeId) && forall i :: 0 <= i < |nodes| ==> nodes[i].id != NONE
    ensures NoDuplicates(Ids(Siblings(nodes, parent, block)))
    ensures block !in Ids(Siblings(nodes, parent, block)) && NONE !in Ids(Siblings(nodes, parent, block))
  {
    SiblingsAreUnique(nodes, parent, block);
    SiblingMembers(nodes, parent, block);
  }

  lemma CountStep(nodes: seq<Node>, k: nat)
    requires k < |nodes|
    ensures forall p :: CountParent(nodes[..k + 1], p) == CountParent(nodes[..k], p) + if nodes[k].parent == p then 1 else 0
  {
    forall p ensures CountParent(nodes[..k + 1], p) == CountParent(nodes[..k], p) + if nodes[k].parent == p then 1 else 0 {
      assert nodes[..k + 1] == nodes[..k] + [nodes[k]];
      CountParentConcat(nodes[..k], [nodes[k]], p);
      assert CountParent([nodes[k]][1..], p) == 0;
    }
  }
}
