/** What a plan of text edits does to the document: every localized value becomes the
    left-to-right fold of the edits over it, and nothing else changes. */
module TextEditPlan {
  import opened Lists
  import opened Values
  import opened Schemas
  import opened Documents
  import opened BlockGraph
  import opened Validation
  import opened Mutation
  import opened GraphSoundness
  import opened DocumentUpdate
  import opened ValueSoundness
  import opened LocaleAuthority
  import opened TextEdits

  // ----- the fold of the edits over one value -----

  /** The edit rewrites this value of this block. */
  ghost predicate Hits(e: TextEdit, block: BlockID, value: Value) {
    ValidEdit(e) && (e.block == NONE || e.block == block) && CountEdit(e, value) > 0
  }

  ghost function Edited(e: TextEdit, block: BlockID, value: Value): Value {
    if Hits(e, block, value) && Rewrite(e, value).Some? then Rewrite(e, value).value else value
  }

  /** The value after the edits, each seeing what the earlier ones left. */
  ghost function Fold(edits: seq<TextEdit>, block: BlockID, value: Value): Value
    decreases |edits|
  {
    if edits == [] then value else Fold(edits[1..], block, Edited(edits[0], block, value))
  }

  ghost predicate HitByAny(edits: seq<TextEdit>, block: BlockID, value: Value)
    decreases |edits|
  {
    edits != [] && (Hits(edits[0], block, value) || HitByAny(edits[1..], block, Edited(edits[0], block, value)))
  }

  lemma {:induction false} MissedIsUnchanged(edits: seq<TextEdit>, block: BlockID, value: Value)
    ensures !HitByAny(edits, block, value) ==> Fold(edits, block, value) == value
    decreases |edits|
  {
    if edits != [] && !Hits(edits[0], block, value) {
      MissedIsUnchanged(edits[1..], block, value);
    }
  }

  lemma {:induction false} RewriteEachPointwise(e: TextEdit, fields: seq<EditableField>)
    requires ValidEdit(e) && RewriteEach(e, fields).Some?
    ensures forall i :: 0 <= i < |fields| ==>
              RewriteEach(e, fields).value[i] ==
              fields[i].(value := Edited(e, fields[i].target.block, fields[i].value),
                         changed := fields[i].changed || Hits(e, fields[i].target.block, fields[i].value))
  {
    if fields != [] {
      RewriteEachPointwise(e, fields[..|fields| - 1]);
    }
  }

  function Finish(f: EditableField, value: Value, hit: bool): EditableField {
    f.(value := value, changed := f.changed || hit)
  }

  lemma {:induction false} EditAllFolds(edits: seq<TextEdit>, fields: seq<EditableField>)
    requires EditAll(edits, fields).Some?
    ensures |EditAll(edits, fields).value| == |fields|
    ensures forall i :: 0 <= i < |fields| ==>
              EditAll(edits, fields).value[i] ==
              Finish(fields[i], Fold(edits, fields[i].target.block, fields[i].value), HitByAny(edits, fields[i].target.block, fields[i].value))
    decreases |edits|
  {
    if edits != [] {
      RewriteEachPointwise(edits[0], fields);
      EditAllFolds(edits[1..], EditFields(edits[0], fields).value);
    }
  }

  // ----- the fields are the localized values -----

  lemma {:induction false} EntryFieldsRead(entries: seq<Entry>, block: BlockID, relation: RelationID, item: ItemID)
    ensures |EntryFields(entries, block, relation, item)| == |entries|
    ensures forall i :: 0 <= i < |entries| ==>
              EntryFields(entries, block, relation, item)[i] == Editable(block, relation, item, entries[i])
  {
    if entries != [] {
      var front := entries[..|entries| - 1];
      EntryFieldsRead(front, block, relation, item);
      assert forall i :: 0 <= i < |front| ==> front[i] == entries[i];
    }
  }

  /** The field is editable and holds what the document has at its target. */
  ghost predicate IsOf(f: EditableField, place: Place, h: Holder) {
    && PlaceOf(f.target) == place && f.target.path == [] && f.value == f.original && !f.changed
    && exists i :: 0 <= i < |h.localized| && h.localized[i] == Entry(f.target.field, f.value)
  }

  lemma {:induction false} EntryFieldsIff(h: Holder, place: Place, f: EditableField)
    ensures f in EntryFields(h.localized, place.block, place.relation, place.item) <==> IsOf(f, place, h)
  {
    var fields := EntryFields(h.localized, place.block, place.relation, place.item);
    EntryFieldsRead(h.localized, place.block, place.relation, place.item);
    if IsOf(f, place, h) {
      var i :| 0 <= i < |h.localized| && h.localized[i] == Entry(f.target.field, f.value);
      assert fields[i] == f;
    }
    if f in fields {
      var i :| 0 <= i < |fields| && fields[i] == f;
      assert h.localized[i] == Entry(f.target.field, f.value);
    }
  }

  ghost predicate OfItems(f: EditableField, block: BlockID, relation: RelationID, items: seq<RelationItem>) {
    exists k :: 0 <= k < |items| && IsOf(f, Place(block, relation, items[k].id), ItemHolder(items[k]))
  }

  lemma {:induction false} OfItemsSnoc(f: EditableField, block: BlockID, relation: RelationID, front: seq<RelationItem>, last: RelationItem)
    ensures OfItems(f, block, relation, front + [last]) <==>
              OfItems(f, block, relation, front) || IsOf(f, Place(block, relation, last.id), ItemHolder(last))
  {
    var items := front + [last];
    if OfItems(f, block, relation, front) {
      var k :| 0 <= k < |front| && IsOf(f, Place(block, relation, front[k].id), ItemHolder(front[k]));
      assert IsOf(f, Place(block, relation, items[k].id), ItemHolder(items[k]));
    }
    assert items[|front|] == last;
  }

  lemma {:induction false} ItemFieldsIff(items: seq<RelationItem>, block: BlockID, relation: RelationID, f: EditableField)
    ensures f in ItemFields(items, block, relation) <==> OfItems(f, block, relation, items)
  {
    if items != [] {
      var last, front := items[|items| - 1], items[..|items| - 1];
      ItemFieldsIff(front, block, relation, f);
      EntryFieldsIff(ItemHolder(last), Place(block, relation, last.id), f);
      assert items == front + [last];
      OfItemsSnoc(f, block, relation, front, last);
    }
  }

  ghost predicate OfRelations(f: EditableField, block: BlockID, relations: seq<Relation>) {
    exists r :: 0 <= r < |relations| && OfItems(f, block, relations[r].id, relations[r].items)
  }

  lemma {:induction false} OfRelationsSnoc(f: EditableField, block: BlockID, front: seq<Relation>, last: Relation)
    ensures OfRelations(f, block, front + [last]) <==> OfRelations(f, block, front) || OfItems(f, block, last.id, last.items)
  {
    var relations := front + [last];
    if OfRelations(f, block, front) {
      var r :| 0 <= r < |front| && OfItems(f, block, front[r].id, front[r].items);
      assert OfItems(f, block, relations[r].id, relations[r].items);
    }
    assert relations[|front|] == last;
  }

  lemma {:induction false} RelationsFieldsIff(relations: seq<Relation>, block: BlockID, f: EditableField)
    ensures f in RelationsFields(relations, block) <==> OfRelations(f, block, relations)
  {
    if relations != [] {
      var last, front := relations[|relations| - 1], relations[..|relations| - 1];
      RelationsFieldsIff(front, block, f);
      ItemFieldsIff(last.items, block, last.id, f);
      assert relations == front + [last];
      OfRelationsSnoc(f, block, front, last);
    }
  }

  ghost predicate OfNode(f: EditableField, n: Node) {
    IsOf(f, Place(n.id, NONE, NONE), BlockHolder(n)) || OfRelations(f, n.id, n.relations)
  }

  ghost predicate OfNodes(f: EditableField, nodes: seq<Node>) {
    exists i :: 0 <= i < |nodes| && OfNode(f, nodes[i])
  }

  lemma {:induction false} OfNodesSnoc(f: EditableField, front: seq<Node>, last: Node)
    ensures OfNodes(f, front + [last]) <==> OfNodes(f, front) || OfNode(f, last)
  {
    var nodes := front + [last];
    if OfNodes(f, front) {
      var i :| 0 <= i < |front| && OfNode(f, front[i]);
      assert OfNode(f, nodes[i]);
    }
    assert nodes[|front|] == last;
  }

  lemma {:induction false} NodeFieldsIff(n: Node, f: EditableField)
    ensures f in NodeFields(n) <==> OfNode(f, n)
  {
    EntryFieldsIff(BlockHolder(n), Place(n.id, NONE, NONE), f);
    RelationsFieldsIff(n.relations, n.id, f);
  }

  lemma {:induction false} EditableFieldsIff(nodes: seq<Node>, f: EditableField)
    ensures f in EditableFields(nodes) <==> OfNodes(f, nodes)
  {
    if nodes != [] {
      var last, front := nodes[|nodes| - 1], nodes[..|nodes| - 1];
      EditableFieldsIff(front, f);
      NodeFieldsIff(last, f);
      assert nodes == front + [last];
      OfNodesSnoc(f, front, last);
    }
  }

  // ----- in document order -----

  /** Editable fields come node after node. */
  lemma {:induction false} FieldsOfNodes(a: seq<Node>, b: seq<Node>)
    ensures EditableFields(a + b) == EditableFields(a) + EditableFields(b)
    decreases |b|
  {
    if b == [] {
      assert a + b == a;
    } else {
      var front := b[..|b| - 1];
      assert (a + b)[..|a + b| - 1] == a + front;
      FieldsOfNodes(a, front);
      Associative(EditableFields(a), EditableFields(front), NodeFields(b[|b| - 1]));
    }
  }

  lemma {:induction false} FieldsOfRelations(a: seq<Relation>, b: seq<Relation>, block: BlockID)
    ensures RelationsFields(a + b, block) == RelationsFields(a, block) + RelationsFields(b, block)
    decreases |b|
  {
    if b == [] {
      assert a + b == a;
    } else {
      var front, last := b[..|b| - 1], b[|b| - 1];
      assert (a + b)[..|a + b| - 1] == a + front;
      FieldsOfRelations(a, front, block);
      Associative(RelationsFields(a, block), RelationsFields(front, block), ItemFields(last.items, block, last.id));
    }
  }

  lemma {:induction false} FieldsOfItems(a: seq<RelationItem>, b: seq<RelationItem>, block: BlockID, relation: RelationID)
    ensures ItemFields(a + b, block, relation) == ItemFields(a, block, relation) + ItemFields(b, block, relation)
    decreases |b|
  {
    if b == [] {
      assert a + b == a;
    } else {
      var front, last := b[..|b| - 1], b[|b| - 1];
      assert (a + b)[..|a + b| - 1] == a + front;
      FieldsOfItems(a, front, block, relation);
      Associative(ItemFields(a, block, relation), ItemFields(front, block, relation), EntryFields(last.localized, block, relation, last.id));
    }
  }

  /** The fields come in document order: those of one block after those of the blocks
      before it; within a block its own, then those of its items, relation by relation
      and item by item; within an owner in the order they are stored. */
  lemma {:induction false} FieldsInOrder(a: seq<Node>, n: Node, b: seq<Node>, left: seq<Relation>, r: Relation, right: seq<Relation>,
                                         first: seq<RelationItem>, item: RelationItem, last: seq<RelationItem>)
    ensures EditableFields(a + [n] + b) == EditableFields(a) + EditableFields([n]) + EditableFields(b)
    ensures EditableFields([n]) == EntryFields(n.localized, n.id, NONE, NONE) + RelationsFields(n.relations, n.id)
    ensures RelationsFields(left + [r] + right, n.id)
         == RelationsFields(left, n.id) + ItemFields(r.items, n.id, r.id) + RelationsFields(right, n.id)
    ensures ItemFields(first + [item] + last, n.id, r.id)
         == ItemFields(first, n.id, r.id) + EntryFields(item.localized, n.id, r.id, item.id) + ItemFields(last, n.id, r.id)
    ensures var own := EntryFields(item.localized, n.id, r.id, item.id);
            |own| == |item.localized| && forall i :: 0 <= i < |own| ==>
              own[i] == EditableField(Target(n.id, r.id, item.id, item.localized[i].id, []), item.localized[i].value, item.localized[i].value, false)
  {
    FieldsOfNodes(a + [n], b);
    FieldsOfNodes(a, [n]);
    FieldsOfRelations(left + [r], right, n.id);
    FieldsOfRelations(left, [r], n.id);
    FieldsOfItems(first + [item], last, n.id, r.id);
    FieldsOfItems(first, [item], n.id, r.id);
    OneField(n, r, item);
    EntryFieldsRead(item.localized, n.id, r.id, item.id);
  }

  lemma OneField(n: Node, r: Relation, item: RelationItem)
    ensures EditableFields([n]) == NodeFields(n)
    ensures RelationsFields([r], n.id) == ItemFields(r.items, n.id, r.id)
    ensures ItemFields([item], n.id, r.id) == EntryFields(item.localized, n.id, r.id, item.id)
  {
    assert [n][..0] == [] && [r][..0] == [] && [item][..0] == [];
  }

  // ----- one editable field per localized value -----

  ghost predicate EntriesUnique(n: Node) {
    && Unique(n.localized, EntryId)
    && forall r, k :: 0 <= r < |n.relations| && 0 <= k < |n.relations[r].items| ==> Unique(n.relations[r].items[k].localized, EntryId)
  }

  /** Relations and items are named, and localized fields are listed once. */
  ghost predicate Readable(nodes: seq<Node>) {
    LoadedNodes(nodes) && forall i :: 0 <= i < |nodes| ==> EntriesUnique(nodes[i]) && RelationsNamed(nodes[i])
  }

  ghost predicate RelationsNamed(n: Node) {
    forall r :: 0 <= r < |n.relations| ==> n.relations[r].id != NONE
  }

  lemma {:induction false} EntryRead(h: Holder, field: FieldID, i: nat)
    requires Unique(h.localized, EntryId) && i < |h.localized| && h.localized[i].id == field
    ensures ReadHolder(h, true, field, []) == Some(h.localized[i].value)
  {
    assert Find(h.localized, EntryId, field) == i;
  }

  lemma {:induction false} FindAt<T>(s: seq<T>, id: T -> nat, i: nat)
    requires Unique(s, id) && i < |s|
    ensures Find(s, id, id(s[i])) == i
  {
  }

  /** A field of a node is read back through its target. */
  lemma {:induction false} NodeFieldRead(n: Node, f: EditableField)
    requires LoadedNode(n) && EntriesUnique(n) && RelationsNamed(n) && OfNode(f, n)
    ensures f.target.block == n.id && f.target.path == [] && !f.changed && f.value == f.original
    ensures HolderIn(n, PlaceOf(f.target)).Some?
    ensures ReadHolder(HolderIn(n, PlaceOf(f.target)).value, true, f.target.field, []) == Some(f.value)
  {
    if IsOf(f, Place(n.id, NONE, NONE), BlockHolder(n)) {
      var i :| 0 <= i < |n.localized| && n.localized[i] == Entry(f.target.field, f.value);
      EntryRead(BlockHolder(n), f.target.field, i);
    } else {
      var r :| 0 <= r < |n.relations| && OfItems(f, n.id, n.relations[r].id, n.relations[r].items);
      var items := n.relations[r].items;
      var k :| 0 <= k < |items| && IsOf(f, Place(n.id, n.relations[r].id, items[k].id), ItemHolder(items[k]));
      assert LoadedRelation(n.relations[r]);
      FindAt(n.relations, RelationId, r);
      FindAt(items, ItemId, k);
      var i :| 0 <= i < |items[k].localized| && items[k].localized[i] == Entry(f.target.field, f.value);
      EntryRead(ItemHolder(items[k]), f.target.field, i);
    }
  }

  lemma {:induction false} FieldRead(nodes: seq<Node>, f: EditableField)
    requires Readable(nodes) && f in EditableFields(nodes)
    ensures f.target.path == [] && !f.changed && f.value == f.original
    ensures HolderAt(nodes, PlaceOf(f.target)).Some?
    ensures ReadAt(nodes, PlaceOf(f.target), true, f.target.field, []) == Some(f.value)
  {
    EditableFieldsIff(nodes, f);
    var i :| 0 <= i < |nodes| && OfNode(f, nodes[i]);
    assert LoadedNode(nodes[i]);
    NodeFieldRead(nodes[i], f);
    FindAt(nodes, NodeId, i);
  }

  /** Every localized value that can be read is one of the editable fields. */
  lemma {:induction false} ReadField(nodes: seq<Node>, place: Place, field: FieldID)
    requires ReadAt(nodes, place, true, field, []).Some?
    ensures var value := ReadAt(nodes, place, true, field, []).value;
            EditableField(Target(place.block, place.relation, place.item, field, []), value, value, false) in EditableFields(nodes)
  {
    var value := ReadAt(nodes, place, true, field, []).value;
    var f := EditableField(Target(place.block, place.relation, place.item, field, []), value, value, false);
    var n := nodes[Find(nodes, NodeId, place.block)];
    var h := HolderIn(n, place).value;
    var e := Find(h.localized, EntryId, field);
    assert h.localized[e] == Entry(field, value);
    assert IsOf(f, place, h);
    if place.relation != NONE || place.item != NONE {
      var r := Find(n.relations, RelationId, place.relation);
      var k := Find(n.relations[r].items, ItemId, place.item);
      assert IsOf(f, Place(n.id, n.relations[r].id, n.relations[r].items[k].id), ItemHolder(n.relations[r].items[k]));
      assert OfItems(f, n.id, n.relations[r].id, n.relations[r].items);
    }
    assert OfNode(f, n);
    EditableFieldsIff(nodes, f);
  }

  // ----- no target twice -----

  ghost predicate Distinct(fields: seq<EditableField>) {
    forall i, j :: 0 <= i < j < |fields| ==> fields[i].target != fields[j].target
  }

  lemma {:induction false} DistinctConcat(a: seq<EditableField>, b: seq<EditableField>)
    requires Distinct(a) && Distinct(b) && forall f, g :: f in a && g in b ==> f.target != g.target
    ensures Distinct(a + b)
  {
    forall i, j | 0 <= i < j < |a + b| ensures (a + b)[i].target != (a + b)[j].target {
      if i < |a| && j >= |a| {
        assert a[i] in a && b[j - |a|] in b;
      }
    }
  }

  lemma {:induction false} EntryFieldsDistinct(entries: seq<Entry>, block: BlockID, relation: RelationID, item: ItemID)
    requires Unique(entries, EntryId)
    ensures Distinct(EntryFields(entries, block, relation, item))
  {
    EntryFieldsRead(entries, block, relation, item);
  }

  lemma {:induction false} ItemFieldsDistinct(items: seq<RelationItem>, block: BlockID, relation: RelationID)
    requires Unique(items, ItemId) && forall k :: 0 <= k < |items| ==> Unique(items[k].localized, EntryId)
    ensures Distinct(ItemFields(items, block, relation))
  {
    if items != [] {
      var last, front := items[|items| - 1], items[..|items| - 1];
      var a, b := ItemFields(front, block, relation), EntryFields(last.localized, block, relation, last.id);
      ItemFieldsDistinct(front, block, relation);
      EntryFieldsDistinct(last.localized, block, relation, last.id);
      forall f, g | f in a && g in b ensures f.target != g.target {
        ItemFieldsIff(front, block, relation, f);
        EntryFieldsIff(ItemHolder(last), Place(block, relation, last.id), g);
      }
      DistinctConcat(a, b);
    }
  }

  lemma {:induction false} RelationsFieldsDistinct(n: Node, relations: seq<Relation>)
    requires LoadedNode(n) && EntriesUnique(n) && relations <= n.relations
    ensures Distinct(RelationsFields(relations, n.id))
    decreases |relations|
  {
    if relations != [] {
      var last, front := relations[|relations| - 1], relations[..|relations| - 1];
      var a, b := RelationsFields(front, n.id), ItemFields(last.items, n.id, last.id);
      RelationsFieldsDistinct(n, front);
      assert last == n.relations[|front|] && LoadedRelation(last);
      ItemFieldsDistinct(last.items, n.id, last.id);
      forall f, g | f in a && g in b ensures f.target != g.target {
        RelationsFieldsIff(front, n.id, f);
        ItemFieldsIff(last.items, n.id, last.id, g);
      }
      DistinctConcat(a, b);
    }
  }

  lemma {:induction false} NodeFieldsDistinct(n: Node)
    requires LoadedNode(n) && EntriesUnique(n) && RelationsNamed(n)
    ensures Distinct(NodeFields(n))
  {
    var a, b := EntryFields(n.localized, n.id, NONE, NONE), RelationsFields(n.relations, n.id);
    EntryFieldsDistinct(n.localized, n.id, NONE, NONE);
    RelationsFieldsDistinct(n, n.relations);
    forall f, g | f in a && g in b ensures f.target != g.target {
      EntryFieldsIff(BlockHolder(n), Place(n.id, NONE, NONE), f);
      RelationsFieldsIff(n.relations, n.id, g);
    }
    DistinctConcat(a, b);
  }

  lemma {:induction false} EditableFieldsDistinct(nodes: seq<Node>)
    requires Readable(nodes)
    ensures Distinct(EditableFields(nodes))
  {
    if nodes != [] {
      var last, front := nodes[|nodes| - 1], nodes[..|nodes| - 1];
      var a, b := EditableFields(front), NodeFields(last);
      EditableFieldsDistinct(front);
      NodeFieldsDistinct(last);
      forall f, g | f in a && g in b ensures f.target != g.target {
        EditableFieldsIff(front, f);
        NodeFieldsIff(last, g);
      }
      DistinctConcat(a, b);
    }
  }

  lemma {:induction false} WritesMembers(fields: seq<EditableField>, op: Operation)
    ensures op in Writes(fields) <==> exists i :: 0 <= i < |fields| && fields[i].changed && op == SetField(fields[i].target, fields[i].value)
  {
    if fields != [] {
      var front := fields[..|fields| - 1];
      WritesMembers(front, op);
      assert forall i :: 0 <= i < |front| ==> front[i] == fields[i];
    }
  }

  lemma {:induction false} WritesDistinct(fields: seq<EditableField>)
    requires Distinct(fields)
    ensures forall i :: 0 <= i < |Writes(fields)| ==> Writes(fields)[i].SetField?
    ensures forall i, j :: 0 <= i < j < |Writes(fields)| ==> Writes(fields)[i].target != Writes(fields)[j].target
  {
    if fields != [] {
      var front, last := fields[..|fields| - 1], fields[|fields| - 1];
      WritesDistinct(front);
      forall i | 0 <= i < |Writes(front)| ensures Writes(front)[i].target != last.target {
        WritesMembers(front, Writes(front)[i]);
      }
    }
  }

  /** The operation sets a field that some edit matched to the fold of the edits. */
  ghost predicate WritesFold(nodes: seq<Node>, edits: seq<TextEdit>, op: Operation) {
    exists f :: f in EditableFields(nodes) && HitByAny(edits, f.target.block, f.value)
      && op == SetField(f.target, Fold(edits, f.target.block, f.value))
  }

  /** A plan writes each field that some edit matched, once, and no other field. */
  lemma {:induction false} PlanWritesOnce(nodes: seq<Node>, edits: seq<TextEdit>)
    requires Readable(nodes) && Plan(nodes, edits).Some?
    ensures var ops := Plan(nodes, edits).value;
            && (forall i :: 0 <= i < |ops| ==> ops[i].SetField?)
            && (forall i, j :: 0 <= i < j < |ops| ==> ops[i].target != ops[j].target)
            && (forall op :: op in ops <==> WritesFold(nodes, edits, op))
  {
    var fields := EditableFields(nodes);
    var done := EditAll(edits, fields).value;
    EditAllFolds(edits, fields);
    EditableFieldsDistinct(nodes);
    WritesDistinct(done);
    forall op ensures op in Writes(done) <==> WritesFold(nodes, edits, op) {
      WritesMembers(done, op);
      if op in Writes(done) {
        var i :| 0 <= i < |done| && done[i].changed && op == SetField(done[i].target, done[i].value);
        assert fields[i] in fields;
        FieldRead(nodes, fields[i]);
      }
      if WritesFold(nodes, edits, op) {
        var f :| f in fields && HitByAny(edits, f.target.block, f.value) && op == SetField(f.target, Fold(edits, f.target.block, f.value));
        var i :| 0 <= i < |fields| && fields[i] == f;
        assert done[i].changed;
      }
    }
  }

  // ----- applying the writes -----

  lemma {:induction false} BareOwnership(c: Catalog, n: Node, t: Target)
    ensures OwnershipIn(c, Bare(n), t) == OwnershipIn(c, n, t)
  {
    var m := Bare(n);
    FindSameIds(m.relations, n.relations, RelationId, t.relation);
    var r := Find(n.relations, RelationId, t.relation);
    if r < |n.relations| {
      FindSameIds(m.relations[r].items, n.relations[r].items, ItemId, t.item);
    }
  }

  /** Ownership depends on the structure alone. */
  lemma {:induction false} SkeletonOwnership(c: Catalog, a: seq<Node>, b: seq<Node>, t: Target)
    requires Skeleton(a) == Skeleton(b)
    ensures OwnershipAt(c, a, t) == OwnershipAt(c, b, t)
  {
    assert |Skeleton(a)| == |a| && |Skeleton(b)| == |b|;
    forall i | 0 <= i < |a| ensures Bare(a[i]) == Bare(b[i]) && a[i].id == b[i].id {
      assert Skeleton(a)[i] == Bare(a[i]) && Skeleton(b)[i] == Bare(b[i]);
    }
    FindSameIds(a, b, NodeId, t.block);
    var i := Find(a, NodeId, t.block);
    if i < |a| {
      BareOwnership(c, a[i], t);
      BareOwnership(c, b[i], t);
    }
  }

  lemma {:induction false} HolderSet(c: Catalog, n: Node, itemKind: ItemKind, h: Holder, t: Target, value: Value)
    requires OwnershipOf(c, n, itemKind, t) == Some(Locale) && t.path == []
    ensures ChangedHolder(c, n, itemKind, h, t, Value(Set(value))).Some?
    ensures var after := ChangedHolder(c, n, itemKind, h, t, Value(Set(value))).value;
            after.shared == h.shared && ReadHolder(after, true, t.field, []) == Some(value)
  {
    SetThenRead(h.localized, t.field, [], value, true);
  }

  /** Setting a whole localized value: it reads back, and no shared value moves. */
  lemma {:induction false} NodeSet(c: Catalog, n: Node, t: Target, value: Value)
    requires OwnershipIn(c, n, t) == Some(Locale) && t.path == [] && t.block == n.id
    ensures ChangedNode(c, n, t, Value(Set(value))).Some?
    ensures HolderIn(ChangedNode(c, n, t, Value(Set(value))).value, PlaceOf(t)).Some? && HolderIn(n, PlaceOf(t)).Some?
    ensures var before, after := HolderIn(n, PlaceOf(t)).value, HolderIn(ChangedNode(c, n, t, Value(Set(value))).value, PlaceOf(t)).value;
            after.shared == before.shared && ReadHolder(after, true, t.field, []) == Some(value)
  {
    if t.OnItem() {
      var r := Find(n.relations, RelationId, t.relation);
      var k := Find(n.relations[r].items, ItemId, t.item);
      var item := n.relations[r].items[k];
      HolderSet(c, n, item.kind, ItemHolder(item), t, value);
      var h := ChangedHolder(c, n, item.kind, ItemHolder(item), t, Value(Set(value))).value;
      assert ItemHolder(ItemHolding(item, h)) == h;
      var m := ChangedNode(c, n, t, Value(Set(value))).value;
      ItemRead(n, m, r, k, t.relation, t.item, PlaceOf(t));
    } else {
      HolderSet(c, n, NONE, BlockHolder(n), t, value);
    }
  }

  /** One write of a plan. */
  lemma {:induction false} WriteApplied(tree: Tree, t: Target, value: Value, place: Place, localized: bool, field: FieldID, path: seq<Segment>)
    requires t.path == [] && OwnershipAt(tree.catalog, tree.nodes, t) == Some(Locale)
    ensures Applied(tree, SetField(t, value)).Some?
    ensures var after := Applied(tree, SetField(t, value)).value;
            after.catalog == tree.catalog && Skeleton(after.nodes) == Skeleton(tree.nodes) &&
            ReadAt(after.nodes, PlaceOf(t), true, t.field, []) == Some(value) &&
            (PlaceOf(t) != place || t.field != field || !localized ==>
               ReadAt(after.nodes, place, localized, field, path) == ReadAt(tree.nodes, place, localized, field, path))
  {
    SetReads(tree, t, value, field, path);
    WriteReads(tree, t, Set(value), place, localized, field, path);
  }

  lemma {:induction false} SetReads(tree: Tree, t: Target, value: Value, field: FieldID, path: seq<Segment>)
    requires t.path == [] && OwnershipAt(tree.catalog, tree.nodes, t) == Some(Locale)
    ensures ChangedField(tree, t, Value(Set(value))).Some?
    ensures var after := ChangedField(tree, t, Value(Set(value))).value;
            ReadAt(after, PlaceOf(t), true, t.field, []) == Some(value) &&
            ReadAt(after, PlaceOf(t), false, field, path) == ReadAt(tree.nodes, PlaceOf(t), false, field, path)
  {
    var nodes := tree.nodes;
    var i := Find(nodes, NodeId, t.block);
    NodeSet(tree.catalog, nodes[i], t, value);
    var m := ChangedNode(tree.catalog, nodes[i], t, Value(Set(value))).value;
    ChangedKeepsId(tree.catalog, nodes[i], t, Value(Set(value)));
    FindSameIds(nodes[i := m], nodes, NodeId, t.block);
  }

  lemma {:induction false} AppliedAllConcat(tree: Tree, a: seq<Operation>, b: seq<Operation>)
    requires AppliedAll(tree, a).Some?
    ensures AppliedAll(tree, a + b) == AppliedAll(AppliedAll(tree, a).value, b)
    decreases |a|
  {
    if a == [] {
      assert a + b == b;
    } else {
      assert (a + b)[1..] == a[1..] + b;
      AppliedAllConcat(Applied(tree, a[0]).value, a[1..], b);
    }
  }

  lemma AppliedOne(tree: Tree, op: Operation)
    ensures AppliedAll(tree, [op]) == Applied(tree, op)
  {
    assert [op][1..] == [];
  }

  ghost predicate Settled(c: Catalog, nodes: seq<Node>, fields: seq<EditableField>) {
    && (forall i :: 0 <= i < |fields| ==> fields[i].target.path == [] && OwnershipAt(c, nodes, fields[i].target) == Some(Locale))
    && (forall i, j {:trigger fields[i].target, fields[j].target} ::
          0 <= i < |fields| && 0 <= j < |fields| && fields[i].target == fields[j].target ==> fields[i] == fields[j])
  }

  ghost predicate WritesTo(fields: seq<EditableField>, place: Place, field: FieldID) {
    exists i :: 0 <= i < |fields| && fields[i].changed && PlaceOf(fields[i].target) == place && fields[i].target.field == field
  }

  /** The value the writes leave at a place they reach. */
  ghost function WrittenValue(fields: seq<EditableField>, place: Place, field: FieldID): Value
    requires WritesTo(fields, place, field)
  {
    var i :| 0 <= i < |fields| && fields[i].changed && PlaceOf(fields[i].target) == place && fields[i].target.field == field;
    fields[i].value
  }

  /** What applying the writes leaves: the structure, what they do not reach, and
      what they write. */
  ghost predicate WritesLeave(
    tree: Tree, after: Tree, fields: seq<EditableField>, place: Place, localized: bool, field: FieldID, path: seq<Segment>)
  {
    && after.catalog == tree.catalog && Skeleton(after.nodes) == Skeleton(tree.nodes)
    && (!localized || !WritesTo(fields, place, field) ==>
          ReadAt(after.nodes, place, localized, field, path) == ReadAt(tree.nodes, place, localized, field, path))
    && (WritesTo(fields, place, field) ==>
          ReadAt(after.nodes, place, true, field, []) == Some(WrittenValue(fields, place, field)))
  }

  ghost predicate WritesDone(tree: Tree, fields: seq<EditableField>, place: Place, localized: bool, field: FieldID, path: seq<Segment>) {
    && AppliedAll(tree, Writes(fields)).Some?
    && WritesLeave(tree, AppliedAll(tree, Writes(fields)).value, fields, place, localized, field, path)
  }

  lemma {:induction false} WritesApply(tree: Tree, fields: seq<EditableField>, place: Place, localized: bool, field: FieldID, path: seq<Segment>)
    requires Settled(tree.catalog, tree.nodes, fields)
    ensures WritesDone(tree, fields, place, localized, field, path)
  {
    if fields == [] {
      NothingWritten(tree, place, localized, field, path);
    } else {
      var front, last := fields[..|fields| - 1], fields[|fields| - 1];
      SettledFront(tree.catalog, tree.nodes, fields);
      WritesApply(tree, front, place, localized, field, path);
      assert fields == front + [last];
      LastWrite(tree, fields, front, last, place, localized, field, path);
    }
  }

  lemma {:induction false} NothingWritten(tree: Tree, place: Place, localized: bool, field: FieldID, path: seq<Segment>)
    ensures WritesDone(tree, [], place, localized, field, path)
  {
  }

  lemma {:induction false} SettledFront(c: Catalog, nodes: seq<Node>, fields: seq<EditableField>)
    requires Settled(c, nodes, fields) && fields != []
    ensures Settled(c, nodes, fields[..|fields| - 1])
  {
  }

  lemma {:induction false} FrontWrites(c: Catalog, nodes: seq<Node>, fields: seq<EditableField>, front: seq<EditableField>, last: EditableField, place: Place, field: FieldID)
    requires Settled(c, nodes, fields) && fields == front + [last]
    ensures WritesTo(fields, place, field) <==>
              WritesTo(front, place, field) || (last.changed && PlaceOf(last.target) == place && last.target.field == field)
    ensures last.changed && PlaceOf(last.target) == place && last.target.field == field ==> WrittenValue(fields, place, field) == last.value
    ensures WritesTo(front, place, field) ==> WrittenValue(fields, place, field) == WrittenValue(front, place, field)
  {
    assert fields[|front|] == last;
    if WritesTo(front, place, field) {
      var i :| 0 <= i < |front| && front[i].changed && PlaceOf(front[i].target) == place && front[i].target.field == field
        && front[i].value == WrittenValue(front, place, field);
      assert fields[i] == front[i];
      OneTarget(c, nodes, fields, i, place, field);
    }
    if last.changed && PlaceOf(last.target) == place && last.target.field == field {
      OneTarget(c, nodes, fields, |front|, place, field);
    }
  }

  lemma {:induction false} OneTarget(c: Catalog, nodes: seq<Node>, fields: seq<EditableField>, i: nat, place: Place, field: FieldID)
    requires Settled(c, nodes, fields) && i < |fields| && fields[i].changed
    requires PlaceOf(fields[i].target) == place && fields[i].target.field == field
    ensures WritesTo(fields, place, field) && WrittenValue(fields, place, field) == fields[i].value
  {
    var j :| 0 <= j < |fields| && fields[j].changed && PlaceOf(fields[j].target) == place && fields[j].target.field == field
      && fields[j].value == WrittenValue(fields, place, field);
    assert fields[i].target.path == [] && fields[j].target.path == [];
    SameTarget(fields[i].target, fields[j].target);
  }

  lemma SameTarget(a: Target, b: Target)
    requires PlaceOf(a) == PlaceOf(b) && a.field == b.field && a.path == b.path
    ensures a == b
  {
    var Target(block, relation, item, field, path) := a;
    assert a == Target(block, relation, item, field, path) == b;
  }

  lemma {:induction false} LastWrite(
    tree: Tree, fields: seq<EditableField>, front: seq<EditableField>, last: EditableField,
    place: Place, localized: bool, field: FieldID, path: seq<Segment>)
    requires Settled(tree.catalog, tree.nodes, fields) && fields == front + [last]
    requires WritesDone(tree, front, place, localized, field, path)
    ensures WritesDone(tree, fields, place, localized, field, path)
  {
    assert fields[..|fields| - 1] == front && fields[|fields| - 1] == last;
    FrontWrites(tree.catalog, tree.nodes, fields, front, last, place, field);
    var mid := AppliedAll(tree, Writes(front)).value;
    AppliedAllConcat(tree, Writes(front), WriteOf(last));
    if last.changed {
      assert OwnershipAt(tree.catalog, tree.nodes, last.target) == Some(Locale) by {
        assert fields[|front|] == last;
      }
      SkeletonOwnership(tree.catalog, mid.nodes, tree.nodes, last.target);
      WriteApplied(mid, last.target, last.value, place, localized, field, path);
      WriteApplied(mid, last.target, last.value, place, true, field, []);
      AppliedOne(mid, SetField(last.target, last.value));
    }
  }

  // ----- the theorem -----

  lemma {:induction false} LocalizedOwnership(tree: Tree, f: EditableField)
    requires Readable(tree.nodes) && NodesFit(tree.nodes, tree.catalog) && f in EditableFields(tree.nodes)
    ensures OwnershipAt(tree.catalog, tree.nodes, f.target) == Some(Locale)
  {
    EditableFieldsIff(tree.nodes, f);
    var i :| 0 <= i < |tree.nodes| && OfNode(f, tree.nodes[i]);
    assert LoadedNode(tree.nodes[i]);
    FindAt(tree.nodes, NodeId, i);
    NodeFieldRead(tree.nodes[i], f);
    NodeOwnership(tree.catalog, tree.nodes[i], f);
  }

  lemma {:induction false} NodeOwnership(c: Catalog, n: Node, f: EditableField)
    requires LoadedNode(n) && NodeFits(n, c) && OfNode(f, n)
    ensures OwnershipIn(c, n, f.target) == Some(Locale)
  {
    if IsOf(f, Place(n.id, NONE, NONE), BlockHolder(n)) {
      var i :| 0 <= i < |n.localized| && n.localized[i] == Entry(f.target.field, f.value);
      assert RuleOf(c, n.kind, NONE, NONE, n.localized[i].id).Some?;
    } else {
      var r :| 0 <= r < |n.relations| && OfItems(f, n.id, n.relations[r].id, n.relations[r].items);
      var items := n.relations[r].items;
      var k :| 0 <= k < |items| && IsOf(f, Place(n.id, n.relations[r].id, items[k].id), ItemHolder(items[k]));
      assert LoadedRelation(n.relations[r]) && RelationFits(items, c, n.kind, n.relations[r].id);
      FindAt(n.relations, RelationId, r);
      FindAt(items, ItemId, k);
      ItemOwnership(c, n, n.relations[r].id, items[k], f);
    }
  }

  lemma {:induction false} ItemOwnership(c: Catalog, n: Node, relation: RelationID, item: RelationItem, f: EditableField)
    requires HolderFits(ItemHolder(item), c, n.kind, relation, item.kind) && relation != NONE
    requires IsOf(f, Place(n.id, relation, item.id), ItemHolder(item))
    ensures OwnershipOf(c, n, item.kind, f.target) == Some(Locale)
  {
    var i :| 0 <= i < |item.localized| && item.localized[i] == Entry(f.target.field, f.value);
    assert RuleOf(c, n.kind, relation, item.kind, ItemHolder(item).localized[i].id).Some?;
  }

  /** The fields a successful plan ends with. */
  lemma {:induction false} PlannedSettled(tree: Tree, edits: seq<TextEdit>)
    requires Readable(tree.nodes) && NodesFit(tree.nodes, tree.catalog) && EditAll(edits, EditableFields(tree.nodes)).Some?
    ensures Settled(tree.catalog, tree.nodes, EditAll(edits, EditableFields(tree.nodes)).value)
  {
    var fields := EditableFields(tree.nodes);
    var done := EditAll(edits, fields).value;
    EditAllFolds(edits, fields);
    forall i | 0 <= i < |done|
      ensures done[i].target.path == [] && OwnershipAt(tree.catalog, tree.nodes, done[i].target) == Some(Locale)
    {
      assert fields[i] in fields;
      FieldRead(tree.nodes, fields[i]);
      LocalizedOwnership(tree, fields[i]);
    }
    forall i, j | 0 <= i < |done| && 0 <= j < |done| && done[i].target == done[j].target ensures done[i] == done[j] {
      assert fields[i] in fields && fields[j] in fields;
      FieldRead(tree.nodes, fields[i]);
      FieldRead(tree.nodes, fields[j]);
    }
  }

  /** Applying a plan gives every localized value the fold of all edits over it, and
      leaves the structure and every shared value as they were. */
  lemma {:induction false} PlanGivesFold(tree: Tree, edits: seq<TextEdit>, place: Place, field: FieldID, path: seq<Segment>)
    requires Readable(tree.nodes) && NodesFit(tree.nodes, tree.catalog) && Plan(tree.nodes, edits).Some?
    ensures AppliedAll(tree, Plan(tree.nodes, edits).value).Some?
    ensures var before, after := tree.nodes, AppliedAll(tree, Plan(tree.nodes, edits).value).value.nodes;
            && Skeleton(after) == Skeleton(before)
            && ReadAt(after, place, false, field, path) == ReadAt(before, place, false, field, path)
            && ReadAt(after, place, true, field, []) ==
               match ReadAt(before, place, true, field, [])
               case None => None
               case Some(value) => Some(Fold(edits, place.block, value))
  {
    var fields := EditableFields(tree.nodes);
    var done := EditAll(edits, fields).value;
    EditAllFolds(edits, fields);
    PlannedSettled(tree, edits);
    WritesApply(tree, done, place, false, field, path);
    WritesApply(tree, done, place, true, field, []);
    if WritesTo(done, place, field) {
      WrittenIsFold(tree, edits, done, place, field);
    } else if ReadAt(tree.nodes, place, true, field, []).Some? {
      UnwrittenIsFold(tree, edits, done, place, field);
    }
  }

  lemma {:induction false} WrittenIsFold(tree: Tree, edits: seq<TextEdit>, done: seq<EditableField>, place: Place, field: FieldID)
    requires Readable(tree.nodes) && EditAll(edits, EditableFields(tree.nodes)) == Some(done) && WritesTo(done, place, field)
    requires Settled(tree.catalog, tree.nodes, done)
    ensures ReadAt(tree.nodes, place, true, field, []).Some?
    ensures WrittenValue(done, place, field) == Fold(edits, place.block, ReadAt(tree.nodes, place, true, field, []).value)
  {
    var fields := EditableFields(tree.nodes);
    EditAllFolds(edits, fields);
    var i :| 0 <= i < |done| && done[i].changed && PlaceOf(done[i].target) == place && done[i].target.field == field;
    OneTarget(tree.catalog, tree.nodes, done, i, place, field);
    assert fields[i] in fields;
    FieldRead(tree.nodes, fields[i]);
  }

  lemma {:induction false} UnwrittenIsFold(tree: Tree, edits: seq<TextEdit>, done: seq<EditableField>, place: Place, field: FieldID)
    requires Readable(tree.nodes) && EditAll(edits, EditableFields(tree.nodes)) == Some(done) && !WritesTo(done, place, field)
    requires ReadAt(tree.nodes, place, true, field, []).Some?
    ensures ReadAt(tree.nodes, place, true, field, []) == Some(Fold(edits, place.block, ReadAt(tree.nodes, place, true, field, []).value))
  {
    var fields := EditableFields(tree.nodes);
    var value := ReadAt(tree.nodes, place, true, field, []).value;
    EditAllFolds(edits, fields);
    ReadField(tree.nodes, place, field);
    var f := EditableField(Target(place.block, place.relation, place.item, field, []), value, value, false);
    var i :| 0 <= i < |fields| && fields[i] == f;
    assert done[i] == Finish(f, Fold(edits, place.block, value), HitByAny(edits, place.block, value));
    MissedIsUnchanged(edits, place.block, value);
  }
}
