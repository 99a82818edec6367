/** What can be read of a document after each operation: values in both slots and
    bound files, at every place, field and path. */
module DocumentReads {
  import opened Lists
  import opened Values
  import opened Schemas
  import opened Documents
  import opened BlockGraph
  import opened Validation
  import opened Mutation
  import opened GraphSoundness
  import opened ValueSoundness
  import opened LocaleAuthority

  // ----- reading files -----

  predicate IsSlot(b: FileBinding, field: FieldID, path: seq<Segment>) {
    b.field == field && b.path == path
  }

  /** The file bound at a field and path, the first when several are. */
  function FileIn(files: seq<FileBinding>, field: FieldID, path: seq<Segment>): Option<FileReference> {
    if files == [] then None
    else if IsSlot(files[0], field, path) then Some(files[0].file)
    else FileIn(files[1..], field, path)
  }

  function FileAt(nodes: seq<Node>, place: Place, field: FieldID, path: seq<Segment>): Option<FileReference> {
    match HolderAt(nodes, place)
    case None => None
    case Some(h) => FileIn(h.files, field, path)
  }

  /** No slot is bound twice. */
  ghost predicate BoundOnce(files: seq<FileBinding>) {
    forall i, j :: 0 <= i < j < |files| ==> !IsSlot(files[j], files[i].field, files[i].path)
  }

  lemma {:induction false} FileInAt(files: seq<FileBinding>, i: nat, field: FieldID, path: seq<Segment>)
    requires i <= |files| && (i < |files| ==> IsSlot(files[i], field, path))
    requires forall j :: 0 <= j < i ==> !IsSlot(files[j], field, path)
    ensures FileIn(files, field, path) == if i < |files| then Some(files[i].file) else None
  {
    if i > 0 {
      FileInAt(files[1..], i - 1, field, path);
    }
  }

  /** A list of bindings that agrees with `files` away from one slot reads alike there. */
  lemma {:induction false} FileInConcat(a: seq<FileBinding>, b: seq<FileBinding>, field: FieldID, path: seq<Segment>)
    ensures FileIn(a + b, field, path) == if FileIn(a, field, path).Some? then FileIn(a, field, path) else FileIn(b, field, path)
  {
    if a == [] {
      assert a + b == b;
    } else {
      assert (a + b)[1..] == a[1..] + b;
      FileInConcat(a[1..], b, field, path);
    }
  }

  lemma {:induction false} FileInSplit(files: seq<FileBinding>, i: nat, middle: seq<FileBinding>, field: FieldID, path: seq<Segment>)
    requires i < |files| && !IsSlot(files[i], field, path) && FileIn(middle, field, path).None?
    ensures FileIn(files[..i] + middle + files[i + 1..], field, path) == FileIn(files, field, path)
  {
    var one := [files[i]];
    assert one[1..] == [];
    assert files == files[..i] + one + files[i + 1..];
    FileInConcat(files[..i] + middle, files[i + 1..], field, path);
    FileInConcat(files[..i], middle, field, path);
    FileInConcat(files[..i] + one, files[i + 1..], field, path);
    FileInConcat(files[..i], one, field, path);
  }

  /** Binding a slot: it reads the new file, or nothing after an unbinding where it was
      bound once; every other slot reads as before. */
  lemma {:induction false} BoundFilesRead(files: seq<FileBinding>, t: Target, file: Option<FileReference>, field: FieldID, path: seq<Segment>)
    ensures field != t.field || path != t.path ==> FileIn(BoundFiles(files, t, file), field, path) == FileIn(files, field, path)
    ensures file.Some? || BoundOnce(files) ==> FileIn(BoundFiles(files, t, file), t.field, t.path) == file
    ensures BoundOnce(files) ==> BoundOnce(BoundFiles(files, t, file))
  {
    var i := FindBinding(files, t.field, t.path);
    var after := BoundFiles(files, t, file);
    if field != t.field || path != t.path {
      BoundElsewhere(files, t, file, field, path);
    }
    if i == |files| {
      FileInAt(after, i, t.field, t.path);
    } else if file.Some? {
      FileInAt(after, i, t.field, t.path);
    } else if BoundOnce(files) {
      assert forall j :: 0 <= j < |after| ==> after[j] == files[if j < i then j else j + 1];
      forall j | 0 <= j < |after| ensures !IsSlot(after[j], t.field, t.path) {
        assert j >= i ==> !IsSlot(files[j + 1], files[i].field, files[i].path);
      }
      FileInAt(after, |after|, t.field, t.path);
    }
    if BoundOnce(files) && file.None? && i < |files| {
      assert forall j :: 0 <= j < |after| ==> after[j] == files[if j < i then j else j + 1];
    }
  }

  lemma {:induction false} BoundElsewhere(files: seq<FileBinding>, t: Target, file: Option<FileReference>, field: FieldID, path: seq<Segment>)
    requires field != t.field || path != t.path
    ensures FileIn(BoundFiles(files, t, file), field, path) == FileIn(files, field, path)
  {
    var i := FindBinding(files, t.field, t.path);
    if i < |files| {
      var middle := if file.Some? then [FileBinding(t.field, t.path, file.value)] else [];
      assert BoundFiles(files, t, file) == files[..i] + middle + files[i + 1..];
      assert FileIn(middle, field, path).None? by {
        assert middle != [] ==> middle[1..] == [];
      }
      FileInSplit(files, i, middle, field, path);
    } else if file.Some? {
      var one := [FileBinding(t.field, t.path, file.value)];
      assert one[1..] == [];
      FileInConcat(files, one, field, path);
    }
  }

  // ----- one block or item changed -----

  lemma {:induction false} HolderAfterUpdate(nodes: seq<Node>, i: nat, m: Node, place: Place)
    requires i < |nodes| && Find(nodes, NodeId, m.id) == i
    ensures HolderAt(nodes[i := m], place) == if place.block == m.id then HolderIn(m, place) else HolderAt(nodes, place)
  {
    FindSameIds(nodes[i := m], nodes, NodeId, place.block);
  }

  /** A field or file change of a block changes one holder of it. */
  lemma {:induction false} NodeChangeHolders(c: Catalog, n: Node, t: Target, change: Change, place: Place) returns (itemKind: ItemKind)
    requires ChangedNode(c, n, t, change).Some? && place.block == t.block
    ensures HolderIn(n, PlaceOf(t)).Some? && ChangedHolder(c, n, itemKind, HolderIn(n, PlaceOf(t)).value, t, change).Some?
    ensures OwnershipIn(c, n, t) == OwnershipOf(c, n, itemKind, t)
    ensures HolderIn(ChangedNode(c, n, t, change).value, place)
         == if place == PlaceOf(t) then ChangedHolder(c, n, itemKind, HolderIn(n, PlaceOf(t)).value, t, change) else HolderIn(n, place)
  {
    var m := ChangedNode(c, n, t, change).value;
    if t.OnItem() {
      var r := Find(n.relations, RelationId, t.relation);
      var k := Find(n.relations[r].items, ItemId, t.item);
      var item := n.relations[r].items[k];
      itemKind := item.kind;
      var h := ChangedHolder(c, n, itemKind, ItemHolder(item), t, change).value;
      assert ItemHolder(ItemHolding(item, h)) == h;
      ItemRead(n, m, r, k, t.relation, t.item, place);
    } else {
      itemKind := NONE;
      assert BlockHolder(m) == ChangedHolder(c, n, NONE, BlockHolder(n), t, change).value;
    }
  }

  /** The holder that a field or file operation leaves at its target. */
  lemma {:induction false} ChangedHolders(tree: Tree, t: Target, change: Change, place: Place) returns (n: Node, itemKind: ItemKind)
    requires ChangedField(tree, t, change).Some?
    ensures HolderAt(tree.nodes, PlaceOf(t)).Some? && OwnershipAt(tree.catalog, tree.nodes, t) == OwnershipOf(tree.catalog, n, itemKind, t)
    ensures ChangedHolder(tree.catalog, n, itemKind, HolderAt(tree.nodes, PlaceOf(t)).value, t, change).Some?
    ensures HolderAt(ChangedField(tree, t, change).value, place)
         == if place == PlaceOf(t) then ChangedHolder(tree.catalog, n, itemKind, HolderAt(tree.nodes, PlaceOf(t)).value, t, change)
            else HolderAt(tree.nodes, place)
  {
    var i := Find(tree.nodes, NodeId, t.block);
    n := tree.nodes[i];
    var m := ChangedNode(tree.catalog, n, t, change).value;
    ChangedKeepsId(tree.catalog, n, t, change);
    HolderAfterUpdate(tree.nodes, i, m, place);
    itemKind := NodeChangeHolders(tree.catalog, n, t, change, if place.block == t.block then place else PlaceOf(t));
  }

  // ----- files -----

  /** Attaching a file binds it to its slot, detaching leaves the slot empty where it
      was bound once; no other slot and no value reads differently. */
  lemma {:induction false} FileOperationReads(tree: Tree, op: Operation, place: Place, field: FieldID, path: seq<Segment>, localized: bool)
    requires (op.AttachFile? || op.DetachFile?) && AppliedNodes(tree, op).Some?
    ensures var after := AppliedNodes(tree, op).value;
            HolderAt(tree.nodes, PlaceOf(op.target)).Some? &&
            (if place == PlaceOf(op.target) && field == op.target.field && path == op.target.path
             then (op.AttachFile? ==> FileAt(after, place, field, path) == Some(op.file)) &&
                  (op.DetachFile? && BoundOnce(HolderAt(tree.nodes, place).value.files) ==> FileAt(after, place, field, path) == None)
             else FileAt(after, place, field, path) == FileAt(tree.nodes, place, field, path))
    ensures ReadAt(AppliedNodes(tree, op).value, place, localized, field, path) == ReadAt(tree.nodes, place, localized, field, path)
  {
    var t := op.target;
    var file := if op.AttachFile? then Some(op.file) else None;
    var n, itemKind := ChangedHolders(tree, t, File(file), place);
    BoundFilesRead(HolderAt(tree.nodes, PlaceOf(t)).value.files, t, file, field, path);
  }

  /** Slots stay bound at most once. */
  lemma {:induction false} FileOperationBindsOnce(tree: Tree, op: Operation, place: Place)
    requires (op.AttachFile? || op.DetachFile?) && AppliedNodes(tree, op).Some?
    requires HolderAt(tree.nodes, place).Some? && BoundOnce(HolderAt(tree.nodes, place).value.files)
    ensures HolderAt(AppliedNodes(tree, op).value, place).Some?
    ensures BoundOnce(HolderAt(AppliedNodes(tree, op).value, place).value.files)
  {
    var file := if op.AttachFile? then Some(op.file) else None;
    var n, itemKind := ChangedHolders(tree, op.target, File(file), place);
    if place == PlaceOf(op.target) {
      BoundFilesRead(HolderAt(tree.nodes, place).value.files, op.target, file, op.target.field, op.target.path);
    }
  }

  // ----- values -----

  function Slot(h: Holder, localized: bool): seq<Entry> {
    if localized then h.localized else h.shared
  }

  /** A value operation writes the slot of the field's owner. What it sets reads back,
      unless the container of the path is missing, and then nothing changes; what it
      unsets is gone where names are distinct. The other slot, the files and every
      other path read as before. */
  lemma {:induction false} ValueOperationReads(tree: Tree, op: Operation, place: Place, field: FieldID, path: seq<Segment>, localized: bool)
    requires (op.SetField? || op.UnsetField?) && AppliedNodes(tree, op).Some?
    ensures HolderAt(tree.nodes, PlaceOf(op.target)).Some? && OwnershipAt(tree.catalog, tree.nodes, op.target).Some?
    ensures var t, after := op.target, AppliedNodes(tree, op).value;
            var own := OwnershipAt(tree.catalog, tree.nodes, t).value == Locale;
            var slot := Slot(HolderAt(tree.nodes, PlaceOf(t)).value, own);
            && (op.SetField? ==>
                  if Settable(slot, t.field, t.path, true) then ReadAt(after, PlaceOf(t), own, t.field, t.path) == Some(op.value)
                  else HolderAt(after, place) == HolderAt(tree.nodes, place))
            && (op.UnsetField? && DistinctEntries(slot) && t.field != NONE && ValidPath(t.path) ==>
                  ReadAt(after, PlaceOf(t), own, t.field, t.path) == None)
            && (localized != own || !Reaches(t, place, field, path) ==>
                  ReadAt(after, place, localized, field, path) == ReadAt(tree.nodes, place, localized, field, path))
    ensures FileAt(AppliedNodes(tree, op).value, place, field, path) == FileAt(tree.nodes, place, field, path)
  {
    var t := op.target;
    var write := if op.SetField? then Set(op.value) else Unset;
    var n, itemKind := ChangedHolders(tree, t, Value(write), place);
    var m, k := ChangedHolders(tree, t, Value(write), PlaceOf(t));
    var own := OwnershipAt(tree.catalog, tree.nodes, t).value == Locale;
    var slot := Slot(HolderAt(tree.nodes, PlaceOf(t)).value, own);
    WriteReads(tree, t, write, place, localized, field, path);
    if op.SetField? {
      SetThenRead(slot, t.field, t.path, op.value, true);
    } else if DistinctEntries(slot) && t.field != NONE && ValidPath(t.path) {
      UnsetLeavesNothing(slot, t.field, t.path);
    }
  }

  // ----- the structure around it -----

  function OutlineItem(i: RelationItem): RelationItem { i.(shared := [], localized := [], files := []) }
  function OutlineRelation(r: Relation): Relation { r.(items := Map(r.items, OutlineItem)) }

  /** A block without values and files: identifiers, kinds, parent, order, relations. */
  function Outline(n: Node): Node {
    n.(shared := [], localized := [], files := [], relations := Map(n.relations, OutlineRelation))
  }

  lemma {:induction false} ItemOutline(n: Node, r: nat, k: nat, h: Holder, m: Node)
    requires r < |n.relations| && k < |n.relations[r].items|
    requires m == n.(relations := n.relations[r := n.relations[r].(items := n.relations[r].items[k := ItemHolding(n.relations[r].items[k], h)])])
    ensures Outline(m) == Outline(n)
  {
    assert Map(m.relations[r].items, OutlineItem) == Map(n.relations[r].items, OutlineItem);
    assert Map(m.relations, OutlineRelation) == Map(n.relations, OutlineRelation);
  }

  lemma {:induction false} NodeOutline(c: Catalog, n: Node, t: Target, change: Change)
    requires ChangedNode(c, n, t, change).Some?
    ensures Outline(ChangedNode(c, n, t, change).value) == Outline(n)
  {
    if t.OnItem() {
      var r := Find(n.relations, RelationId, t.relation);
      var k := Find(n.relations[r].items, ItemId, t.item);
      var item := n.relations[r].items[k];
      ItemOutline(n, r, k, ChangedHolder(c, n, item.kind, ItemHolder(item), t, change).value, ChangedNode(c, n, t, change).value);
    }
  }

  /** Field and file operations leave everything but values and files alone. */
  lemma {:induction false} FieldOperationOutline(tree: Tree, op: Operation)
    requires ChangeOf(op).Some? && AppliedNodes(tree, op).Some?
    ensures Map(AppliedNodes(tree, op).value, Outline) == Map(tree.nodes, Outline)
  {
    var i := Find(tree.nodes, NodeId, op.target.block);
    NodeOutline(tree.catalog, tree.nodes[i], op.target, ChangeOf(op).value);
  }

  // ----- translations -----

  lemma {:induction false} UntranslatedHolder(n: Node, place: Place)
    ensures HolderIn(UntranslatedNode(n), place).Some? == HolderIn(n, place).Some?
    ensures HolderIn(n, place).Some? ==> HolderIn(UntranslatedNode(n), place).value == HolderIn(n, place).value.(localized := [])
  {
    var m := UntranslatedNode(n);
    FindSameIds(m.relations, n.relations, RelationId, place.relation);
    var r := Find(n.relations, RelationId, place.relation);
    if r < |n.relations| {
      FindSameIds(m.relations[r].items, n.relations[r].items, ItemId, place.item);
    }
  }

  /** Deleting a translation leaves no localized value to read; shared values and files
      read as before. Creating one changes nothing that can be read. */
  lemma {:induction false} TranslationReads(tree: Tree, op: Operation, place: Place, field: FieldID, path: seq<Segment>)
    requires op.CreateTranslation? || op.DeleteTranslation?
    ensures AppliedNodes(tree, op).Some?
    ensures var after := AppliedNodes(tree, op).value;
            && ReadAt(after, place, true, field, path) == (if op.DeleteTranslation? then None else ReadAt(tree.nodes, place, true, field, path))
            && ReadAt(after, place, false, field, path) == ReadAt(tree.nodes, place, false, field, path)
            && FileAt(after, place, field, path) == FileAt(tree.nodes, place, field, path)
            && HolderAt(after, place).Some? == HolderAt(tree.nodes, place).Some?
            && Skeleton(after) == Skeleton(tree.nodes)
  {
    if op.DeleteTranslation? {
      var after := AppliedNodes(tree, op).value;
      FindSameIds(after, tree.nodes, NodeId, place.block);
      var i := Find(tree.nodes, NodeId, place.block);
      if i < |tree.nodes| {
        UntranslatedHolder(tree.nodes[i], place);
      }
      UntranslatedSkeleton(tree.nodes);
    }
  }
}
