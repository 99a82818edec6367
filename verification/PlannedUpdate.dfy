/** A planned text edit carried through a whole update: planned on the document as it
    is stored, applied to its canonical listing, and listed canonically again. */
module PlannedUpdate {
  import opened Lists
  import opened Values
  import opened Schemas
  import opened Documents
  import opened BlockGraph
  import opened Mutation
  import opened GraphSoundness
  import opened ValueSoundness
  import opened LocaleAuthority
  import opened CanonicalOrder
  import opened Editing
  import opened DocumentUpdate
  import opened DocumentReads
  import opened StructureReads
  import opened CanonicalContent
  import opened TextEdits
  import opened TextEditPlan

  // ----- the owner of a field, through a listing -----

  function Bearing(kind: BlockKind): Node { Node(NONE, kind, NONE, 0, [], [], [], []) }

  /** Who owns a field turns on the kinds of its block and item. */
  lemma {:induction false} OwnershipByContent(c: Catalog, nodes: seq<Node>, t: Target)
    ensures OwnershipAt(c, nodes, t) ==
              match (ContentAt(nodes, Place(t.block, NONE, NONE)), ContentAt(nodes, PlaceOf(t)))
              case (Some(block), Some(owner)) => OwnershipOf(c, Bearing(block.kind), owner.kind, t)
              case _ => None
  {
  }

  lemma {:induction false} OpenedOwnership(c: Catalog, nodes: seq<Node>, t: Target)
    requires LoadedNodes(nodes) && Forest(GraphOf(nodes))
    ensures OwnershipAt(c, Canonical(nodes), t) == OwnershipAt(c, nodes, t)
  {
    CanonicalKeepsContent(nodes, Place(t.block, NONE, NONE));
    CanonicalKeepsContent(nodes, PlaceOf(t));
    OwnershipByContent(c, nodes, t);
    OwnershipByContent(c, Canonical(nodes), t);
  }

  // ----- setting values keeps a document loaded -----

  lemma {:induction false} SetsKeep(tree: Tree, fields: seq<EditableField>)
    requires GoodNodes(tree.nodes) && AppliedAll(tree, Writes(fields)).Some?
    ensures GoodNodes(AppliedAll(tree, Writes(fields)).value.nodes)
    ensures GraphOf(AppliedAll(tree, Writes(fields)).value.nodes) == GraphOf(tree.nodes)
  {
    if fields != [] {
      var front, last := fields[..|fields| - 1], fields[|fields| - 1];
      AppliedFront(tree, Writes(front), WriteOf(last));
      SetsKeep(tree, front);
      var mid := AppliedAll(tree, Writes(front)).value;
      AppliedAllConcat(tree, Writes(front), WriteOf(last));
      SetKeeps(mid, last);
    }
  }

  lemma {:induction false} SetKeeps(tree: Tree, f: EditableField)
    requires GoodNodes(tree.nodes) && AppliedAll(tree, WriteOf(f)).Some?
    ensures GoodNodes(AppliedAll(tree, WriteOf(f)).value.nodes)
    ensures GraphOf(AppliedAll(tree, WriteOf(f)).value.nodes) == GraphOf(tree.nodes)
  {
    if f.changed {
      AppliedOne(tree, SetField(f.target, f.value));
      FieldChangeGraph(tree, f.target, Value(Set(f.value)));
    }
  }

  /** A batch that applies applies as far as each of its prefixes. */
  lemma {:induction false} AppliedFront(tree: Tree, a: seq<Operation>, b: seq<Operation>)
    requires AppliedAll(tree, a + b).Some?
    ensures AppliedAll(tree, a).Some?
    decreases |a|
  {
    if a != [] {
      assert (a + b)[0] == a[0] && (a + b)[1..] == a[1..] + b;
      AppliedFront(Applied(tree, a[0]).value, a[1..], b);
    }
  }

  // ----- the update -----

  /** The plan applies to the listed document, and leaves every localized value the fold
      of the edits over it and every shared value as it was. */
  lemma {:induction false} PlanAppliesListed(
    document: Tree, edits: seq<TextEdit>, place: Place, field: FieldID, path: seq<Segment>)
    requires Readable(document.nodes) && NodesFit(document.nodes, document.catalog) && Forest(GraphOf(document.nodes))
    requires Plan(document.nodes, edits).Some?
    ensures var first := Opened(document);
            AppliedAll(first, Plan(document.nodes, edits).value).Some? &&
            var last := AppliedAll(first, Plan(document.nodes, edits).value).value;
            && GoodNodes(last.nodes) && GraphOf(last.nodes) == GraphOf(document.nodes)
            && ReadAt(last.nodes, place, false, field, path) == ReadAt(document.nodes, place, false, field, path)
            && ReadAt(last.nodes, place, true, field, []) ==
               match ReadAt(document.nodes, place, true, field, [])
               case None => None
               case Some(value) => Some(Fold(edits, place.block, value))
  {
    var fields := EditableFields(document.nodes);
    var done := EditAll(edits, fields).value;
    EditAllFolds(edits, fields);
    PlannedSettled(document, edits);
    ListingKeeps(document.nodes);
    ListedSettled(document, done);
    WritesApply(Opened(document), done, place, false, field, path);
    WritesApply(Opened(document), done, place, true, field, []);
    SetsKeep(Opened(document), done);
    CanonicalReads(document.nodes, place, false, field, path);
    CanonicalReads(document.nodes, place, true, field, []);
    if WritesTo(done, place, field) {
      WrittenIsFold(document, edits, done, place, field);
    } else if ReadAt(document.nodes, place, true, field, []).Some? {
      UnwrittenIsFold(document, edits, done, place, field);
    }
  }

  lemma {:induction false} ListedSettled(document: Tree, done: seq<EditableField>)
    requires LoadedNodes(document.nodes) && Forest(GraphOf(document.nodes))
    requires Settled(document.catalog, document.nodes, done)
    ensures Settled(document.catalog, Opened(document).nodes, done)
  {
    forall i | 0 <= i < |done| ensures OwnershipAt(document.catalog, Opened(document).nodes, done[i].target) == Some(Locale) {
      OpenedOwnership(document.catalog, document.nodes, done[i].target);
    }
  }

  /** From the stored document to the stored result: every localized value is the fold
      of the edits over it, every shared value and every file is as it was, and so are
      blocks, kinds, parents and items. */
  lemma {:induction false} UpdateGivesFold(
    document: Tree, edits: seq<TextEdit>, place: Place, field: FieldID, path: seq<Segment>)
    requires Readable(document.nodes) && NodesFit(document.nodes, document.catalog) && Forest(GraphOf(document.nodes))
    requires Plan(document.nodes, edits).Some?
    ensures AppliedAll(Opened(document), Plan(document.nodes, edits).value).Some?
    ensures var last := AppliedAll(Opened(document), Plan(document.nodes, edits).value).value;
            && GoodNodes(last.nodes) && GraphOf(Opened(last).nodes) == GraphOf(document.nodes)
            && ReadAt(Opened(last).nodes, place, false, field, path) == ReadAt(document.nodes, place, false, field, path)
            && ReadAt(Opened(last).nodes, place, true, field, []) ==
               match ReadAt(document.nodes, place, true, field, [])
               case None => None
               case Some(value) => Some(Fold(edits, place.block, value))
  {
    PlanAppliesListed(document, edits, place, field, path);
    var last := AppliedAll(Opened(document), Plan(document.nodes, edits).value).value;
    GoodIsLoaded(last.nodes);
    ListingKeeps(last.nodes);
    CanonicalReads(last.nodes, place, false, field, path);
    CanonicalReads(last.nodes, place, true, field, []);
  }

  /** The files of the stored result are those of the stored document. */
  lemma {:induction false} UpdateKeepsFiles(document: Tree, edits: seq<TextEdit>, place: Place, field: FieldID, path: seq<Segment>)
    requires Readable(document.nodes) && NodesFit(document.nodes, document.catalog) && Forest(GraphOf(document.nodes))
    requires Plan(document.nodes, edits).Some?
    ensures AppliedAll(Opened(document), Plan(document.nodes, edits).value).Some?
    ensures var last := AppliedAll(Opened(document), Plan(document.nodes, edits).value).value;
            GoodNodes(last.nodes) && FileAt(Opened(last).nodes, place, field, path) == FileAt(document.nodes, place, field, path)
  {
    PlanAppliesListed(document, edits, place, field, path);
    var last := AppliedAll(Opened(document), Plan(document.nodes, edits).value).value;
    var done := EditAll(edits, EditableFields(document.nodes)).value;
    ListingKeeps(document.nodes);
    SetsKeepFiles(Opened(document), done, place, field, path);
    CanonicalReads(document.nodes, place, false, field, path);
    GoodIsLoaded(last.nodes);
    CanonicalReads(last.nodes, place, false, field, path);
  }

  lemma {:induction false} SetsKeepFiles(tree: Tree, fields: seq<EditableField>, place: Place, field: FieldID, path: seq<Segment>)
    requires AppliedAll(tree, Writes(fields)).Some?
    ensures FileAt(AppliedAll(tree, Writes(fields)).value.nodes, place, field, path) == FileAt(tree.nodes, place, field, path)
  {
    if fields != [] {
      var front, last := fields[..|fields| - 1], fields[|fields| - 1];
      assert fields == front + [last];
      AppliedFront(tree, Writes(front), WriteOf(last));
      SetsKeepFiles(tree, front, place, field, path);
      var mid := AppliedAll(tree, Writes(front)).value;
      AppliedAllConcat(tree, Writes(front), WriteOf(last));
      if last.changed {
        AppliedOne(mid, SetField(last.target, last.value));
        ValueOperationReads(mid, SetField(last.target, last.value), place, field, path, false);
      }
    }
  }
}
