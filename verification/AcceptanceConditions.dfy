/** Exactly when each operation is accepted, that every reported issue is true and in its
    place, and that accepted batches leave only what the catalog allows. */
module AcceptanceConditions {
  import opened Lists
  import opened Values
  import opened Schemas
  import opened Documents
  import opened BlockGraph
  import opened Validation
  import opened Mutation
  import opened GraphSoundness
  import opened ValueSoundness
  import opened BatchSoundness
  import opened GraphCover
  import opened BatchApplication
  import opened LocaleAuthority
  import opened CanonicalOrder
  import opened Editing
  import opened DocumentUpdate
  import opened DocumentReads
  import opened StructureReads

  // ----- field operations -----

  /** The catalog rule for a field of a block that is there, or of an item that is there. */
  function RuleFor(v: Validator, t: Target): Option<FieldRule> {
    if t.block !in v.graph then None
    else
      var block := v.graph[t.block];
      if t.relation == NONE && t.item == NONE then RuleOf(v.catalog, block.kind, NONE, NONE, t.field)
      else if t.relation in block.relations && t.item in block.relations[t.relation]
      then RuleOf(v.catalog, block.kind, t.relation, block.relations[t.relation][t.item], t.field)
      else None
  }

  /** The target is well formed and its path leads to this rule. */
  predicate LeadsTo(v: Validator, t: Target, rule: Resolved) {
    && t.block != NONE && t.field != NONE && (t.relation == NONE <==> t.item == NONE)
    && (forall i :: 0 <= i < |t.path| ==> ValidSegment(t.path[i]))
    && RuleFor(v, t).Some? && Resolve(RuleFor(v, t).value, t.path) == Some(rule)
  }

  lemma {:induction false} ResolveFieldIff(v: Validator, t: Target, rule: Resolved)
    ensures ResolveField(v, t) == Found(rule) <==> LeadsTo(v, t, rule)
  {
  }

  /** A target leads to one rule at most: the one validation resolves. */
  lemma {:induction false} ResolvesTo(v: Validator, t: Target)
    ensures ResolveField(v, t).Found? ==> LeadsTo(v, t, ResolveField(v, t).value)
    ensures forall rule :: LeadsTo(v, t, rule) ==> ResolveField(v, t) == Found(rule)
  {
    if ResolveField(v, t).Found? {
      ResolveFieldIff(v, t, ResolveField(v, t).value);
    }
    forall rule | LeadsTo(v, t, rule) ensures ResolveField(v, t) == Found(rule) {
      ResolveFieldIff(v, t, rule);
    }
  }

  /** The value may be stored under the rule. */
  predicate Storable(v: Validator, value: Value, rule: Resolved) {
    value.Kind() == rule.kind && ValidValue(value, 0, v.strings) && (rule.schema.Some? ==> FitsSchema(value, rule.schema.value, 0, v.strings))
  }

  /** A value is accepted exactly when it is what the rule at its path stores, and the
      locale may write it: the source locale anything, another one only what belongs to
      the locale and is translatable. */
  lemma {:induction false} SetAcceptedIff(v: Validator, t: Target, value: Value)
    requires Forest(v.graph)
    ensures Validate(v, SetField(t, value)).None? <==>
              exists rule :: LeadsTo(v, t, rule) && !rule.file && Storable(v, value, rule)
                && (v.role.NonSourceLocale? ==> rule.ownership == Locale && rule.translatable)
  {
    ResolvesTo(v, t);
  }

  /** Unsetting and binding files is for the source locale, on fields that hold values
      and fields that hold files respectively. */
  lemma {:induction false} SlotAcceptedIff(v: Validator, op: Operation)
    requires Forest(v.graph) && (op.UnsetField? || op.AttachFile? || op.DetachFile?)
    ensures Validate(v, op).None? <==>
              v.role.SourceLocale? && (op.AttachFile? ==> op.file != NONE)
              && exists rule :: LeadsTo(v, op.target, rule) && (rule.file <==> !op.UnsetField?)
  {
    var t := op.target;
    ResolvesTo(v, t);
  }

  // ----- blocks, items, translations -----

  /** Blocks are for the source locale: a new one under a name and a kind of its own,
      an old one to delete or to replace, below a parent that is there and behind a
      sibling; a move must leave a forest. */
  lemma {:induction false} BlockAcceptedIff(v: Validator, op: Operation)
    requires Forest(v.graph) && (op.InsertBlock? || op.DeleteBlock? || op.MoveBlock? || op.ReplaceBlockKind?)
    ensures Validate(v, op).None? <==>
              v.role.SourceLocale? &&
              match op
              case InsertBlock(block, kind, parent, after) =>
                && block != NONE && block !in v.graph && kind in v.catalog.kinds
                && (parent == NONE || parent in v.graph)
                && (after == NONE || (after in v.graph && v.graph[after].parent == parent))
              case DeleteBlock(block) => block in v.graph
              case MoveBlock(block, parent, after) =>
                && block in v.graph && Forest(v.graph[block := v.graph[block].(parent := parent)])
                && (after == NONE || (after != block && after in v.graph && v.graph[after].parent == parent))
              case ReplaceBlockKind(block, kind) => block in v.graph && kind in v.catalog.kinds
  {
    if op.MoveBlock? && op.block in v.graph && v.role.SourceLocale? {
      MoveAcceptedIff(v, op.block, op.parent, op.after);
    }
  }

  /** Relation items are for the source locale: a new one of an allowed kind under a name
      that no relation holds, an old one to delete, or to move where its kind is
      allowed; behind another item of the relation. */
  lemma {:induction false} ItemAcceptedIff(v: Validator, op: Operation)
    requires Forest(v.graph) && (op.InsertRelationItem? || op.DeleteRelationItem? || op.MoveRelationItem?)
    ensures Validate(v, op).None? <==>
              v.role.SourceLocale? && op.block != NONE && op.relation != NONE && op.item != NONE && op.block in v.graph &&
              var g, allowed := v.graph, v.catalog.relations;
              match op
              case InsertRelationItem(block, relation, item, kind, after) =>
                && kind != NONE && (g[block].kind, relation) in allowed && kind in allowed[(g[block].kind, relation)]
                && (forall b, r :: b in g && r in g[b].relations ==> item !in g[b].relations[r])
                && (after == NONE || (after != item && relation in g[block].relations && after in g[block].relations[relation]))
              case DeleteRelationItem(block, relation, item) =>
                relation in g[block].relations && item in g[block].relations[relation]
              case MoveRelationItem(block, relation, item, targetBlock, targetRelation, after) =>
                && relation in g[block].relations && item in g[block].relations[relation]
                && targetBlock != NONE && targetRelation != NONE && targetBlock in g
                && (g[targetBlock].kind, targetRelation) in allowed
                && g[block].relations[relation][item] in allowed[(g[targetBlock].kind, targetRelation)]
                && (after == NONE ||
                    (after != item && targetRelation in g[targetBlock].relations && after in g[targetBlock].relations[targetRelation]))
  {
  }

  /** A translation is created where there is none and deleted where there is one, alone
      in its batch and never in the source locale. */
  lemma {:induction false} TranslationAcceptedIff(v: Validator, op: Operation)
    requires Forest(v.graph) && (op.CreateTranslation? || op.DeleteTranslation?)
    ensures Validate(v, op).None? <==>
              v.role.NonSourceLocale? && v.batchSize == 1 && (v.localeExists <==> op.DeleteTranslation?)
  {
  }

  /** Only the translation operations change whether the locale exists, in the tree as in
      the validator. */
  lemma {:induction false} LocaleFollows(tree: Tree, v: Validator, op: Operation)
    requires Forest(v.graph) && Validate(v, op).None? && Applied(tree, op).Some?
    ensures Accepted(v, op).localeExists == (op.CreateTranslation? || (v.localeExists && !op.DeleteTranslation?))
    ensures Applied(tree, op).value.localeExists == (op.CreateTranslation? || (tree.localeExists && !op.DeleteTranslation?))
    ensures Applied(tree, op).value.catalog == tree.catalog
  {
  }

  // ----- the issues -----

  predicate OnField(op: Operation) {
    op.SetField? || op.UnsetField? || op.AttachFile? || op.DetachFile?
  }

  predicate OnTranslation(op: Operation) {
    op.CreateTranslation? || op.DeleteTranslation?
  }

  /** Names that an operation on blocks or items cannot do without. */
  predicate NamesMissing(op: Operation) {
    match op
    case InsertBlock(block, _, _, _) => block == NONE
    case InsertRelationItem(block, relation, item, kind, _) => block == NONE || relation == NONE || item == NONE || kind == NONE
    case DeleteRelationItem(block, relation, item) => block == NONE || relation == NONE || item == NONE
    case MoveRelationItem(block, relation, item, targetBlock, targetRelation, _) =>
      block == NONE || relation == NONE || item == NONE || targetBlock == NONE || targetRelation == NONE
    case _ => false
  }

  predicate ItemThere(g: Graph, block: BlockID, relation: RelationID, item: ItemID) {
    block in g && relation in g[block].relations && item in g[block].relations[relation]
  }

  /** What an issue says of a block operation, in the order the checks are made. */
  ghost predicate BlockIssueTrue(v: Validator, op: Operation, issue: Issue) {
    var g := v.graph;
    match op
    case InsertBlock(block, kind, parent, after) =>
      (match issue
       case DuplicateBlock => block in g
       case UnknownBlockKind => block !in g && kind !in v.catalog.kinds
       case InvalidBlockRelation =>
         block !in g && kind in v.catalog.kinds &&
         ((parent != NONE && parent !in g) || (after != NONE && (after !in g || g[after].parent != parent)))
       case _ => false)
    case DeleteBlock(block) => issue == UnknownBlock && block !in g
    case MoveBlock(block, parent, after) =>
      (match issue
       case UnknownBlock => block !in g
       case BlockCycle => block in g && (parent == block || Below(g, parent, block))
       case InvalidBlockRelation =>
         block in g && parent != block && !Below(g, parent, block) &&
         ((parent != NONE && parent !in g) || (after != NONE && (after == block || after !in g || g[after].parent != parent)))
       case _ => false)
    case ReplaceBlockKind(block, kind) =>
      (match issue
       case UnknownBlock => block !in g
       case UnknownBlockKind => block in g && kind !in v.catalog.kinds
       case _ => false)
    case _ => false
  }

  /** What an issue says of an item operation, in the order the checks are made. */
  ghost predicate ItemIssueTrue(v: Validator, op: Operation, issue: Issue) {
    var g, allowed := v.graph, v.catalog.relations;
    match op
    case InsertRelationItem(block, relation, item, kind, after) =>
      (match issue
       case UnknownBlock => block !in g
       case UnknownRelation => block in g && (g[block].kind, relation) !in allowed
       case DuplicateRelationItem =>
         KindTaken(v, block, relation, kind) && exists b, r :: ItemThere(g, b, r, item)
       case InvalidRelationItemMove =>
         block in g && (g[block].kind, relation) in allowed &&
         (kind !in allowed[(g[block].kind, relation)] ||
          ((forall b, r :: !ItemThere(g, b, r, item)) && after != NONE && (after == item || !ItemThere(g, block, relation, after))))
       case _ => false)
    case DeleteRelationItem(block, relation, item) => ItemMissing(g, block, relation, item, issue)
    case MoveRelationItem(block, relation, item, targetBlock, targetRelation, after) =>
      if !ItemThere(g, block, relation, item) then ItemMissing(g, block, relation, item, issue)
      else
        (match issue
         case UnknownBlock => targetBlock !in g
         case UnknownRelation => targetBlock in g && (g[targetBlock].kind, targetRelation) !in allowed
         case InvalidRelationItemMove =>
           targetBlock in g && (g[targetBlock].kind, targetRelation) in allowed &&
           (g[block].relations[relation][item] !in allowed[(g[targetBlock].kind, targetRelation)] ||
            (after != NONE && (after == item || !ItemThere(g, targetBlock, targetRelation, after))))
         case _ => false)
    case _ => false
  }

  predicate KindTaken(v: Validator, block: BlockID, relation: RelationID, kind: ItemKind) {
    && block in v.graph && (v.graph[block].kind, relation) in v.catalog.relations
    && kind in v.catalog.relations[(v.graph[block].kind, relation)]
  }

  /** The first of block, relation and item that is not there. */
  predicate ItemMissing(g: Graph, block: BlockID, relation: RelationID, item: ItemID, issue: Issue) {
    match issue
    case UnknownBlock => block !in g
    case UnknownRelation => block in g && relation !in g[block].relations
    case UnknownRelationItem => block in g && relation in g[block].relations && item !in g[block].relations[relation]
    case _ => false
  }

  /** What an issue says of a field or file operation, in the order the checks are made. */
  ghost predicate FieldIssueTrue(v: Validator, op: Operation, issue: Issue)
    requires OnField(op)
  {
    var g, t := v.graph, op.target;
    if !CanonicalTarget(t) then issue == InvalidOperation
    else if t.block !in g then issue == UnknownBlock
    else if t.OnItem() && !ItemThere(g, t.block, t.relation, t.item) then ItemMissing(g, t.block, t.relation, t.item, issue)
    else if forall rule :: !LeadsTo(v, t, rule) then issue == UnknownField
    else exists rule :: LeadsTo(v, t, rule) && RuleIssueTrue(v, op, rule, issue)
  }

  /** What an issue says of an operation whose target leads to the rule. */
  predicate RuleIssueTrue(v: Validator, op: Operation, rule: Resolved, issue: Issue)
    requires OnField(op)
  {
    if op.SetField? then
      if rule.file then issue == UnknownField
      else if !Storable(v, op.value, rule) then issue == ValueKindMismatch
      else issue == TargetFieldForbidden && v.role.NonSourceLocale? && (rule.ownership != Locale || !rule.translatable)
    else if op.UnsetField? then issue == TargetFieldForbidden && (v.role.NonSourceLocale? || rule.file)
    else if !rule.file then issue == UnknownField
    else issue == InvalidFileReference && op.AttachFile? && op.file == NONE
  }

  ghost predicate TranslationIssueTrue(v: Validator, op: Operation, issue: Issue) {
    if v.role.SourceLocale? then issue == TranslationIsSource
    else if v.batchSize != 1 then issue == LocaleOperationNotExclusive
    else if op.CreateTranslation? then issue == TranslationAlreadyExists && v.localeExists
    else issue == TranslationMissing && !v.localeExists
  }

  lemma {:induction false} SetIssues(v: Validator, op: Operation)
    requires Forest(v.graph) && op.SetField? && Validate(v, op).Some?
    ensures FieldIssueTrue(v, op, Validate(v, op).value)
  {
    ResolvesTo(v, op.target);
  }

  lemma {:induction false} UnsetIssues(v: Validator, op: Operation)
    requires Forest(v.graph) && op.UnsetField? && Validate(v, op).Some?
    ensures FieldIssueTrue(v, op, Validate(v, op).value)
  {
    ResolvesTo(v, op.target);
  }

  lemma {:induction false} FileIssues(v: Validator, op: Operation)
    requires Forest(v.graph) && (op.AttachFile? || op.DetachFile?) && v.role.SourceLocale? && Validate(v, op).Some?
    ensures FieldIssueTrue(v, op, Validate(v, op).value)
  {
    ResolvesTo(v, op.target);
  }

  lemma {:induction false} BlockIssues(v: Validator, op: Operation)
    requires Forest(v.graph) && (op.InsertBlock? || op.DeleteBlock? || op.MoveBlock? || op.ReplaceBlockKind?)
    requires Validate(v, op).Some? && Validate(v, op).value != SourceAuthorityRequired && !NamesMissing(op)
    ensures BlockIssueTrue(v, op, Validate(v, op).value)
  {
    if op.MoveBlock? && op.block in v.graph {
      IsDescendantIffBelow(v.graph, op.parent, op.block);
    }
  }

  lemma {:induction false} ItemIssues(v: Validator, op: Operation)
    requires Forest(v.graph) && (op.InsertRelationItem? || op.DeleteRelationItem? || op.MoveRelationItem?)
    requires Validate(v, op).Some? && Validate(v, op).value != SourceAuthorityRequired && !NamesMissing(op)
    ensures ItemIssueTrue(v, op, Validate(v, op).value)
  {
    if op.InsertRelationItem? {
      if RelationItemExists(v.graph, op.item) {
        var b, r :| b in v.graph && r in v.graph[b].relations && op.item in v.graph[b].relations[r];
        assert ItemThere(v.graph, b, r, op.item);
      } else {
        forall b, r ensures !ItemThere(v.graph, b, r, op.item) {
        }
      }
    }
  }

  /** Every reported issue is true, and the first that is: outside the source locale
      structure and files are refused at once; then names must be there; then each
      issue says what is wrong, with everything checked before it in order. */
  lemma {:induction false} IssueIsTrue(v: Validator, op: Operation)
    requires Forest(v.graph) && Validate(v, op).Some?
    ensures var issue := Validate(v, op).value;
            var structural := !op.SetField? && !op.UnsetField? && !OnTranslation(op);
            && (issue == SourceAuthorityRequired <==> structural && v.role.NonSourceLocale?)
            && (issue != SourceAuthorityRequired ==>
                  if OnField(op) then FieldIssueTrue(v, op, issue)
                  else if OnTranslation(op) then TranslationIssueTrue(v, op, issue)
                  else if NamesMissing(op) then issue == InvalidOperation
                  else BlockIssueTrue(v, op, issue) || ItemIssueTrue(v, op, issue))
  {
    var issue := Validate(v, op).value;
    if issue != SourceAuthorityRequired {
      if OnField(op) {
        if op.SetField? {
          SetIssues(v, op);
        } else if op.UnsetField? {
          UnsetIssues(v, op);
        } else {
          FileIssues(v, op);
        }
      } else if !OnTranslation(op) && !NamesMissing(op) {
        if op.InsertRelationItem? || op.DeleteRelationItem? || op.MoveRelationItem? {
          ItemIssues(v, op);
        } else {
          BlockIssues(v, op);
        }
      }
    }
  }

  // ----- where the issues are -----

  /** The validator as it checks operation `k`: advanced by the accepted ones before. */
  ghost function StateBefore(v: Validator, ops: seq<Operation>, k: nat): (s: Validator)
    requires Forest(v.graph) && k <= |ops|
    ensures Forest(s.graph)
    decreases k
  {
    if k == 0 then v
    else
      var s := StateBefore(v, ops, k - 1);
      if Validate(s, ops[k - 1]).None? then AcceptedKeepsForest(s, ops[k - 1]); Accepted(s, ops[k - 1]) else s
  }

  /** The issues of the operations from `k` on, in order. */
  ghost predicate IssuesFollow(v: Validator, ops: seq<Operation>, k: nat, issues: seq<(nat, Issue)>)
    requires Forest(v.graph) && k <= |ops|
  {
    && (forall j: nat, issue :: (j, issue) in issues <==> k <= j < |ops| && Validate(StateBefore(v, ops, j), ops[j]) == Some(issue))
    && (forall i, j :: 0 <= i < j < |issues| ==> issues[i].0 < issues[j].0)
  }

  lemma {:induction false} IssueFirst(v: Validator, ops: seq<Operation>, k: nat, issue: Issue, rest: seq<(nat, Issue)>)
    requires Forest(v.graph) && k < |ops| && IssuesFollow(v, ops, k + 1, rest)
    requires Validate(StateBefore(v, ops, k), ops[k]) == Some(issue)
    ensures IssuesFollow(v, ops, k, [(k, issue)] + rest)
  {
    var issues := [(k, issue)] + rest;
    forall i | 0 <= i < |rest| ensures k < rest[i].0 {
      assert (rest[i].0, rest[i].1) in rest;
    }
    forall j: nat, e ensures (j, e) in issues <==> k <= j < |ops| && Validate(StateBefore(v, ops, j), ops[j]) == Some(e) {
      assert (j, e) in issues <==> (j, e) == (k, issue) || (j, e) in rest;
    }
  }

  lemma {:induction false} NoIssueHere(v: Validator, ops: seq<Operation>, k: nat, rest: seq<(nat, Issue)>)
    requires Forest(v.graph) && k < |ops| && IssuesFollow(v, ops, k + 1, rest)
    requires Validate(StateBefore(v, ops, k), ops[k]).None?
    ensures IssuesFollow(v, ops, k, rest)
  {
  }

  lemma {:induction false} IssuesFromState(v: Validator, ops: seq<Operation>, k: nat)
    requires Forest(v.graph) && k <= |ops|
    ensures IssuesFollow(v, ops, k, IssuesFrom(StateBefore(v, ops, k), ops, k))
    decreases |ops| - k
  {
    if k < |ops| {
      var s := StateBefore(v, ops, k);
      IssuesFromState(v, ops, k + 1);
      var rest := IssuesFrom(StateBefore(v, ops, k + 1), ops, k + 1);
      if Validate(s, ops[k]).Some? {
        IssueFirst(v, ops, k, Validate(s, ops[k]).value, rest);
      } else {
        NoIssueHere(v, ops, k, rest);
      }
    }
  }

  /** The report of a batch: for each operation, checked after the accepted ones before
      it, the issue it was refused for, in the order of the operations. */
  lemma {:induction false} IssuesAreThose(v: Validator, ops: seq<Operation>)
    requires Forest(v.graph)
    ensures var issues := IssuesFrom(v, ops, 0);
            && (forall k: nat, issue :: (k, issue) in issues <==>
                  k < |ops| && Validate(StateBefore(v, ops, k), ops[k]) == Some(issue))
            && (forall i, j :: 0 <= i < j < |issues| ==> issues[i].0 < issues[j].0)
  {
    IssuesFromState(v, ops, 0);
  }

  // ----- what the catalog allows -----

  ghost predicate RelationAllowed(r: Relation, kind: BlockKind, c: Catalog) {
    forall k :: 0 <= k < |r.items| ==> (kind, r.id) in c.relations && r.items[k].kind in c.relations[(kind, r.id)]
  }

  ghost predicate NodeAllowed(n: Node, c: Catalog) {
    n.kind in c.kinds && forall r :: 0 <= r < |n.relations| ==> RelationAllowed(n.relations[r], n.kind, c)
  }

  /** Every block has a kind of the catalog, and every item one that its relation takes. */
  ghost predicate Allowed(nodes: seq<Node>, c: Catalog) {
    forall i :: 0 <= i < |nodes| ==> NodeAllowed(nodes[i], c)
  }

  lemma {:induction false} OutlineAllowed(n: Node, m: Node, c: Catalog)
    requires NodeAllowed(n, c) && Outline(m) == Outline(n)
    ensures NodeAllowed(m, c)
  {
    assert m.kind == Outline(m).kind == Outline(n).kind == n.kind;
    assert |m.relations| == |Outline(m).relations| == |Outline(n).relations| == |n.relations|;
    forall r | 0 <= r < |m.relations| ensures RelationAllowed(m.relations[r], m.kind, c) {
      assert OutlineRelation(m.relations[r]) == Outline(m).relations[r] == OutlineRelation(n.relations[r]);
      SameItemKinds(n.relations[r], m.relations[r]);
      assert RelationAllowed(n.relations[r], n.kind, c);
    }
  }

  lemma {:induction false} SameItemKinds(a: Relation, b: Relation)
    requires OutlineRelation(b) == OutlineRelation(a)
    ensures b.id == a.id && |b.items| == |a.items| && forall k :: 0 <= k < |a.items| ==> b.items[k].kind == a.items[k].kind
  {
    assert b.id == OutlineRelation(b).id && a.id == OutlineRelation(a).id;
    assert |b.items| == |OutlineRelation(b).items| == |OutlineRelation(a).items| == |a.items|;
    forall k | 0 <= k < |a.items| ensures b.items[k].kind == a.items[k].kind {
      assert OutlineRelation(b).items[k] == OutlineItem(b.items[k]) && OutlineRelation(a).items[k] == OutlineItem(a.items[k]);
      assert OutlineItem(b.items[k]).kind == b.items[k].kind && OutlineItem(a.items[k]).kind == a.items[k].kind;
    }
  }

  lemma {:induction false} FieldStepAllowed(tree: Tree, op: Operation)
    requires Allowed(tree.nodes, tree.catalog) && ChangeOf(op).Some? && AppliedNodes(tree, op).Some?
    ensures Allowed(AppliedNodes(tree, op).value, tree.catalog)
  {
    FieldOperationOutline(tree, op);
    var after := AppliedNodes(tree, op).value;
    assert |Map(after, Outline)| == |after| && |Map(tree.nodes, Outline)| == |tree.nodes|;
    forall i | 0 <= i < |after| ensures NodeAllowed(after[i], tree.catalog) {
      assert Map(after, Outline)[i] == Outline(after[i]) && Map(tree.nodes, Outline)[i] == Outline(tree.nodes[i]);
      OutlineAllowed(tree.nodes[i], after[i], tree.catalog);
    }
  }

  lemma {:induction false} PlacedAllowed(nodes: seq<Node>, block: BlockID, parent: BlockID, after: BlockID, c: Catalog)
    requires Allowed(nodes, c)
    ensures Allowed(PlacedBlock(nodes, block, parent, after), c)
  {
    PlacedShape(nodes, block, parent, after);
    var placed := PlacedBlock(nodes, block, parent, after);
    forall i | 0 <= i < |placed| ensures NodeAllowed(placed[i], c) {
      SameButPlace(placed[i], nodes[i], Reparent(nodes[i], block, parent));
      assert NodeAllowed(nodes[i], c);
    }
  }

  lemma {:induction false} DeletedAllowed(nodes: seq<Node>, block: BlockID, c: Catalog)
    requires Allowed(nodes, c)
    ensures Allowed(WithoutSubtree(nodes, block), c)
  {
    var gone := Removed(GraphOf(nodes), block);
    var kept := Filter(nodes, (n: Node) => n.id !in gone);
    var sorted := SortBy(kept, ListingKey);
    var after := Numbered(sorted);
    forall i | 0 <= i < |after| ensures NodeAllowed(after[i], c) {
      SortElements(kept, ListingKey, sorted[i]);
      assert sorted[i] in nodes;
      var j :| 0 <= j < |nodes| && nodes[j] == sorted[i];
      assert NodeAllowed(nodes[j], c);
    }
  }

  lemma {:induction false} BlockStepAllowed(tree: Tree, v: Validator, op: Operation)
    requires Allowed(tree.nodes, tree.catalog) && tree.catalog == v.catalog
    requires Forest(v.graph) && Validate(v, op).None? && AppliedNodes(tree, op).Some?
    requires op.InsertBlock? || op.DeleteBlock? || op.MoveBlock? || op.ReplaceBlockKind?
    ensures Allowed(AppliedNodes(tree, op).value, tree.catalog)
  {
    match op
    case InsertBlock(block, kind, parent, after) =>
      var n := Node(block, kind, parent, 0, [], [], [], []);
      assert NodeAllowed(n, tree.catalog);
      PlacedAllowed(tree.nodes + [n], block, parent, after, tree.catalog);
    case DeleteBlock(block) => DeletedAllowed(tree.nodes, block, tree.catalog);
    case MoveBlock(block, parent, after) => PlacedAllowed(tree.nodes, block, parent, after, tree.catalog);
    case ReplaceBlockKind(block, kind) =>
  }

  lemma {:induction false} RelationWithAllowed(relation: Relation, moved: RelationItem, after: ItemID, kind: BlockKind, c: Catalog)
    requires RelationAllowed(relation, kind, c)
    requires (kind, relation.id) in c.relations && moved.kind in c.relations[(kind, relation.id)]
    ensures RelationAllowed(RelationWith(relation, moved, after), kind, c)
  {
    var others := WithoutId(relation.items, moved.id);
    var placed := PlacedItem(others, moved, after);
    forall k | 0 <= k < |placed| ensures placed[k].kind in c.relations[(kind, relation.id)] {
      assert placed[k] == moved || placed[k] in others;
    }
  }

  lemma {:induction false} RelationWithoutAllowed(relation: Relation, item: ItemID, kind: BlockKind, c: Catalog)
    requires RelationAllowed(relation, kind, c)
    ensures RelationAllowed(RelationWithout(relation, item), kind, c)
  {
    var rest := WithoutId(relation.items, item);
    forall k | 0 <= k < |rest| ensures (kind, relation.id) in c.relations && rest[k].kind in c.relations[(kind, relation.id)] {
      assert rest[k] in rest;
      assert rest[k] in relation.items;
    }
  }

  lemma {:induction false} InsertedItemAllowed(
    nodes: seq<Node>, block: BlockID, relation: RelationID, item: RelationItem, after: ItemID, kind: BlockKind, c: Catalog)
    requires Allowed(nodes, c) && InsertedItem(nodes, block, relation, item, after).Some?
    requires nodes[Find(nodes, NodeId, block)].kind == kind && (kind, relation) in c.relations && item.kind in c.relations[(kind, relation)]
    ensures Allowed(InsertedItem(nodes, block, relation, item, after).value, c)
  {
    var i := Find(nodes, NodeId, block);
    var n := nodes[i];
    var r := Find(n.relations, RelationId, relation);
    assert NodeAllowed(n, c);
    RelationWithAllowed(if r == |n.relations| then Relation(relation, []) else n.relations[r], item, after, kind, c);
    assert NodeAllowed(n.(relations := RelationsWith(n.relations, relation, item, after)), c);
  }

  lemma {:induction false} DeletedItemAllowed(nodes: seq<Node>, block: BlockID, relation: RelationID, item: ItemID, c: Catalog)
    requires Allowed(nodes, c) && DeletedItem(nodes, block, relation, item).Some?
    ensures Allowed(DeletedItem(nodes, block, relation, item).value, c)
    ensures forall b :: Find(DeletedItem(nodes, block, relation, item).value, NodeId, b) == Find(nodes, NodeId, b)
    ensures forall i :: 0 <= i < |nodes| ==> DeletedItem(nodes, block, relation, item).value[i].kind == nodes[i].kind
  {
    var i := Find(nodes, NodeId, block);
    var n := nodes[i];
    var r := Find(n.relations, RelationId, relation);
    assert NodeAllowed(n, c);
    RelationWithoutAllowed(n.relations[r], item, n.kind, c);
    var m := n.(relations := n.relations[r := RelationWithout(n.relations[r], item)]);
    assert NodeAllowed(m, c);
    forall b ensures Find(nodes[i := m], NodeId, b) == Find(nodes, NodeId, b) {
      FindSameIds(nodes[i := m], nodes, NodeId, b);
    }
  }

  /** What the graph says of a block and of an item in the tree. */
  lemma {:induction false} KindsThere(tree: Tree, v: Validator, block: BlockID, relation: RelationID, item: ItemID)
    requires Covered(tree, v)
    ensures var i := Find(tree.nodes, NodeId, block); i < |tree.nodes| ==> block in v.graph && tree.nodes[i].kind == v.graph[block].kind
    ensures ItemAt(tree.nodes, block, relation, item).Some? ==>
              RequireRelationItem(v.graph, block, relation, item).None? &&
              ItemAt(tree.nodes, block, relation, item).value.kind == v.graph[block].relations[relation][item]
  {
    var g := GraphOf(tree.nodes);
    GraphHas(tree.nodes, block);
    ItemAtGraph(tree.nodes, block, relation, item);
    if block in g {
      assert CoversBlock(g[block], v.graph[block]);
      if relation in g[block].relations {
        assert CoversItems(g[block].relations[relation], v.graph[block].relations[relation]);
      }
    }
  }

  lemma {:induction false} MovedItemAllowed(tree: Tree, v: Validator, op: Operation)
    requires Covered(tree, v) && Allowed(tree.nodes, tree.catalog) && Validate(v, op).None? && AppliedNodes(tree, op).Some?
    requires op.MoveRelationItem?
    ensures Allowed(AppliedNodes(tree, op).value, tree.catalog)
  {
    var MoveRelationItem(block, relation, item, targetBlock, targetRelation, after) := op;
    var moved, taken := ItemAt(tree.nodes, block, relation, item).value, DeletedItem(tree.nodes, block, relation, item).value;
    KindsThere(tree, v, block, relation, item);
    KindsThere(tree, v, targetBlock, relation, item);
    DeletedItemAllowed(tree.nodes, block, relation, item, tree.catalog);
    InsertedItemAllowed(taken, targetBlock, targetRelation, moved, after, v.graph[targetBlock].kind, tree.catalog);
  }

  lemma {:induction false} ItemStepAllowed(tree: Tree, v: Validator, op: Operation)
    requires Covered(tree, v) && Allowed(tree.nodes, tree.catalog) && Validate(v, op).None? && AppliedNodes(tree, op).Some?
    requires op.InsertRelationItem? || op.DeleteRelationItem? || op.MoveRelationItem?
    ensures Allowed(AppliedNodes(tree, op).value, tree.catalog)
  {
    match op
    case InsertRelationItem(block, relation, item, kind, after) =>
      KindsThere(tree, v, block, relation, item);
      InsertedItemAllowed(tree.nodes, block, relation, RelationItem(item, kind, 0, [], [], []), after, v.graph[block].kind, tree.catalog);
    case DeleteRelationItem(block, relation, item) =>
      DeletedItemAllowed(tree.nodes, block, relation, item, tree.catalog);
    case MoveRelationItem(_, _, _, _, _, _) => MovedItemAllowed(tree, v, op);
  }

  lemma {:induction false} UntranslatedAllowed(nodes: seq<Node>, c: Catalog)
    requires Allowed(nodes, c)
    ensures Allowed(Map(nodes, UntranslatedNode), c)
  {
    forall i | 0 <= i < |nodes| ensures NodeAllowed(UntranslatedNode(nodes[i]), c) {
      var n := nodes[i];
      assert NodeAllowed(n, c);
      forall r | 0 <= r < |n.relations| ensures RelationAllowed(UntranslatedRelation(n.relations[r]), n.kind, c) {
        assert RelationAllowed(n.relations[r], n.kind, c);
      }
    }
  }

  lemma {:induction false} StepAllowed(tree: Tree, v: Validator, op: Operation)
    requires Covered(tree, v) && Allowed(tree.nodes, tree.catalog) && Validate(v, op).None? && Applied(tree, op).Some?
    ensures Allowed(Applied(tree, op).value.nodes, tree.catalog)
  {
    if ChangeOf(op).Some? {
      FieldStepAllowed(tree, op);
    } else if op.InsertBlock? || op.DeleteBlock? || op.MoveBlock? || op.ReplaceBlockKind? {
      BlockStepAllowed(tree, v, op);
    } else if op.DeleteTranslation? {
      UntranslatedAllowed(tree.nodes, tree.catalog);
    } else if !op.CreateTranslation? {
      ItemStepAllowed(tree, v, op);
    }
  }

  /** An accepted batch that applies leaves every block with a kind of the catalog, and
      every item with a kind that its relation takes. */
  lemma {:induction false} BatchAllowed(tree: Tree, v: Validator, ops: seq<Operation>)
    requires Covered(tree, v) && Allowed(tree.nodes, tree.catalog) && AcceptedAll(v, ops) && AppliedAll(tree, ops).Some?
    ensures Allowed(AppliedAll(tree, ops).value.nodes, tree.catalog)
    decreases |ops|
  {
    if ops != [] {
      StepAllowed(tree, v, ops[0]);
      CoveredStep(tree, v, ops[0]);
      BatchAllowed(Applied(tree, ops[0]).value, Accepted(v, ops[0]), ops[1..]);
    }
  }

  lemma {:induction false} CanonicalNodeAllowed(n: Node, c: Catalog)
    requires NodeAllowed(n, c)
    ensures NodeAllowed(CanonicalNode(n), c)
  {
    var clones := Map(n.relations, CanonicalRelation);
    var sorted := SortBy(clones, RelationKey);
    forall r | 0 <= r < |sorted| ensures RelationAllowed(sorted[r], n.kind, c) {
      SortElements(clones, RelationKey, sorted[r]);
      var j :| 0 <= j < |clones| && clones[j] == sorted[r];
      CanonicalRelationAllowed(n.relations[j], n.kind, c);
    }
  }

  lemma {:induction false} CanonicalRelationAllowed(r: Relation, kind: BlockKind, c: Catalog)
    requires RelationAllowed(r, kind, c)
    ensures RelationAllowed(CanonicalRelation(r), kind, c)
  {
    var clones := Map(r.items, CanonicalItem);
    var sorted := SortBy(clones, ItemKey);
    forall k | 0 <= k < |sorted| ensures (kind, r.id) in c.relations && sorted[k].kind in c.relations[(kind, r.id)] {
      SortElements(clones, ItemKey, sorted[k]);
      var j :| 0 <= j < |clones| && clones[j] == sorted[k];
      assert clones[j].kind == r.items[j].kind;
    }
  }

  lemma {:induction false} ListingAllowed(nodes: seq<Node>, c: Catalog)
    requires Named(nodes) && Allowed(nodes, c) && multiset(Canonical(nodes)) == multiset(Map(nodes, CanonicalNode))
    ensures Allowed(Canonical(nodes), c)
  {
    var clones, listed := Map(nodes, CanonicalNode), Canonical(nodes);
    SameMultisetMembers(listed, clones);
    forall i | 0 <= i < |listed| ensures NodeAllowed(listed[i], c) {
      assert listed[i] in clones;
      var j :| 0 <= j < |clones| && clones[j] == listed[i];
      CanonicalNodeAllowed(nodes[j], c);
    }
  }

  /** From a stored document the catalog allows, a whole update leaves one it allows. */
  lemma {:induction false} UpdateAllowed(document: Tree, v: Validator, ops: seq<Operation>)
    requires ValidCatalog(document.catalog) && document.catalog == v.catalog
    requires LoadedNodes(document.nodes) && Forest(GraphOf(document.nodes)) && Agrees(document, v) && AcceptedAll(v, ops)
    requires Allowed(document.nodes, document.catalog) && AppliedAll(Opened(document), ops).Some?
    ensures var last := AppliedAll(Opened(document), ops).value;
            GoodNodes(last.nodes) && Allowed(Opened(last).nodes, document.catalog)
  {
    ListingKeeps(document.nodes);
    ListingAllowed(document.nodes, document.catalog);
    AgreesCovers(v.graph);
    BatchAllowed(Opened(document), v, ops);
    BatchCovered(Opened(document), v, ops);
    AcceptedThroughKeeps(v, ops);
    var last := AppliedAll(Opened(document), ops).value;
    CoveredForest(GraphOf(last.nodes), AcceptedThrough(v, ops).graph);
    GoodIsLoaded(last.nodes);
    ListingKeeps(last.nodes);
    ListingAllowed(last.nodes, document.catalog);
  }
}
