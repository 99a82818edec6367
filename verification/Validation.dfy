/** Validation of an operation batch against the catalog and a block graph that
    each accepted operation advances. */
module Validation {
  import opened Lists
  import opened Values
  import opened Schemas
  import opened Documents
  import opened BlockGraph

  datatype Issue =
    | InvalidOperation | UnknownBlock | DuplicateBlock | UnknownBlockKind | UnknownField
    | UnknownRelation | UnknownRelationItem | DuplicateRelationItem | InvalidRelationItemMove
    | ValueKindMismatch | SourceAuthorityRequired | TargetFieldForbidden
    | InvalidBlockRelation | BlockCycle | InvalidFileReference
    | TranslationIsSource | TranslationAlreadyExists | TranslationMissing | LocaleOperationNotExclusive

  datatype Lookup<T> = Found(value: T) | Refused(issue: Issue)

  /** What validation knows: the fixed request facts, and the graph and locale state
      that the batch's earlier accepted operations left behind. */
  datatype Validator = Validator(
    role: Role, localeExists: bool, batchSize: nat, catalog: Catalog, strings: Strings, graph: Graph)

  // ----- field targets -----

  predicate CanonicalTarget(t: Target) {
    && t.block != NONE && t.field != NONE && ((t.relation != NONE) == (t.item != NONE))
    && (forall i :: 0 <= i < |t.path| ==> ValidSegment(t.path[i]))
  }

  function FieldRuleOf(v: Validator, t: Target): Lookup<FieldRule> {
    if t.block !in v.graph then Refused(UnknownBlock)
    else
      var block := v.graph[t.block];
      if !t.OnItem() then
        if (block.kind, t.field) in v.catalog.fields then Found(v.catalog.fields[(block.kind, t.field)]) else Refused(UnknownField)
      else if t.relation !in block.relations then Refused(UnknownRelation)
      else if t.item !in block.relations[t.relation] then Refused(UnknownRelationItem)
      else
        var key := (block.kind, t.relation, block.relations[t.relation][t.item], t.field);
        if key in v.catalog.relationFields then Found(v.catalog.relationFields[key]) else Refused(UnknownField)
  }

  function ResolveField(v: Validator, t: Target): Lookup<Resolved> {
    if !CanonicalTarget(t) then Refused(InvalidOperation)
    else
      match FieldRuleOf(v, t)
      case Refused(issue) => Refused(issue)
      case Found(rule) =>
        match Resolve(rule, t.path)
        case None => Refused(UnknownField)
        case Some(resolved) => Found(resolved)
  }

  function ValidateSetField(v: Validator, t: Target, value: Value): Option<Issue> {
    match ResolveField(v, t)
    case Refused(issue) => Some(issue)
    case Found(rule) =>
      if rule.file then Some(UnknownField)
      else if value.Kind() != rule.kind then Some(ValueKindMismatch)
      else if !ValidValue(value, 0, v.strings) then Some(ValueKindMismatch)
      else if rule.schema.Some? && !FitsSchema(value, rule.schema.value, 0, v.strings) then Some(ValueKindMismatch)
      else if v.role.NonSourceLocale? && (rule.ownership != Locale || !rule.translatable) then Some(TargetFieldForbidden)
      else None
  }

  function ValidateUnsetField(v: Validator, t: Target): Option<Issue> {
    match ResolveField(v, t)
    case Refused(issue) => Some(issue)
    case Found(rule) =>
      if v.role.NonSourceLocale? then Some(TargetFieldForbidden)
      else if rule.file then Some(TargetFieldForbidden)
      else None
  }

  function RequireFileSlot(v: Validator, t: Target): Option<Issue> {
    if v.role.NonSourceLocale? then Some(SourceAuthorityRequired)
    else
      match ResolveField(v, t)
      case Refused(issue) => Some(issue)
      case Found(rule) => if rule.file then None else Some(UnknownField)
  }

  // ----- blocks -----

  function ValidatePlacement(g: Graph, moving: BlockID, parent: BlockID, after: BlockID): Option<Issue> {
    if parent != NONE && parent !in g then Some(InvalidBlockRelation)
    else if after == NONE then None
    else if after !in g then Some(InvalidBlockRelation)
    else if after == moving then Some(InvalidBlockRelation)
    else if g[after].parent != parent then Some(InvalidBlockRelation)
    else None
  }

  function ValidateInsertBlock(v: Validator, block: BlockID, kind: BlockKind, parent: BlockID, after: BlockID): Option<Issue> {
    if v.role.NonSourceLocale? then Some(SourceAuthorityRequired)
    else if block == NONE then Some(InvalidOperation)
    else if block in v.graph then Some(DuplicateBlock)
    else if kind !in v.catalog.kinds then Some(UnknownBlockKind)
    else ValidatePlacement(v.graph, block, parent, after)
  }

  function ValidateMoveBlock(v: Validator, block: BlockID, parent: BlockID, after: BlockID): Option<Issue>
    requires Forest(v.graph)
  {
    if v.role.NonSourceLocale? then Some(SourceAuthorityRequired)
    else if block !in v.graph then Some(UnknownBlock)
    else if parent == block || IsDescendant(v.graph, parent, block) then Some(BlockCycle)
    else ValidatePlacement(v.graph, block, parent, after)
  }

  // ----- relation items -----

  function RequireRelationItem(g: Graph, block: BlockID, relation: RelationID, item: ItemID): Option<Issue> {
    if block !in g then Some(UnknownBlock)
    else if relation !in g[block].relations then Some(UnknownRelation)
    else if item !in g[block].relations[relation] then Some(UnknownRelationItem)
    else None
  }

  /** Some relation of some block already holds the item. */
  predicate RelationItemExists(g: Graph, item: ItemID) {
    exists block, relation :: block in g && relation in g[block].relations && item in g[block].relations[relation]
  }

  function ValidateRelationPlacement(g: Graph, block: BlockID, relation: RelationID, moving: ItemID, after: ItemID): Option<Issue> {
    if block !in g then Some(UnknownBlock)
    else if after == NONE then None
    else if after == moving then Some(InvalidRelationItemMove)
    else if relation !in g[block].relations || after !in g[block].relations[relation] then Some(InvalidRelationItemMove)
    else None
  }

  predicate RelationIds(block: BlockID, relation: RelationID, item: ItemID) {
    block != NONE && relation != NONE && item != NONE
  }

  function ValidateInsertRelationItem(
    v: Validator, block: BlockID, relation: RelationID, item: ItemID, kind: ItemKind, after: ItemID): Option<Issue>
  {
    if v.role.NonSourceLocale? then Some(SourceAuthorityRequired)
    else if !RelationIds(block, relation, item) || kind == NONE then Some(InvalidOperation)
    else if block !in v.graph then Some(UnknownBlock)
    else if (v.graph[block].kind, relation) !in v.catalog.relations then Some(UnknownRelation)
    else if kind !in v.catalog.relations[(v.graph[block].kind, relation)] then Some(InvalidRelationItemMove)
    else if RelationItemExists(v.graph, item) then Some(DuplicateRelationItem)
    else ValidateRelationPlacement(v.graph, block, relation, item, after)
  }

  function ValidateDeleteRelationItem(v: Validator, block: BlockID, relation: RelationID, item: ItemID): Option<Issue> {
    if v.role.NonSourceLocale? then Some(SourceAuthorityRequired)
    else if !RelationIds(block, relation, item) then Some(InvalidOperation)
    else RequireRelationItem(v.graph, block, relation, item)
  }

  function ValidateMoveRelationItem(
    v: Validator, block: BlockID, relation: RelationID, item: ItemID,
    targetBlock: BlockID, targetRelation: RelationID, after: ItemID): Option<Issue>
  {
    if v.role.NonSourceLocale? then Some(SourceAuthorityRequired)
    else if !RelationIds(block, relation, item) || !RelationIds(targetBlock, targetRelation, item) then Some(InvalidOperation)
    else if RequireRelationItem(v.graph, block, relation, item).Some? then RequireRelationItem(v.graph, block, relation, item)
    else if targetBlock !in v.graph then Some(UnknownBlock)
    else
      var key := (v.graph[targetBlock].kind, targetRelation);
      if key !in v.catalog.relations then Some(UnknownRelation)
      else if v.graph[block].relations[relation][item] !in v.catalog.relations[key] then Some(InvalidRelationItemMove)
      else ValidateRelationPlacement(v.graph, targetBlock, targetRelation, item, after)
  }

  // ----- one operation -----

  function ValidateTranslation(v: Validator, create: bool): Option<Issue> {
    if v.role.SourceLocale? then Some(TranslationIsSource)
    else if v.batchSize != 1 then Some(LocaleOperationNotExclusive)
    else if create && v.localeExists then Some(TranslationAlreadyExists)
    else if !create && !v.localeExists then Some(TranslationMissing)
    else None
  }

  function Validate(v: Validator, op: Operation): Option<Issue>
    requires Forest(v.graph)
  {
    match op
    case SetField(t, value) => ValidateSetField(v, t, value)
    case UnsetField(t) => ValidateUnsetField(v, t)
    case AttachFile(t, file) =>
      if RequireFileSlot(v, t).Some? then RequireFileSlot(v, t)
      else if file == NONE then Some(InvalidFileReference) else None
    case DetachFile(t) => RequireFileSlot(v, t)
    case InsertBlock(block, kind, parent, after) => ValidateInsertBlock(v, block, kind, parent, after)
    case DeleteBlock(block) =>
      if v.role.NonSourceLocale? then Some(SourceAuthorityRequired)
      else if block !in v.graph then Some(UnknownBlock) else None
    case MoveBlock(block, parent, after) => ValidateMoveBlock(v, block, parent, after)
    case ReplaceBlockKind(block, kind) =>
      if v.role.NonSourceLocale? then Some(SourceAuthorityRequired)
      else if block !in v.graph then Some(UnknownBlock)
      else if kind !in v.catalog.kinds then Some(UnknownBlockKind) else None
    case InsertRelationItem(block, relation, item, kind, after) => ValidateInsertRelationItem(v, block, relation, item, kind, after)
    case DeleteRelationItem(block, relation, item) => ValidateDeleteRelationItem(v, block, relation, item)
    case MoveRelationItem(block, relation, item, targetBlock, targetRelation, after) =>
      ValidateMoveRelationItem(v, block, relation, item, targetBlock, targetRelation, after)
    case CreateTranslation => ValidateTranslation(v, true)
    case DeleteTranslation => ValidateTranslation(v, false)
  }

  // ----- the effect of an accepted operation on the graph -----

  function WithItem(block: GraphBlock, relation: RelationID, item: ItemID, kind: ItemKind): GraphBlock {
    var items := if relation in block.relations then block.relations[relation] else map[];
    block.(relations := block.relations[relation := items[item := kind]])
  }

  function WithoutItem(block: GraphBlock, relation: RelationID, item: ItemID): GraphBlock {
    if relation in block.relations then block.(relations := block.relations[relation := block.relations[relation] - {item}])
    else block
  }

  /** The blocks an operation needs are there. */
  predicate OwnersPresent(g: Graph, op: Operation) {
    match op
    case MoveBlock(block, _, _) => block in g
    case ReplaceBlockKind(block, _) => block in g
    case InsertRelationItem(block, _, _, _, _) => block in g
    case DeleteRelationItem(block, _, _) => block in g
    case MoveRelationItem(block, relation, item, targetBlock, _, _) =>
      block in g && targetBlock in g && relation in g[block].relations && item in g[block].relations[relation]
    case _ => true
  }

  ghost function GraphEffect(g: Graph, op: Operation): Graph
    requires OwnersPresent(g, op)
  {
    match op
    case InsertBlock(block, kind, parent, _) => g[block := GraphBlock(kind, parent, map[])]
    case DeleteBlock(block) => g - Removed(g, block)
    case MoveBlock(block, parent, _) => Moved(g, block, parent)
    case ReplaceBlockKind(block, kind) => g[block := g[block].(kind := kind)]
    case InsertRelationItem(block, relation, item, kind, _) => g[block := WithItem(g[block], relation, item, kind)]
    case DeleteRelationItem(block, relation, item) => g[block := WithoutItem(g[block], relation, item)]
    case MoveRelationItem(block, relation, item, targetBlock, targetRelation, _) =>
      var kind := g[block].relations[relation][item];
      var taken := g[block := WithoutItem(g[block], relation, item)];
      taken[targetBlock := WithItem(taken[targetBlock], targetRelation, item, kind)]
    case _ => g
  }

  function LocaleEffect(exists_: bool, op: Operation): bool {
    match op
    case CreateTranslation => true
    case DeleteTranslation => false
    case _ => exists_
  }

  lemma AcceptedHasOwners(v: Validator, op: Operation)
    requires Forest(v.graph) && Validate(v, op).None?
    ensures OwnersPresent(v.graph, op)
  {
  }

  ghost function Accepted(v: Validator, op: Operation): Validator
    requires Forest(v.graph) && Validate(v, op).None?
  {
    AcceptedHasOwners(v, op);
    v.(graph := GraphEffect(v.graph, op), localeExists := LocaleEffect(v.localeExists, op))
  }

  /** Every accepted operation keeps the blocks a forest. */
  lemma AcceptedKeepsForest(v: Validator, op: Operation)
    requires Forest(v.graph) && Validate(v, op).None?
    ensures Forest(Accepted(v, op).graph)
  {
    var g, h := v.graph, Accepted(v, op).graph;
    match op
    case InsertBlock(block, kind, parent, _) => ForestInsert(g, block, GraphBlock(kind, parent, map[]));
    case DeleteBlock(block) => ForestDelete(g, block);
    case MoveBlock(block, parent, _) =>
      IsDescendantIffBelow(g, parent, block);
      ForestMoveIff(g, block, parent);
    case _ => ForestSameParents(g, h);
  }

  /** The check of a move is exact: a move in the source locale is accepted if and
      only if it leaves a forest and its anchor is another child of the new parent. */
  lemma MoveAcceptedIff(v: Validator, block: BlockID, parent: BlockID, after: BlockID)
    requires Forest(v.graph) && v.role.SourceLocale? && block in v.graph
    ensures ValidateMoveBlock(v, block, parent, after).None? <==>
              Forest(Moved(v.graph, block, parent)) &&
              (after == NONE || (after != block && after in v.graph && v.graph[after].parent == parent))
  {
    IsDescendantIffBelow(v.graph, parent, block);
    ForestMoveIff(v.graph, block, parent);
    assert Climbs(v.graph, block, 0, block);
  }

  // ----- the batch -----

  /** The issues of a batch: a refused operation is reported and skipped. */
  ghost function IssuesFrom(v: Validator, ops: seq<Operation>, k: nat): seq<(nat, Issue)>
    requires Forest(v.graph) && k <= |ops|
    decreases |ops| - k
  {
    if k == |ops| then []
    else
      match Validate(v, ops[k])
      case Some(issue) => [(k, issue)] + IssuesFrom(v, ops, k + 1)
      case None =>
        AcceptedKeepsForest(v, ops[k]);
        IssuesFrom(Accepted(v, ops[k]), ops, k + 1)
  }

  lemma IssuesStep(v: Validator, ops: seq<Operation>, k: nat, issues: seq<(nat, Issue)>)
    requires Forest(v.graph) && k < |ops|
    ensures match Validate(v, ops[k])
            case Some(issue) => issues + IssuesFrom(v, ops, k) == issues + [(k, issue)] + IssuesFrom(v, ops, k + 1)
            case None => Forest(Accepted(v, ops[k]).graph) && IssuesFrom(v, ops, k) == IssuesFrom(Accepted(v, ops[k]), ops, k + 1)
  {
    if Validate(v, ops[k]).None? {
      AcceptedKeepsForest(v, ops[k]);
    } else {
      Associative(issues, [(k, Validate(v, ops[k]).value)], IssuesFrom(v, ops, k + 1));
    }
  }

  /** The validator that checks a batch, and what it changes as it goes. */
  class OperationValidator {
    const role: Role
    const batchSize: nat
    const catalog: Catalog
    const strings: Strings
    var index: nat
    var localeExists: bool
    var graph: Graph

    ghost function State(): Validator
      reads this
    {
      Validator(role, localeExists, batchSize, catalog, strings, graph)
    }

    constructor (v: Validator)
      ensures State() == v
    {
      role, batchSize, catalog, strings := v.role, v.batchSize, v.catalog, v.strings;
      index, localeExists, graph := 0, v.localeExists, v.graph;
    }

    method Canonical(t: Target) returns (ok: bool)
      ensures ok == CanonicalTarget(t)
    {
      if t.block == NONE || t.field == NONE || (t.relation != NONE) != (t.item != NONE) {
        return false;
      }
      for k := 0 to |t.path|
        invariant forall i :: 0 <= i < k ==> ValidSegment(t.path[i])
      {
        if !ValidSegment(t.path[k]) {
          return false;
        }
      }
      return true;
    }

    /** The rule of a block field, or of an item's field by the item's kind. */
    method RuleAt(t: Target) returns (r: Lookup<FieldRule>)
      ensures r == FieldRuleOf(State(), t)
    {
      if t.block !in graph {
        return Refused(UnknownBlock);
      }
      var block := graph[t.block];
      if t.OnItem() {
        if t.relation !in block.relations {
          return Refused(UnknownRelation);
        }
        if t.item !in block.relations[t.relation] {
          return Refused(UnknownRelationItem);
        }
        var key := (block.kind, t.relation, block.relations[t.relation][t.item], t.field);
        return if key in catalog.relationFields then Found(catalog.relationFields[key]) else Refused(UnknownField);
      }
      return if (block.kind, t.field) in catalog.fields then Found(catalog.fields[(block.kind, t.field)]) else Refused(UnknownField);
    }

    method ResolveTarget(t: Target) returns (r: Lookup<Resolved>)
      ensures r == ResolveField(State(), t)
    {
      var canonical := Canonical(t);
      if !canonical {
        return Refused(InvalidOperation);
      }
      var rule := RuleAt(t);
      if rule.Refused? {
        return Refused(rule.issue);
      }
      var resolved := ResolveNestedFieldRule(rule.value, t.path);
      return if resolved.None? then Refused(UnknownField) else Found(resolved.value);
    }

    method CheckSetField(t: Target, value: Value) returns (issue: Option<Issue>)
      ensures issue == ValidateSetField(State(), t, value)
    {
      var r := ResolveTarget(t);
      if r.Refused? {
        return Some(r.issue);
      }
      var rule := r.value;
      if rule.file {
        return Some(UnknownField);
      }
      if value.Kind() != rule.kind || !ValidValue(value, 0, strings) {
        return Some(ValueKindMismatch);
      }
      if rule.schema.Some? && !FitsSchema(value, rule.schema.value, 0, strings) {
        return Some(ValueKindMismatch);
      }
      if role.NonSourceLocale? && (rule.ownership != Locale || !rule.translatable) {
        return Some(TargetFieldForbidden);
      }
      return None;
    }

    method CheckUnsetField(t: Target) returns (issue: Option<Issue>)
      ensures issue == ValidateUnsetField(State(), t)
    {
      var r := ResolveTarget(t);
      if r.Refused? {
        return Some(r.issue);
      }
      return if role.NonSourceLocale? || r.value.file then Some(TargetFieldForbidden) else None;
    }

    method CheckFileSlot(t: Target) returns (issue: Option<Issue>)
      ensures issue == RequireFileSlot(State(), t)
    {
      if role.NonSourceLocale? {
        return Some(SourceAuthorityRequired);
      }
      var r := ResolveTarget(t);
      if r.Refused? {
        return Some(r.issue);
      }
      return if r.value.file then None else Some(UnknownField);
    }

    method CheckMoveBlock(block: BlockID, parent: BlockID, after: BlockID) returns (issue: Option<Issue>)
      requires Forest(graph)
      ensures issue == ValidateMoveBlock(State(), block, parent, after)
    {
      if role.NonSourceLocale? {
        return Some(SourceAuthorityRequired);
      }
      if block !in graph {
        return Some(UnknownBlock);
      }
      var below := IsDescendantWalk(graph, parent, block);
      if parent == block || below {
        return Some(BlockCycle);
      }
      return ValidatePlacement(graph, block, parent, after);
    }

    /** Looks through every relation of every block, in any order. */
    method ItemExists(item: ItemID) returns (found: bool)
      ensures found == RelationItemExists(graph, item)
    {
      var blocks := graph.Keys;
      while blocks != {}
        invariant blocks <= graph.Keys
        invariant forall b, r :: b in graph && b !in blocks && r in graph[b].relations ==> item !in graph[b].relations[r]
        decreases blocks
      {
        var block :| block in blocks;
        var relations := graph[block].relations.Keys;
        while relations != {}
          invariant relations <= graph[block].relations.Keys
          invariant forall r :: r in graph[block].relations && r !in relations ==> item !in graph[block].relations[r]
          decreases relations
        {
          var relation :| relation in relations;
          if item in graph[block].relations[relation] {
            return true;
          }
          relations := relations - {relation};
        }
        blocks := blocks - {block};
      }
      return false;
    }

    method CheckInsertItem(block: BlockID, relation: RelationID, item: ItemID, kind: ItemKind, after: ItemID) returns (issue: Option<Issue>)
      ensures issue == ValidateInsertRelationItem(State(), block, relation, item, kind, after)
    {
      if role.NonSourceLocale? {
        return Some(SourceAuthorityRequired);
      }
      if !RelationIds(block, relation, item) || kind == NONE {
        return Some(InvalidOperation);
      }
      if block !in graph {
        return Some(UnknownBlock);
      }
      if (graph[block].kind, relation) !in catalog.relations {
        return Some(UnknownRelation);
      }
      if kind !in catalog.relations[(graph[block].kind, relation)] {
        return Some(InvalidRelationItemMove);
      }
      var duplicate := ItemExists(item);
      if duplicate {
        return Some(DuplicateRelationItem);
      }
      return ValidateRelationPlacement(graph, block, relation, item, after);
    }

    method CheckMoveItem(block: BlockID, relation: RelationID, item: ItemID,
                         targetBlock: BlockID, targetRelation: RelationID, after: ItemID) returns (issue: Option<Issue>)
      ensures issue == ValidateMoveRelationItem(State(), block, relation, item, targetBlock, targetRelation, after)
    {
      if role.NonSourceLocale? {
        return Some(SourceAuthorityRequired);
      }
      if !RelationIds(block, relation, item) || !RelationIds(targetBlock, targetRelation, item) {
        return Some(InvalidOperation);
      }
      issue := RequireRelationItem(graph, block, relation, item);
      if issue.Some? {
        return;
      }
      if targetBlock !in graph {
        return Some(UnknownBlock);
      }
      var key := (graph[targetBlock].kind, targetRelation);
      if key !in catalog.relations {
        return Some(UnknownRelation);
      }
      if graph[block].relations[relation][item] !in catalog.relations[key] {
        return Some(InvalidRelationItemMove);
      }
      return ValidateRelationPlacement(graph, targetBlock, targetRelation, item, after);
    }

    method CheckTranslation(create: bool) returns (issue: Option<Issue>)
      ensures issue == ValidateTranslation(State(), create)
    {
      if role.SourceLocale? {
        return Some(TranslationIsSource);
      }
      if batchSize != 1 {
        return Some(LocaleOperationNotExclusive);
      }
      if create == localeExists {
        return Some(if create then TranslationAlreadyExists else TranslationMissing);
      }
      return None;
    }

    /** Dispatches to the check of the operation's kind. No issue means that the
        operation keeps the blocks a forest and finds its blocks and items. */
    method Check(op: Operation) returns (issue: Option<Issue>)
      requires Forest(graph)
      ensures issue == Validate(State(), op)
      ensures issue.None? ==> OwnersPresent(graph, op) && Forest(GraphEffect(graph, op))
    {
      match op {
        case SetField(t, value) => issue := CheckSetField(t, value);
        case UnsetField(t) => issue := CheckUnsetField(t);
        case AttachFile(t, file) =>
          issue := CheckFileSlot(t);
          if issue.None? && file == NONE {
            issue := Some(InvalidFileReference);
          }
        case DetachFile(t) => issue := CheckFileSlot(t);
        case InsertBlock(block, kind, parent, after) => issue := CheckInsertBlock(block, kind, parent, after);
        case DeleteBlock(block) =>
          issue := if role.NonSourceLocale? then Some(SourceAuthorityRequired) else if block !in graph then Some(UnknownBlock) else None;
        case MoveBlock(block, parent, after) => issue := CheckMoveBlock(block, parent, after);
        case ReplaceBlockKind(block, kind) =>
          issue := if role.NonSourceLocale? then Some(SourceAuthorityRequired)
                   else if block !in graph then Some(UnknownBlock)
                   else if kind !in catalog.kinds then Some(UnknownBlockKind) else None;
        case InsertRelationItem(block, relation, item, kind, after) => issue := CheckInsertItem(block, relation, item, kind, after);
        case DeleteRelationItem(block, relation, item) =>
          issue := if role.NonSourceLocale? then Some(SourceAuthorityRequired)
                   else if !RelationIds(block, relation, item) then Some(InvalidOperation)
                   else RequireRelationItem(graph, block, relation, item);
        case MoveRelationItem(block, relation, item, targetBlock, targetRelation, after) =>
          issue := CheckMoveItem(block, relation, item, targetBlock, targetRelation, after);
        case CreateTranslation => issue := CheckTranslation(true);
        case DeleteTranslation => issue := CheckTranslation(false);
      }
      if issue.None? {
        AcceptedKeepsForest(State(), op);
      }
    }

    method CheckInsertBlock(block: BlockID, kind: BlockKind, parent: BlockID, after: BlockID) returns (issue: Option<Issue>)
      ensures issue == ValidateInsertBlock(State(), block, kind, parent, after)
    {
      if role.NonSourceLocale? {
        return Some(SourceAuthorityRequired);
      }
      if block == NONE {
        return Some(InvalidOperation);
      }
      if block in graph {
        return Some(DuplicateBlock);
      }
      if kind !in catalog.kinds {
        return Some(UnknownBlockKind);
      }
      return ValidatePlacement(graph, block, parent, after);
    }

    /** Advances the graph and the locale state by an accepted operation. */
    method Accept(op: Operation)
      requires Forest(graph) && Validate(State(), op).None?
      modifies this`graph, this`localeExists
      ensures State() == Accepted(old(State()), op)
      ensures Forest(graph)
    {
      AcceptedHasOwners(State(), op);
      AcceptedKeepsForest(State(), op);
      match op {
        case InsertBlock(block, kind, parent, _) =>
          graph := graph[block := GraphBlock(kind, parent, map[])];
        case DeleteBlock(block) =>
          var remove := RemovedBlocks(graph, block);
          graph := graph - remove;
        case MoveBlock(block, parent, _) =>
          graph := graph[block := graph[block].(parent := parent)];
        case ReplaceBlockKind(block, kind) =>
          graph := graph[block := graph[block].(kind := kind)];
        case InsertRelationItem(block, relation, item, kind, _) =>
          graph := graph[block := WithItem(graph[block], relation, item, kind)];
        case DeleteRelationItem(block, relation, item) =>
          graph := graph[block := WithoutItem(graph[block], relation, item)];
        case MoveRelationItem(block, relation, item, targetBlock, targetRelation, _) =>
          var kind := graph[block].relations[relation][item];
          graph := graph[block := WithoutItem(graph[block], relation, item)];
          graph := graph[targetBlock := WithItem(graph[targetBlock], targetRelation, item, kind)];
        case CreateTranslation =>
          localeExists := true;
        case DeleteTranslation =>
          localeExists := false;
        case _ =>
      }
    }
  }

  method ValidateOperations(start: Validator, ops: seq<Operation>) returns (issues: seq<(nat, Issue)>)
    requires Forest(start.graph)
    ensures issues == IssuesFrom(start, ops, 0)
  {
    var validator := new OperationValidator(start);
    issues := [];
    for k := 0 to |ops|
      invariant Forest(validator.graph)
      invariant issues + IssuesFrom(validator.State(), ops, k) == IssuesFrom(start, ops, 0)
    {
      validator.index := k;
      IssuesStep(validator.State(), ops, k, issues);
      var issue := validator.Check(ops[k]);
      if issue.Some? {
        issues := issues + [(k, issue.value)];
      } else {
        validator.Accept(ops[k]);
      }
    }
  }
}
