/** When validation accepts a plan of text edits: exactly when each rewritten value may
    be stored; and always for replacements, unless a list names its items by text. */
module PlanAcceptance {
  import opened Lists
  import opened RichText
  import opened TextReplacement
  import opened Values
  import opened Schemas
  import opened Documents
  import opened BlockGraph
  import opened Validation
  import opened Mutation
  import opened GraphSoundness
  import opened ValueSoundness
  import opened BatchSoundness
  import opened DocumentUpdate
  import opened LocaleAuthority
  import opened TextEdits
  import opened TextEditPlan

  // ----- the rule of an editable field -----

  ghost predicate FieldsNamed(n: Node) {
    && (forall i :: 0 <= i < |n.localized| ==> n.localized[i].id != NONE)
    && forall r, k, i :: 0 <= r < |n.relations| && 0 <= k < |n.relations[r].items| && 0 <= i < |n.relations[r].items[k].localized|
         ==> n.relations[r].items[k].localized[i].id != NONE
  }

  /** A document whose text can be edited, and the validator that would check it. */
  ghost predicate Checked(tree: Tree, v: Validator) {
    && Readable(tree.nodes) && NodesFit(tree.nodes, tree.catalog) && ValidCatalog(tree.catalog)
    && (forall i :: 0 <= i < |tree.nodes| ==> FieldsNamed(tree.nodes[i]))
    && Forest(v.graph) && Agrees(tree, v)
  }

  /** The value fits the rule that validation finds for the target, which is the locale's. */
  ghost predicate Ruled(v: Validator, t: Target, value: Value) {
    && CanonicalTarget(t) && t.path == [] && FieldRuleOf(v, t).Found?
    && FieldFits(value, FieldRuleOf(v, t).value) && FieldRuleOf(v, t).value.ownership == Locale
  }

  lemma {:induction false} BlockFieldRuled(v: Validator, n: Node, f: EditableField)
    requires n.id in v.graph && v.graph[n.id] == BlockOf(n) && n.id != NONE && NodeFits(n, v.catalog) && FieldsNamed(n)
    requires IsOf(f, Place(n.id, NONE, NONE), BlockHolder(n))
    ensures Ruled(v, f.target, f.value)
  {
    var i :| 0 <= i < |n.localized| && n.localized[i] == Entry(f.target.field, f.value);
    assert BlockHolder(n).localized[i] == Entry(f.target.field, f.value);
    assert RuleOf(v.catalog, n.kind, NONE, NONE, n.localized[i].id).Some?;
  }

  lemma {:induction false} ItemFieldRuled(v: Validator, n: Node, r: nat, k: nat, f: EditableField)
    requires n.id in v.graph && v.graph[n.id] == BlockOf(n) && LoadedNode(n) && NodeFits(n, v.catalog) && FieldsNamed(n)
    requires r < |n.relations| && k < |n.relations[r].items| && n.relations[r].id != NONE
    requires IsOf(f, Place(n.id, n.relations[r].id, n.relations[r].items[k].id), ItemHolder(n.relations[r].items[k]))
    ensures Ruled(v, f.target, f.value)
  {
    var relation, item := n.relations[r], n.relations[r].items[k];
    assert LoadedRelation(relation);
    IndexHas(n.relations, RelationId, ItemsOf, r);
    IndexHas(relation.items, ItemId, KindOfItem, k);
    var i :| 0 <= i < |item.localized| && item.localized[i] == Entry(f.target.field, f.value);
    assert HolderFits(ItemHolder(item), v.catalog, n.kind, relation.id, item.kind);
    assert RuleOf(v.catalog, n.kind, relation.id, item.kind, ItemHolder(item).localized[i].id).Some?;
  }

  lemma {:induction false} FieldRuled(tree: Tree, v: Validator, f: EditableField)
    requires Checked(tree, v) && f in EditableFields(tree.nodes)
    ensures Ruled(v, f.target, f.value)
  {
    EditableFieldsIff(tree.nodes, f);
    var i :| 0 <= i < |tree.nodes| && OfNode(f, tree.nodes[i]);
    var n := tree.nodes[i];
    assert LoadedNode(n);
    IndexHas(tree.nodes, NodeId, BlockOf, i);
    if IsOf(f, Place(n.id, NONE, NONE), BlockHolder(n)) {
      BlockFieldRuled(v, n, f);
    } else {
      var r :| 0 <= r < |n.relations| && OfItems(f, n.id, n.relations[r].id, n.relations[r].items);
      var items := n.relations[r].items;
      var k :| 0 <= k < |items| && IsOf(f, Place(n.id, n.relations[r].id, items[k].id), ItemHolder(items[k]));
      ItemFieldRuled(v, n, r, k, f);
    }
  }

  // ----- one write -----

  /** The value may be stored under the rule: its shape, its schema, and the locale's authority. */
  predicate Storable(v: Validator, rule: FieldRule, value: Value) {
    && ValidValue(value, 0, v.strings)
    && (rule.schema.Some? ==> FitsSchema(value, rule.schema.value, 0, v.strings))
    && (v.role.NonSourceLocale? ==> rule.translatable)
  }

  lemma {:induction false} SetAcceptedIff(v: Validator, t: Target, original: Value, value: Value)
    requires Forest(v.graph) && ValidCatalog(v.catalog) && Ruled(v, t, original) && value.Kind() == original.Kind()
    ensures Validate(v, SetField(t, value)).None? <==> Storable(v, FieldRuleOf(v, t).value, value)
    ensures Validate(v, SetField(t, value)).None? ==> Accepted(v, SetField(t, value)) == v
  {
    var rule := FieldRuleOf(v, t).value;
    var block := v.graph[t.block];
    var itemKind := if t.OnItem() then block.relations[t.relation][t.item] else NONE;
    assert RuleOf(v.catalog, block.kind, t.relation, itemKind, t.field) == Some(rule);
    assert RootMatches(rule);
  }

  lemma {:induction false} SetsAcceptedIff(v: Validator, ops: seq<Operation>)
    requires Forest(v.graph)
    requires forall k :: 0 <= k < |ops| ==> ops[k].SetField? && (Validate(v, ops[k]).None? ==> Accepted(v, ops[k]) == v)
    ensures AcceptedAll(v, ops) <==> forall k :: 0 <= k < |ops| ==> Validate(v, ops[k]).None?
    decreases |ops|
  {
    if ops != [] {
      SetsAcceptedIff(v, ops[1..]);
      assert forall k :: 1 <= k < |ops| ==> ops[k] == ops[1..][k - 1];
      if Validate(v, ops[0]).None? {
        AcceptedKeepsForest(v, ops[0]);
      }
    }
  }

  // ----- the plan -----

  lemma {:induction false} RewriteKeepsKind(e: TextEdit, value: Value)
    requires ValidEdit(e) && Rewrite(e, value).Some?
    ensures Rewrite(e, value).value.Kind() == value.Kind()
  {
  }

  lemma {:induction false} FoldKeepsKind(edits: seq<TextEdit>, block: BlockID, value: Value)
    ensures Fold(edits, block, value).Kind() == value.Kind()
    decreases |edits|
  {
    if edits != [] {
      if Hits(edits[0], block, value) && Rewrite(edits[0], value).Some? {
        RewriteKeepsKind(edits[0], value);
      }
      FoldKeepsKind(edits[1..], block, Edited(edits[0], block, value));
    }
  }

  /** Every value the edits rewrite may be stored under its rule. */
  ghost predicate AllStorable(tree: Tree, v: Validator, edits: seq<TextEdit>) {
    forall f :: f in EditableFields(tree.nodes) && HitByAny(edits, f.target.block, f.value) ==>
      FieldRuleOf(v, f.target).Found? &&
      Storable(v, FieldRuleOf(v, f.target).value, Fold(edits, f.target.block, f.value))
  }

  /** Validation accepts a plan if and only if every rewritten value may be stored. */
  lemma {:induction false} PlanAcceptedIff(tree: Tree, v: Validator, edits: seq<TextEdit>)
    requires Checked(tree, v) && Plan(tree.nodes, edits).Some?
    ensures AcceptedAll(v, Plan(tree.nodes, edits).value) <==> AllStorable(tree, v, edits)
  {
    var ops := Plan(tree.nodes, edits).value;
    PlanWritesOnce(tree.nodes, edits);
    forall k | 0 <= k < |ops|
      ensures ops[k].SetField? && (Validate(v, ops[k]).None? ==> Accepted(v, ops[k]) == v)
    {
      assert ops[k] in ops;
      PlannedWrite(tree, v, edits, ops[k]);
    }
    SetsAcceptedIff(v, ops);
    if AcceptedAll(v, ops) {
      forall f | f in EditableFields(tree.nodes) && HitByAny(edits, f.target.block, f.value)
        ensures FieldRuleOf(v, f.target).Found? && Storable(v, FieldRuleOf(v, f.target).value, Fold(edits, f.target.block, f.value))
      {
        var op := SetField(f.target, Fold(edits, f.target.block, f.value));
        assert WritesFold(tree.nodes, edits, op);
        var k :| 0 <= k < |ops| && ops[k] == op;
        FieldWrite(tree, v, edits, f);
      }
    }
    if AllStorable(tree, v, edits) {
      forall k | 0 <= k < |ops| ensures Validate(v, ops[k]).None? {
        assert ops[k] in ops;
        PlannedWrite(tree, v, edits, ops[k]);
      }
    }
  }

  lemma {:induction false} FieldWrite(tree: Tree, v: Validator, edits: seq<TextEdit>, f: EditableField)
    requires Checked(tree, v) && f in EditableFields(tree.nodes)
    ensures FieldRuleOf(v, f.target).Found?
    ensures var op := SetField(f.target, Fold(edits, f.target.block, f.value));
            && (Validate(v, op).None? <==> Storable(v, FieldRuleOf(v, f.target).value, op.value))
            && (Validate(v, op).None? ==> Accepted(v, op) == v)
  {
    FieldRuled(tree, v, f);
    FoldKeepsKind(edits, f.target.block, f.value);
    SetAcceptedIff(v, f.target, f.value, Fold(edits, f.target.block, f.value));
  }

  lemma {:induction false} PlannedWrite(tree: Tree, v: Validator, edits: seq<TextEdit>, op: Operation)
    requires Checked(tree, v) && WritesFold(tree.nodes, edits, op)
    ensures op.SetField? && (Validate(v, op).None? ==> Accepted(v, op) == v)
    ensures AllStorable(tree, v, edits) ==> Validate(v, op).None?
  {
    var f :| f in EditableFields(tree.nodes) && HitByAny(edits, f.target.block, f.value)
      && op == SetField(f.target, Fold(edits, f.target.block, f.value));
    FieldWrite(tree, v, edits, f);
  }

  // ----- replacements keep values storable -----

  lemma {:induction false} ReplaceKeepsInline(items: seq<InlineItem>, depth: nat, s: Strings, find: string, replacement: string)
    requires find != "" && ValidInline(items, depth, s)
    ensures ValidInline(ReplaceInline(items, find, replacement), depth, s)
    decreases items
  {
    if items != [] {
      var first, rest := ReplaceItem(items[0], find, replacement), ReplaceInline(items[1..], find, replacement);
      ReplaceKeepsInline(items[1..], depth, s, find, replacement);
      if items[0].Marked? {
        ReplaceKeepsInline(items[0].children, depth + 1, s, find, replacement);
      }
      assert ValidInline(first, depth, s);
      assert forall i :: 0 <= i < |first + rest| ==> (first + rest)[i] == if i < |first| then first[i] else rest[i - |first|];
    }
  }

  /** What a rewriting of text has to keep for the value around it to stay valid. */
  ghost predicate KeepsInline(inline: seq<InlineItem> -> seq<InlineItem>, s: Strings) {
    forall items :: ValidInline(items, 0, s) ==> ValidInline(inline(items), 0, s)
  }

  lemma {:induction false} MapKeepsValid(
    value: Value, depth: nat, s: Strings, inline: seq<InlineItem> -> seq<InlineItem>, text: string -> string)
    requires ValidValue(value, depth, s) && KeepsInline(inline, s)
    ensures ValidValue(MapValue(value, inline, text), depth, s)
    decreases value
  {
    match value
    case ListValue(items) =>
      forall i | 0 <= i < |items| ensures ValidValue(MapEntries(items, inline, text)[i].value, depth + 1, s) {
        MapEntriesAt(items, i, inline, text);
        MapKeepsValid(items[i].value, depth + 1, s, inline, text);
      }
    case ObjectValue(fields) =>
      forall i | 0 <= i < |fields| ensures ValidValue(MapEntries(fields, inline, text)[i].value, depth + 1, s) {
        MapEntriesAt(fields, i, inline, text);
        MapKeepsValid(fields[i].value, depth + 1, s, inline, text);
      }
    case _ =>
  }

  /** No list under the schema names its items by their text. */
  predicate NamedApart(schema: Schema)
    decreases schema
  {
    && !schema.identity.ByValue? && !schema.identity.ByField?
    && (schema.item.Some? ==> NamedApart(schema.item.value))
    && forall i :: 0 <= i < |schema.fields| ==> NamedApart(schema.fields[i].schema)
  }

  lemma {:induction false} MapKeepsFit(
    value: Value, schema: Schema, depth: nat, s: Strings, inline: seq<InlineItem> -> seq<InlineItem>, text: string -> string)
    requires FitsSchema(value, schema, depth, s) && NamedApart(schema) && KeepsInline(inline, s)
    ensures FitsSchema(MapValue(value, inline, text), schema, depth, s)
    decreases value
  {
    MapKeepsValid(value, depth, s, inline, text);
    match value
    case ListValue(items) =>
      forall i | 0 <= i < |items| ensures FitsSchema(MapEntries(items, inline, text)[i].value, schema.item.value, depth + 1, s) {
        MapEntriesAt(items, i, inline, text);
        MapKeepsFit(items[i].value, schema.item.value, depth + 1, s, inline, text);
      }
    case ObjectValue(fields) =>
      forall i | 0 <= i < |fields|
        ensures FitsSchema(MapEntries(fields, inline, text)[i].value, ObjectFieldSchema(schema, fields[i].id).value, depth + 1, s)
      {
        MapEntriesAt(fields, i, inline, text);
        MapKeepsFit(fields[i].value, ObjectFieldSchema(schema, fields[i].id).value, depth + 1, s, inline, text);
      }
    case _ =>
  }

  lemma {:induction false} ReplacementStorable(v: Validator, rule: FieldRule, e: TextEdit, value: Value)
    requires ValidEdit(e) && e.replace.Some? && Storable(v, rule, value) && (rule.schema.Some? ==> NamedApart(rule.schema.value))
    ensures Rewrite(e, value).Some? && Storable(v, rule, Rewrite(e, value).value)
  {
    forall items | ValidInline(items, 0, v.strings) ensures ValidInline(EditInline(e)(items), 0, v.strings) {
      ReplaceKeepsInline(items, 0, v.strings, e.find, e.replace.value);
    }
    MapKeepsValid(value, 0, v.strings, EditInline(e), EditText(e));
    if rule.schema.Some? {
      MapKeepsFit(value, rule.schema.value, 0, v.strings, EditInline(e), EditText(e));
    }
  }

  lemma {:induction false} FoldStorable(v: Validator, rule: FieldRule, edits: seq<TextEdit>, block: BlockID, value: Value)
    requires forall k :: 0 <= k < |edits| ==> edits[k].replace.Some?
    requires Storable(v, rule, value) && (rule.schema.Some? ==> NamedApart(rule.schema.value))
    ensures Storable(v, rule, Fold(edits, block, value))
    decreases |edits|
  {
    if edits != [] {
      if Hits(edits[0], block, value) {
        ReplacementStorable(v, rule, edits[0], value);
      }
      FoldStorable(v, rule, edits[1..], block, Edited(edits[0], block, value));
    }
  }

  predicate StorableApart(v: Validator, t: Target, value: Value) {
    && FieldRuleOf(v, t).Found? && Storable(v, FieldRuleOf(v, t).value, value)
    && (FieldRuleOf(v, t).value.schema.Some? ==> NamedApart(FieldRuleOf(v, t).value.schema.value))
  }

  /** Validation accepts every plan of replacements over storable values, unless a list
      names its items by the text that is replaced. */
  lemma {:induction false} ReplacementsAccepted(tree: Tree, v: Validator, edits: seq<TextEdit>)
    requires Checked(tree, v) && Plan(tree.nodes, edits).Some? && forall k :: 0 <= k < |edits| ==> edits[k].replace.Some?
    requires forall f :: f in EditableFields(tree.nodes) ==> StorableApart(v, f.target, f.value)
    ensures AcceptedAll(v, Plan(tree.nodes, edits).value)
  {
    forall f | f in EditableFields(tree.nodes) && HitByAny(edits, f.target.block, f.value)
      ensures Storable(v, FieldRuleOf(v, f.target).value, Fold(edits, f.target.block, f.value))
    {
      FoldStorable(v, FieldRuleOf(v, f.target).value, edits, f.target.block, f.value);
    }
    PlanAcceptedIff(tree, v, edits);
  }
}
