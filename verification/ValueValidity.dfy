/** What makes a value valid, told of every value inside it at once: validation of the
    whole is validation everywhere, and a path resolves to the schema that a chain of
    schemas leads to. */
module ValueValidity {
  import opened Lists
  import opened RichText
  import opened Values
  import opened Schemas
  import opened TextRewriting

  // ----- rich text -----

  /** The item at these positions, from the outermost list down. */
  function ItemInside(items: seq<InlineItem>, at: seq<nat>): Option<InlineItem>
    decreases |at|
  {
    if at == [] || at[0] >= |items| then None
    else if |at| == 1 then Some(items[at[0]])
    else if items[at[0]].Marked? then ItemInside(items[at[0]].children, at[1..])
    else None
  }

  /** Atoms and mark parameters are well formed, and every mark wraps something. */
  predicate ItemWellFormed(item: InlineItem, s: Strings) {
    match item
    case Text(_) => true
    case Fixed(atom) => s.atom(atom)
    case Marked(mark, children) => s.mark(mark) && children != []
  }

  ghost predicate WellFormedInside(items: seq<InlineItem>, depth: nat, s: Strings) {
    forall at :: ItemInside(items, at).Some? ==> depth + |at| <= MAX_NESTING + 1 && ItemWellFormed(ItemInside(items, at).value, s)
  }

  ghost predicate ItemValidInside(item: InlineItem, depth: nat, s: Strings) {
    depth <= MAX_NESTING && ItemWellFormed(item, s) && (item.Marked? ==> WellFormedInside(item.children, depth + 1, s))
  }

  lemma {:induction false} InsideByFirst(items: seq<InlineItem>, depth: nat, s: Strings)
    ensures WellFormedInside(items, depth, s) <==> forall i :: 0 <= i < |items| ==> ItemValidInside(items[i], depth, s)
  {
    if WellFormedInside(items, depth, s) {
      forall i | 0 <= i < |items| ensures ItemValidInside(items[i], depth, s) {
        FirstValidInside(items, depth, s, i);
      }
    }
    if forall i :: 0 <= i < |items| ==> ItemValidInside(items[i], depth, s) {
      forall at | ItemInside(items, at).Some?
        ensures depth + |at| <= MAX_NESTING + 1 && ItemWellFormed(ItemInside(items, at).value, s)
      {
        assert ItemValidInside(items[at[0]], depth, s);
        if |at| > 1 {
          assert ItemInside(items[at[0]].children, at[1..]).Some?;
        }
      }
    }
  }

  lemma {:induction false} FirstValidInside(items: seq<InlineItem>, depth: nat, s: Strings, i: nat)
    requires WellFormedInside(items, depth, s) && i < |items|
    ensures ItemValidInside(items[i], depth, s)
  {
    assert ItemInside(items, [i]) == Some(items[i]);
    if items[i].Marked? {
      forall at | ItemInside(items[i].children, at).Some?
        ensures depth + 1 + |at| <= MAX_NESTING + 1 && ItemWellFormed(ItemInside(items[i].children, at).value, s)
      {
        assert ([i] + at)[1..] == at;
        assert ItemInside(items, [i] + at) == ItemInside(items[i].children, at);
      }
    }
  }

  lemma {:induction false} ItemByChildren(item: InlineItem, depth: nat, s: Strings)
    requires item.Marked? ==> (ValidInline(item.children, depth + 1, s) <==> WellFormedInside(item.children, depth + 1, s))
    ensures ValidInlineItem(item, depth, s) <==> ItemValidInside(item, depth, s)
  {
    if item.Marked? {
      assert ValidInline(item.children, depth + 1, s) <==>
        forall i :: 0 <= i < |item.children| ==> ValidInlineItem(item.children[i], depth + 1, s);
    }
  }

  lemma {:induction false} ItemsAlike(items: seq<InlineItem>, depth: nat, s: Strings)
    requires forall i :: 0 <= i < |items| ==> (ValidInlineItem(items[i], depth, s) <==> ItemValidInside(items[i], depth, s))
    ensures ValidInline(items, depth, s) <==> forall i :: 0 <= i < |items| ==> ItemValidInside(items[i], depth, s)
  {
    assert ValidInline(items, depth, s) <==> forall i :: 0 <= i < |items| ==> ValidInlineItem(items[i], depth, s);
  }

  /** Rich text is valid exactly when each item inside it, at whatever depth, is well
      formed and not nested too deep. */
  lemma {:induction false} ValidInlineIff(items: seq<InlineItem>, depth: nat, s: Strings)
    ensures ValidInline(items, depth, s) <==> WellFormedInside(items, depth, s)
    decreases items
  {
    forall i | 0 <= i < |items| ensures ValidInlineItem(items[i], depth, s) <==> ItemValidInside(items[i], depth, s) {
      if items[i].Marked? {
        ValidInlineIff(items[i].children, depth + 1, s);
      }
      ItemByChildren(items[i], depth, s);
    }
    ItemsAlike(items, depth, s);
    InsideByFirst(items, depth, s);
  }

  // ----- values -----

  /** What validation asks of one value, whatever is inside its entries. */
  predicate WellFormed(value: Value, s: Strings) {
    match value
    case NumberValue(decimal) => s.number(decimal)
    case RichValue(items) => ValidInline(items, 0, s)
    case ListValue(items) =>
      (forall i :: 0 <= i < |items| ==> items[i].id == NONE) ||
      ((forall i :: 0 <= i < |items| ==> items[i].id != NONE) && forall i, j :: 0 <= i < j < |items| ==> items[i].id != items[j].id)
    case ObjectValue(fields) =>
      (forall i :: 0 <= i < |fields| ==> fields[i].id != NONE) && forall i, j :: 0 <= i < j < |fields| ==> fields[i].id != fields[j].id
    case _ => true
  }

  ghost predicate ValidInside(value: Value, depth: nat, s: Strings) {
    forall at :: Nested(value, at).Some? ==> depth + |at| <= MAX_NESTING && WellFormed(Nested(value, at).value, s)
  }

  ghost predicate EntriesValidInside(entries: seq<Entry>, depth: nat, s: Strings) {
    forall i :: 0 <= i < |entries| ==> ValidInside(entries[i].value, depth, s)
  }

  lemma {:induction false} InsideByEntries(value: Value, depth: nat, s: Strings)
    ensures ValidInside(value, depth, s) <==>
              depth <= MAX_NESTING && WellFormed(value, s) && EntriesValidInside(Children(value), depth + 1, s)
  {
    if ValidInside(value, depth, s) {
      assert Nested(value, []) == Some(value);
      forall i | 0 <= i < |Children(value)| ensures ValidInside(Children(value)[i].value, depth + 1, s) {
        forall at | Nested(Children(value)[i].value, at).Some?
          ensures depth + 1 + |at| <= MAX_NESTING && WellFormed(Nested(Children(value)[i].value, at).value, s)
        {
          assert ([i] + at)[1..] == at;
          assert Nested(value, [i] + at) == Nested(Children(value)[i].value, at);
        }
      }
    }
    if depth <= MAX_NESTING && WellFormed(value, s) && EntriesValidInside(Children(value), depth + 1, s) {
      forall at | Nested(value, at).Some? ensures depth + |at| <= MAX_NESTING && WellFormed(Nested(value, at).value, s) {
        if at != [] {
          assert ValidInside(Children(value)[at[0]].value, depth + 1, s);
          assert Nested(Children(value)[at[0]].value, at[1..]).Some?;
        }
      }
    }
  }

  ghost predicate EntriesValid(entries: seq<Entry>, depth: nat, s: Strings) {
    forall i :: 0 <= i < |entries| ==> ValidValue(entries[i].value, depth, s)
  }

  lemma {:induction false} ValidByEntries(value: Value, depth: nat, s: Strings)
    ensures ValidValue(value, depth, s) <==>
              depth <= MAX_NESTING && WellFormed(value, s) && EntriesValid(Children(value), depth + 1, s)
  {
    if value.ListValue? {
      ListNames(value.items);
    }
  }

  /** All named or all unnamed. */
  lemma ListNames(items: seq<Entry>)
    ensures (forall i :: 0 <= i < |items| ==> (items[i].id != NONE) == (items[0].id != NONE)) <==>
              (forall i :: 0 <= i < |items| ==> items[i].id == NONE) || (forall i :: 0 <= i < |items| ==> items[i].id != NONE)
  {
  }

  /** A value is valid exactly when each value inside it, at whatever depth, is well
      formed and not nested too deep. */
  lemma {:induction false} ValidValueIff(value: Value, depth: nat, s: Strings)
    ensures ValidValue(value, depth, s) <==> ValidInside(value, depth, s)
    decreases value
  {
    var entries := Children(value);
    forall i | 0 <= i < |entries| ensures ValidValue(entries[i].value, depth + 1, s) <==> ValidInside(entries[i].value, depth + 1, s) {
      ChildIsSmaller(value, i);
      ValidValueIff(entries[i].value, depth + 1, s);
    }
    EntriesAlike(entries, depth + 1, s);
    ValidByParts(value, depth, s);
  }

  lemma {:induction false} EntriesAlike(entries: seq<Entry>, depth: nat, s: Strings)
    requires forall i :: 0 <= i < |entries| ==> (ValidValue(entries[i].value, depth, s) <==> ValidInside(entries[i].value, depth, s))
    ensures EntriesValid(entries, depth, s) <==> EntriesValidInside(entries, depth, s)
  {
  }

  lemma {:induction false} ValidByParts(value: Value, depth: nat, s: Strings)
    requires EntriesValid(Children(value), depth + 1, s) <==> EntriesValidInside(Children(value), depth + 1, s)
    ensures ValidValue(value, depth, s) <==> ValidInside(value, depth, s)
  {
    InsideByEntries(value, depth, s);
    ValidByEntries(value, depth, s);
  }

  lemma ChildIsSmaller(value: Value, i: nat)
    requires i < |Children(value)|
    ensures Children(value)[i].value < value
  {
    match value
    case ListValue(items) => assert items[i].value < value;
    case ObjectValue(fields) => assert fields[i].value < value;
    case _ =>
  }

  // ----- schemas -----

  /** The schema of the value at these positions: that of the items of a list, or of the
      object's field of that name. */
  function SchemaInside(schema: Schema, value: Value, at: seq<nat>): Option<Schema>
    decreases |at|
  {
    if at == [] then Some(schema)
    else if at[0] >= |Children(value)| then None
    else
      var entry := Children(value)[at[0]];
      match if value.ListValue? then schema.item else ObjectFieldSchema(schema, entry.id)
      case None => None
      case Some(next) => SchemaInside(next, entry.value, at[1..])
  }

  /** Items carry names exactly when the schema names them: by handles fixed in order,
      by the scalar the item is, or by the text in one of its fields. */
  predicate NamesFit(items: seq<Entry>, identity: ListIdentity, s: Strings) {
    && (forall i :: 0 <= i < |items| ==> (items[i].id == NONE <==> identity == Positional))
    && (identity.Fixed? ==> Map(items, EntryId) == identity.handles)
    && (identity.ByValue? ==> forall i :: 0 <= i < |items| ==> NamedBy(items[i].id, items[i].value, s))
    && (identity.ByField? ==> forall i :: 0 <= i < |items| ==> NamedByField(items[i], identity.field, s))
  }

  predicate NamedBy(id: nat, value: Value, s: Strings) {
    match value
    case TextValue(text) => id == s.name(text)
    case NumberValue(decimal) => id == s.name(decimal)
    case _ => false
  }

  predicate NamedByField(item: Entry, field: FieldID, s: Strings) {
    match ReadPath(item.value, [FieldSegment(field)])
    case Some(TextValue(text)) => item.id == s.name(text)
    case _ => false
  }

  /** What the schema asks of one value, whatever is inside its entries. */
  predicate Conforms(value: Value, schema: Schema, s: Strings) {
    && !schema.file && value.Kind() == schema.kind
    && (value.ListValue? ==> schema.item.Some? && NamesFit(value.items, schema.identity, s))
  }

  ghost predicate ConformsInside(value: Value, schema: Schema, depth: nat, s: Strings) {
    forall at :: Nested(value, at).Some? ==>
      && depth + |at| <= MAX_NESTING && WellFormed(Nested(value, at).value, s)
      && SchemaInside(schema, value, at).Some? && Conforms(Nested(value, at).value, SchemaInside(schema, value, at).value, s)
  }

  /** The schema of an entry, if its value has one. */
  function EntrySchema(value: Value, schema: Schema, i: nat): Option<Schema>
    requires i < |Children(value)|
  {
    if value.ListValue? then schema.item else ObjectFieldSchema(schema, Children(value)[i].id)
  }

  ghost predicate EntriesConform(value: Value, schema: Schema, depth: nat, s: Strings) {
    forall i :: 0 <= i < |Children(value)| ==>
      EntrySchema(value, schema, i).Some?
      && ConformsInside(Children(value)[i].value, EntrySchema(value, schema, i).value, depth, s)
  }

  lemma {:induction false} ConformsByEntries(value: Value, schema: Schema, depth: nat, s: Strings)
    ensures ConformsInside(value, schema, depth, s) <==>
              depth <= MAX_NESTING && WellFormed(value, s) && Conforms(value, schema, s) && EntriesConform(value, schema, depth + 1, s)
  {
    if ConformsInside(value, schema, depth, s) {
      assert Nested(value, []) == Some(value) && SchemaInside(schema, value, []) == Some(schema);
      forall i | 0 <= i < |Children(value)|
        ensures EntrySchema(value, schema, i).Some?
          && ConformsInside(Children(value)[i].value, EntrySchema(value, schema, i).value, depth + 1, s)
      {
        EntryConforms(value, schema, depth, s, i);
      }
    }
    if depth <= MAX_NESTING && WellFormed(value, s) && Conforms(value, schema, s) && EntriesConform(value, schema, depth + 1, s) {
      forall at | Nested(value, at).Some?
        ensures depth + |at| <= MAX_NESTING && WellFormed(Nested(value, at).value, s)
          && SchemaInside(schema, value, at).Some? && Conforms(Nested(value, at).value, SchemaInside(schema, value, at).value, s)
      {
        if at != [] {
          InsideEntry(value, schema, depth, s, at);
        }
      }
    }
  }

  lemma {:induction false} InsideEntry(value: Value, schema: Schema, depth: nat, s: Strings, at: seq<nat>)
    requires EntriesConform(value, schema, depth + 1, s) && at != [] && Nested(value, at).Some?
    ensures depth + |at| <= MAX_NESTING && WellFormed(Nested(value, at).value, s)
    ensures SchemaInside(schema, value, at).Some? && Conforms(Nested(value, at).value, SchemaInside(schema, value, at).value, s)
  {
    var v := Children(value)[at[0]].value;
    assert EntrySchema(value, schema, at[0]).Some?;
    var next := EntrySchema(value, schema, at[0]).value;
    assert ConformsInside(v, next, depth + 1, s);
    assert Nested(v, at[1..]) == Nested(value, at);
    assert SchemaInside(schema, value, at) == SchemaInside(next, v, at[1..]);
  }

  lemma {:induction false} EntryConforms(value: Value, schema: Schema, depth: nat, s: Strings, i: nat)
    requires ConformsInside(value, schema, depth, s) && i < |Children(value)|
    ensures EntrySchema(value, schema, i).Some?
    ensures ConformsInside(Children(value)[i].value, EntrySchema(value, schema, i).value, depth + 1, s)
  {
    var v := Children(value)[i].value;
    assert Nested(value, [i]).Some? by {
      assert [i][1..] == [];
    }
    assert SchemaInside(schema, value, [i]).Some?;
    forall at | Nested(v, at).Some?
      ensures depth + 1 + |at| <= MAX_NESTING && WellFormed(Nested(v, at).value, s)
        && SchemaInside(EntrySchema(value, schema, i).value, v, at).Some?
        && Conforms(Nested(v, at).value, SchemaInside(EntrySchema(value, schema, i).value, v, at).value, s)
    {
      assert ([i] + at)[1..] == at;
      assert Nested(value, [i] + at) == Nested(v, at);
      assert SchemaInside(schema, value, [i] + at) == SchemaInside(EntrySchema(value, schema, i).value, v, at);
    }
  }

  /** Conforming values are well formed inside. */
  lemma {:induction false} ConformingIsValid(value: Value, schema: Schema, depth: nat, s: Strings)
    requires ConformsInside(value, schema, depth, s)
    ensures ValidValue(value, depth, s)
  {
    ValidValueIff(value, depth, s);
  }

  ghost predicate EntriesFitting(value: Value, schema: Schema, depth: nat, s: Strings) {
    forall i :: 0 <= i < |Children(value)| ==>
      EntrySchema(value, schema, i).Some?
      && FitsSchema(Children(value)[i].value, EntrySchema(value, schema, i).value, depth, s)
  }

  lemma {:induction false} NamesFitIff(items: seq<Entry>, identity: ListIdentity, s: Strings)
    requires forall i :: 0 <= i < |items| ==> (items[i].id != NONE) == (items[0].id != NONE)
    ensures ListIdentityHolds(items, identity, s.name) <==> NamesFit(items, identity, s)
  {
    forall i | 0 <= i < |items| && identity.ByField?
      ensures IdentityHolds(items[i], identity, s.name) <==> NamedByField(items[i], identity.field, s)
    {
      var path := [FieldSegment(identity.field)];
      if items[i].value.ObjectValue? {
        assert ReadPath(items[i].value, path) == ReadEntries(items[i].value.fields, identity.field, path[1..]);
        assert path[1..] == [];
      }
    }
    forall i | 0 <= i < |items| && identity.ByValue?
      ensures IdentityHolds(items[i], identity, s.name) <==> NamedBy(items[i].id, items[i].value, s)
    {
    }
  }

  lemma {:induction false} FitsByEntries(value: Value, schema: Schema, depth: nat, s: Strings)
    ensures FitsSchema(value, schema, depth, s) <==>
              depth <= MAX_NESTING && ValidValue(value, depth, s) && Conforms(value, schema, s) && EntriesFitting(value, schema, depth + 1, s)
  {
    match value
    case ListValue(items) =>
      assert Children(value) == items;
      if ValidValue(value, depth, s) {
        NamesFitIff(items, schema.identity, s);
      }
    case ObjectValue(fields) => assert Children(value) == fields;
    case _ => assert Children(value) == [];
  }

  /** A value fits its schema exactly when each value inside it is well formed and has
      the kind, and as a list the names, that the schema assigns to its place. */
  lemma {:induction false} FitsSchemaIff(value: Value, schema: Schema, depth: nat, s: Strings)
    ensures FitsSchema(value, schema, depth, s) <==> ConformsInside(value, schema, depth, s)
    decreases value
  {
    forall i | 0 <= i < |Children(value)| && EntrySchema(value, schema, i).Some?
      ensures FitsSchema(Children(value)[i].value, EntrySchema(value, schema, i).value, depth + 1, s)
         <==> ConformsInside(Children(value)[i].value, EntrySchema(value, schema, i).value, depth + 1, s)
    {
      ChildIsSmaller(value, i);
      FitsSchemaIff(Children(value)[i].value, EntrySchema(value, schema, i).value, depth + 1, s);
    }
    EntriesFitAlike(value, schema, depth + 1, s);
    FitsByParts(value, schema, depth, s);
  }

  lemma {:induction false} EntriesFitAlike(value: Value, schema: Schema, depth: nat, s: Strings)
    requires forall i :: 0 <= i < |Children(value)| && EntrySchema(value, schema, i).Some? ==>
               (FitsSchema(Children(value)[i].value, EntrySchema(value, schema, i).value, depth, s)
                <==> ConformsInside(Children(value)[i].value, EntrySchema(value, schema, i).value, depth, s))
    ensures EntriesFitting(value, schema, depth, s) <==> EntriesConform(value, schema, depth, s)
  {
  }

  lemma {:induction false} FitsByParts(value: Value, schema: Schema, depth: nat, s: Strings)
    requires EntriesFitting(value, schema, depth + 1, s) <==> EntriesConform(value, schema, depth + 1, s)
    ensures FitsSchema(value, schema, depth, s) <==> ConformsInside(value, schema, depth, s)
  {
    ConformsByEntries(value, schema, depth, s);
    FitsByEntries(value, schema, depth, s);
    ValidByEntries(value, depth, s);
    if ConformsInside(value, schema, depth, s) {
      ConformingIsValid(value, schema, depth, s);
    }
  }

  // ----- resolving a path -----

  /** One step down: to an object's field of that name, or to the items of a list whose
      items have names, and with fixed names only to one of them. */
  ghost predicate StepsTo(from: Schema, segment: Segment, to: Schema) {
    !from.file &&
    match segment
    case FieldSegment(field) =>
      && field != NONE && from.kind == ObjectKind
      && exists i :: 0 <= i < |from.fields| && from.fields[i] == NestedField(field, to)
           && forall j :: 0 <= j < i ==> from.fields[j].field != field
    case ItemSegment(item) =>
      && item != NONE && from.kind == ListKind && from.item == Some(to)
      && !from.identity.Positional? && (from.identity.Fixed? ==> item in from.identity.handles)
  }

  ghost predicate Leads(chain: seq<Schema>, path: seq<Segment>) {
    |chain| == |path| + 1 && forall k :: 0 <= k < |path| ==> StepsTo(chain[k], path[k], chain[k + 1])
  }

  lemma {:induction false} StepIff(from: Schema, segment: Segment, to: Schema)
    ensures SchemaStep(from, segment) == Some(to) <==> StepsTo(from, segment, to)
  {
    if segment.FieldSegment? {
      var i := Find(from.fields, NestedId, segment.field);
      if i < |from.fields| {
        assert from.fields[i] == NestedField(from.fields[i].field, from.fields[i].schema);
      }
      if StepsTo(from, segment, to) {
        var k :| 0 <= k < |from.fields| && from.fields[k] == NestedField(segment.field, to)
          && forall j :: 0 <= j < k ==> from.fields[j].field != segment.field;
        assert NestedId(from.fields[k]) == segment.field;
        assert i == k;
      }
    }
  }

  lemma {:induction false} SchemaAtChain(schema: Schema, path: seq<Segment>) returns (chain: seq<Schema>)
    requires SchemaAt(schema, path).Some?
    ensures Leads(chain, path) && chain[0] == schema && chain[|path|] == SchemaAt(schema, path).value
    decreases |path|
  {
    if path == [] {
      chain := [schema];
    } else {
      var next := SchemaStep(schema, path[0]).value;
      StepIff(schema, path[0], next);
      var rest := SchemaAtChain(next, path[1..]);
      chain := [schema] + rest;
      forall k | 0 <= k < |path| ensures StepsTo(chain[k], path[k], chain[k + 1]) {
        if k > 0 {
          assert path[1..][k - 1] == path[k] && rest[k - 1] == chain[k] && rest[k] == chain[k + 1];
        }
      }
    }
  }

  lemma {:induction false} ChainIsSchemaAt(chain: seq<Schema>, path: seq<Segment>)
    requires Leads(chain, path)
    ensures SchemaAt(chain[0], path) == Some(chain[|path|])
    decreases |path|
  {
    if path != [] {
      StepIff(chain[0], path[0], chain[1]);
      assert forall k :: 0 <= k < |path[1..]| ==> path[1..][k] == path[k + 1];
      ChainIsSchemaAt(chain[1..], path[1..]);
    }
  }

  function ResolvedAs(schema: Schema): Resolved {
    Resolved(schema.kind, schema.ownership, schema.translatable, schema.file, Some(schema))
  }

  /** A path resolves to the last schema of the chain it leads along, with that schema's
      kind, owner and flags; a rule without a schema resolves for the empty path only. */
  lemma {:induction false} ResolveIff(rule: FieldRule, path: seq<Segment>, r: Resolved)
    ensures Resolve(rule, path) == Some(r) <==>
              if rule.schema.None? then path == [] && r == Resolved(rule.kind, rule.ownership, rule.translatable, rule.file, None)
              else exists chain :: Leads(chain, path) && chain[0] == rule.schema.value && r == ResolvedAs(chain[|path|])
  {
    if rule.schema.Some? {
      if Resolve(rule, path) == Some(r) {
        var chain := SchemaAtChain(rule.schema.value, path);
        assert r == ResolvedAs(chain[|path|]);
      }
      if chain :| Leads(chain, path) && chain[0] == rule.schema.value && r == ResolvedAs(chain[|path|]) {
        ChainIsSchemaAt(chain, path);
      }
    }
  }
}
