/** Catalog rules: the recursive schemas that assign a kind to every path of a
    value, and the check a value must pass before it is stored. */
module Schemas {
  import opened Lists
  import opened RichText
  import opened Values

  datatype Ownership = Shared | Source | Locale

  datatype ListIdentity = Positional | ByValue | ByField(field: FieldID) | Fixed(handles: seq<ItemID>)

  datatype Schema = Schema(
    kind: ValueKind, ownership: Ownership, translatable: bool, file: bool,
    item: Option<Schema>, fields: seq<NestedField>, identity: ListIdentity)

  datatype NestedField = NestedField(field: FieldID, schema: Schema)

  datatype FieldRule = FieldRule(
    kind: ValueKind, ownership: Ownership, translatable: bool, file: bool, schema: Option<Schema>)

  /** What the catalog says about one path. */
  datatype Resolved = Resolved(
    kind: ValueKind, ownership: Ownership, translatable: bool, file: bool, schema: Option<Schema>)

  const MAX_NESTING: nat := 32

  function NestedId(f: NestedField): nat { f.field }

  // ----- the schema at a path -----

  function ObjectFieldSchema(schema: Schema, field: FieldID): Option<Schema> {
    if schema.file || schema.kind != ObjectKind then None
    else
      var i := Find(schema.fields, NestedId, field);
      if i == |schema.fields| then None else Some(schema.fields[i].schema)
  }

  function ListItemSchema(schema: Schema, item: ItemID): Option<Schema> {
    if schema.file || schema.kind != ListKind || schema.item.None? then None
    else
      match schema.identity
      case Positional => None
      case Fixed(handles) => if item in handles then schema.item else None
      case _ => schema.item
  }

  predicate ValidSegment(segment: Segment) {
    match segment
    case FieldSegment(field) => field != NONE
    case ItemSegment(item) => item != NONE
  }

  function SchemaStep(schema: Schema, segment: Segment): Option<Schema> {
    if !ValidSegment(segment) then None
    else
      match segment
      case FieldSegment(field) => ObjectFieldSchema(schema, field)
      case ItemSegment(item) => ListItemSchema(schema, item)
  }

  function SchemaAt(schema: Schema, path: seq<Segment>): Option<Schema>
    decreases |path|
  {
    if path == [] then Some(schema)
    else
      match SchemaStep(schema, path[0])
      case None => None
      case Some(next) => SchemaAt(next, path[1..])
  }

  /** The loop that walks a schema down a path. */
  method ResolveNestedFieldRule(rule: FieldRule, path: seq<Segment>) returns (r: Option<Resolved>)
    ensures r == Resolve(rule, path)
  {
    if rule.schema.None? {
      if path != [] {
        return None;
      }
      return Some(Resolved(rule.kind, rule.ownership, rule.translatable, rule.file, None));
    }
    var current := rule.schema.value;
    for k := 0 to |path|
      invariant SchemaAt(rule.schema.value, path) == SchemaAt(current, path[k..])
    {
      assert path[k..][0] == path[k] && path[k..][1..] == path[k + 1..];
      match SchemaStep(current, path[k])
      case None => return None;
      case Some(next) => current := next;
    }
    return Some(Resolved(current.kind, current.ownership, current.translatable, current.file, Some(current)));
  }

  function Resolve(rule: FieldRule, path: seq<Segment>): Option<Resolved> {
    match rule.schema
    case None =>
      if path != [] then None
      else Some(Resolved(rule.kind, rule.ownership, rule.translatable, rule.file, None))
    case Some(schema) =>
      match SchemaAt(schema, path)
      case None => None
      case Some(s) => Some(Resolved(s.kind, s.ownership, s.translatable, s.file, Some(s)))
  }

  // ----- values a schema admits -----

  /** What is asked of strings: the identifier a scalar names its list item by, and
      which numbers, mark parameters and atoms are well formed. */
  datatype Strings = Strings(name: string -> nat, number: string -> bool, mark: Mark -> bool, atom: Atom -> bool)

  predicate ValidInlineItem(item: InlineItem, depth: nat, s: Strings)
    decreases item
  {
    depth <= MAX_NESTING &&
    match item
    case Text(_) => true
    case Fixed(atom) => s.atom(atom)
    case Marked(mark, children) =>
      s.mark(mark) && children != [] && forall i :: 0 <= i < |children| ==> ValidInlineItem(children[i], depth + 1, s)
  }

  /** Rich text: bounded nesting, and every mark wraps something. */
  predicate ValidInline(items: seq<InlineItem>, depth: nat, s: Strings) {
    forall i :: 0 <= i < |items| ==> ValidInlineItem(items[i], depth, s)
  }

  /** The shape every value has before any schema: bounded nesting, distinct object
      fields, and list items that are all named, distinctly, or all unnamed. */
  predicate ValidValue(value: Value, depth: nat, s: Strings)
    decreases value
  {
    depth <= MAX_NESTING &&
    match value
    case NumberValue(decimal) => s.number(decimal)
    case RichValue(inline) => ValidInline(inline, 0, s)
    case ListValue(items) =>
      && (forall i :: 0 <= i < |items| ==> (items[i].id != NONE) == (items[0].id != NONE))
      && (forall i, j :: 0 <= i < j < |items| && items[i].id != NONE ==> items[i].id != items[j].id)
      && (forall i :: 0 <= i < |items| ==> ValidValue(items[i].value, depth + 1, s))
    case ObjectValue(fields) =>
      && (forall i :: 0 <= i < |fields| ==> fields[i].id != NONE)
      && (forall i, j :: 0 <= i < j < |fields| ==> fields[i].id != fields[j].id)
      && (forall i :: 0 <= i < |fields| ==> ValidValue(fields[i].value, depth + 1, s))
    case _ => true
  }

  /** A value- or field-identified item is named by the scalar it is identified by. */
  predicate IdentityHolds(item: Entry, identity: ListIdentity, name: string -> nat) {
    match identity
    case ByValue =>
      (item.value.TextValue? && item.id == name(item.value.text)) ||
      (item.value.NumberValue? && item.id == name(item.value.decimal))
    case ByField(field) =>
      item.value.ObjectValue? &&
      (var i := Find(item.value.fields, EntryId, field);
       i < |item.value.fields| && item.value.fields[i].value.TextValue? && item.id == name(item.value.fields[i].value.text))
    case _ => true
  }

  predicate ListIdentityHolds(items: seq<Entry>, identity: ListIdentity, name: string -> nat) {
    && (items != [] ==> (items[0].id != NONE) == (identity != Positional))
    && (identity.Fixed? ==> |items| == |identity.handles| && forall i :: 0 <= i < |items| ==> items[i].id == identity.handles[i])
    && (forall i :: 0 <= i < |items| ==> IdentityHolds(items[i], identity, name))
  }

  /** The check a value passes before it is stored under `schema`. */
  predicate FitsSchema(value: Value, schema: Schema, depth: nat, s: Strings)
    decreases value
  {
    && depth <= MAX_NESTING && !schema.file && value.Kind() == schema.kind && ValidValue(value, depth, s)
    && match value
       case ListValue(items) =>
         && schema.item.Some?
         && ListIdentityHolds(items, schema.identity, s.name)
         && (forall i :: 0 <= i < |items| ==> FitsSchema(items[i].value, schema.item.value, depth + 1, s))
       case ObjectValue(fields) =>
         (forall i :: 0 <= i < |fields| ==>
            ObjectFieldSchema(schema, fields[i].id).Some? &&
            FitsSchema(fields[i].value, ObjectFieldSchema(schema, fields[i].id).value, depth + 1, s))
       case _ => true
  }

  /** The value has the kind its schema assigns at every path. */
  predicate KindsFit(value: Value, schema: Schema)
    decreases value
  {
    && !schema.file && value.Kind() == schema.kind
    && match value
       case ListValue(items) =>
         && schema.item.Some?
         && (forall i :: 0 <= i < |items| ==> KindsFit(items[i].value, schema.item.value))
       case ObjectValue(fields) =>
         (forall i :: 0 <= i < |fields| ==>
            ObjectFieldSchema(schema, fields[i].id).Some? &&
            KindsFit(fields[i].value, ObjectFieldSchema(schema, fields[i].id).value))
       case _ => true
  }

  lemma {:induction false} FittingValueFitsKinds(value: Value, schema: Schema, depth: nat, s: Strings)
    requires FitsSchema(value, schema, depth, s)
    ensures KindsFit(value, schema)
    decreases value
  {
    match value
    case ListValue(items) =>
      forall i | 0 <= i < |items| ensures KindsFit(items[i].value, schema.item.value) {
        FittingValueFitsKinds(items[i].value, schema.item.value, depth + 1, s);
      }
    case ObjectValue(fields) =>
      forall i | 0 <= i < |fields| ensures KindsFit(fields[i].value, ObjectFieldSchema(schema, fields[i].id).value) {
        FittingValueFitsKinds(fields[i].value, ObjectFieldSchema(schema, fields[i].id).value, depth + 1, s);
      }
    case _ =>
  }

  /** Kinds at every path: what is read anywhere has the kind the catalog assigns. */
  lemma {:induction false} KindsFitAtPath(value: Value, schema: Schema, path: seq<Segment>)
    requires path != [] && KindsFit(value, schema) && SchemaAt(schema, path).Some? && ReadPath(value, path).Some?
    ensures KindsFit(ReadPath(value, path).value, SchemaAt(schema, path).value)
    decreases |path|
  {
    var entries := if path[0].FieldSegment? then value.fields else value.items;
    var id := if path[0].FieldSegment? then path[0].field else path[0].item;
    var i := Find(entries, EntryId, id);
    if |path| > 1 {
      KindsFitAtPath(entries[i].value, SchemaStep(schema, path[0]).value, path[1..]);
    }
  }

  // ----- writes keep kinds -----

  ghost predicate EntriesFit(entries: seq<Entry>, schema: Schema) {
    forall i :: 0 <= i < |entries| ==>
      ObjectFieldSchema(schema, entries[i].id).Some? &&
      KindsFit(entries[i].value, ObjectFieldSchema(schema, entries[i].id).value)
  }

  ghost predicate ItemsFit(entries: seq<Entry>, item: Schema) {
    forall i :: 0 <= i < |entries| ==> KindsFit(entries[i].value, item)
  }

  ghost predicate WriteFits(write: Write, schema: Schema) {
    write.Set? ==> KindsFit(write.value, schema)
  }

  /** A write at a path the schema resolves never meets a value of the wrong kind,
      and a set of a fitting value leaves a fitting value. */
  lemma {:induction false} NestedWriteKeepsKinds(value: Value, schema: Schema, path: seq<Segment>, write: Write)
    requires path != [] && KindsFit(value, schema)
    requires SchemaAt(schema, path).Some? && WriteFits(write, SchemaAt(schema, path).value)
    ensures MutatePath(value, path, write).Some?
    ensures KindsFit(MutatePath(value, path, write).value, schema)
    decreases |path|
  {
    var next := SchemaStep(schema, path[0]).value;
    match path[0]
    case FieldSegment(field) =>
      var i := Find(value.fields, EntryId, field);
      if i < |value.fields| && |path| > 1 {
        NestedWriteKeepsKinds(value.fields[i].value, next, path[1..], write);
      }
      ObjectWriteKeepsKinds(value.fields, schema, field, path[1..], write);
    case ItemSegment(item) =>
      var i := Find(value.items, EntryId, item);
      if i < |value.items| && |path| > 1 {
        NestedWriteKeepsKinds(value.items[i].value, next, path[1..], write);
      }
      ListWriteKeepsKinds(value.items, next, item, path[1..], write);
  }

  lemma {:induction false} ObjectWriteKeepsKinds(
    fields: seq<Entry>, schema: Schema, field: FieldID, rest: seq<Segment>, write: Write)
    requires EntriesFit(fields, schema) && ObjectFieldSchema(schema, field).Some?
    requires rest == [] ==> WriteFits(write, ObjectFieldSchema(schema, field).value)
    requires var i := Find(fields, EntryId, field);
             i < |fields| && rest != [] ==>
               MutatePath(fields[i].value, rest, write).Some? &&
               KindsFit(MutatePath(fields[i].value, rest, write).value, ObjectFieldSchema(schema, field).value)
    ensures MutateEntries(fields, field, rest, write, true).Some?
    ensures EntriesFit(MutateEntries(fields, field, rest, write, true).value, schema)
  {
    var i := Find(fields, EntryId, field);
    if i < |fields| && rest == [] && write.Unset? {
      var after := fields[..i] + fields[i + 1..];
      assert forall j :: 0 <= j < |after| ==> after[j] == fields[if j < i then j else j + 1];
    }
  }

  lemma {:induction false} ListWriteKeepsKinds(items: seq<Entry>, element: Schema, item: ItemID, rest: seq<Segment>, write: Write)
    requires ItemsFit(items, element)
    requires rest == [] ==> WriteFits(write, element)
    requires var i := Find(items, EntryId, item);
             i < |items| && rest != [] ==>
               MutatePath(items[i].value, rest, write).Some? &&
               KindsFit(MutatePath(items[i].value, rest, write).value, element)
    ensures MutateEntries(items, item, rest, write, false).Some?
    ensures ItemsFit(MutateEntries(items, item, rest, write, false).value, element)
  {
    var i := Find(items, EntryId, item);
    if i < |items| && rest == [] && write.Unset? {
      var after := items[..i] + items[i + 1..];
      assert forall j :: 0 <= j < |after| ==> after[j] == items[if j < i then j else j + 1];
    }
  }

  /** A stored field value has its rule's kind, and fits its schema where it has one. */
  predicate FieldFits(value: Value, rule: FieldRule) {
    !rule.file && value.Kind() == rule.kind && (rule.schema.Some? ==> KindsFit(value, rule.schema.value))
  }

  // ----- identifiers of stored values -----

  /** Named entries have names of their own. */
  predicate IdsDistinct(entries: seq<Entry>) {
    forall i, j :: 0 <= i < j < |entries| && entries[i].id != NONE ==> entries[i].id != entries[j].id
  }

  /** At every level of the value, named entries have names of their own. */
  predicate Distinct(value: Value)
    decreases value
  {
    match value
    case ListValue(items) => IdsDistinct(items) && forall i :: 0 <= i < |items| ==> Distinct(items[i].value)
    case ObjectValue(fields) => IdsDistinct(fields) && forall i :: 0 <= i < |fields| ==> Distinct(fields[i].value)
    case _ => true
  }

  predicate DistinctEntries(entries: seq<Entry>) {
    IdsDistinct(entries) && forall i :: 0 <= i < |entries| ==> Distinct(entries[i].value)
  }

  predicate ValidPath(path: seq<Segment>) {
    forall i :: 0 <= i < |path| ==> ValidSegment(path[i])
  }

  lemma {:induction false} ValidIsDistinct(value: Value, depth: nat, s: Strings)
    requires ValidValue(value, depth, s)
    ensures Distinct(value)
    decreases value
  {
    match value
    case ListValue(items) =>
      forall i | 0 <= i < |items| ensures Distinct(items[i].value) {
        ValidIsDistinct(items[i].value, depth + 1, s);
      }
    case ObjectValue(fields) =>
      forall i | 0 <= i < |fields| ensures Distinct(fields[i].value) {
        ValidIsDistinct(fields[i].value, depth + 1, s);
      }
    case _ =>
  }

  /** A path of validated values names one entry at each step. */
  lemma {:induction false} DistinctIsUnambiguous(entries: seq<Entry>, id: nat, rest: seq<Segment>)
    requires DistinctEntries(entries) && id != NONE && ValidPath(rest)
    ensures Unambiguous(entries, id, rest)
    decreases |rest|
  {
    var i := Find(entries, EntryId, id);
    if i < |entries| && rest != [] {
      assert ValidSegment(rest[0]) && Distinct(entries[i].value);
      match rest[0]
      case FieldSegment(field) =>
        if entries[i].value.ObjectValue? {
          DistinctIsUnambiguous(entries[i].value.fields, field, rest[1..]);
        }
      case ItemSegment(item) =>
        if entries[i].value.ListValue? {
          DistinctIsUnambiguous(entries[i].value.items, item, rest[1..]);
        }
    }
  }

  /** Writes keep identifiers distinct, at whatever depth. */
  lemma {:induction false} WriteKeepsDistinct(entries: seq<Entry>, id: nat, rest: seq<Segment>, write: Write, create: bool)
    requires DistinctEntries(entries) && id != NONE && ValidPath(rest) && (write.Set? ==> Distinct(write.value))
    requires MutateEntries(entries, id, rest, write, create).Some?
    ensures DistinctEntries(MutateEntries(entries, id, rest, write, create).value)
    decreases |rest|, 1
  {
    var i := Find(entries, EntryId, id);
    if i < |entries| {
      if rest != [] {
        NestedWriteKeepsDistinct(entries[i].value, rest, write);
      } else if write.Unset? {
        var after := entries[..i] + entries[i + 1..];
        assert forall j :: 0 <= j < |after| ==> after[j] == entries[if j < i then j else j + 1];
      }
    }
  }

  lemma {:induction false} NestedWriteKeepsDistinct(value: Value, path: seq<Segment>, write: Write)
    requires path != [] && Distinct(value) && ValidPath(path) && (write.Set? ==> Distinct(write.value))
    requires MutatePath(value, path, write).Some?
    ensures Distinct(MutatePath(value, path, write).value)
    decreases |path|, 0
  {
    assert ValidSegment(path[0]);
    match path[0]
    case FieldSegment(field) => WriteKeepsDistinct(value.fields, field, path[1..], write, true);
    case ItemSegment(item) => WriteKeepsDistinct(value.items, item, path[1..], write, false);
  }

  /** In values that were valid when stored, whatever nested writes came since, an unset
      then a read finds nothing. */
  lemma {:induction false} UnsetLeavesNothing(entries: seq<Entry>, id: nat, rest: seq<Segment>)
    requires DistinctEntries(entries) && id != NONE && ValidPath(rest)
    requires MutateEntries(entries, id, rest, Unset, true).Some?
    ensures ReadEntries(MutateEntries(entries, id, rest, Unset, true).value, id, rest) == None
  {
    DistinctIsUnambiguous(entries, id, rest);
    UnsetThenRead(entries, id, rest, true);
  }
}
