/** Typed field values, writes at nested paths, and the catalog schemas that close
    them. Identifiers are natural numbers; 0 stands for the absent identifier. */
module Values {
  import opened Lists
  import opened RichText

  type FieldID = nat
  type ItemID = nat

  const NONE: nat := 0

  datatype ValueKind = TextKind | BooleanKind | NumberKind | RichTextKind | ListKind | ObjectKind

  /** A named value: a field of a block, a field of an object, or a list item. */
  datatype Entry = Entry(id: nat, value: Value)

  datatype Value =
    | TextValue(text: string)
    | BooleanValue(boolean: bool)
    | NumberValue(decimal: string)
    | RichValue(inline: seq<InlineItem>)
    | ListValue(items: seq<Entry>)
    | ObjectValue(fields: seq<Entry>)
  {
    function Kind(): ValueKind {
      match this
      case TextValue(_) => TextKind
      case BooleanValue(_) => BooleanKind
      case NumberValue(_) => NumberKind
      case RichValue(_) => RichTextKind
      case ListValue(_) => ListKind
      case ObjectValue(_) => ObjectKind
    }
  }

  datatype Segment = FieldSegment(field: FieldID) | ItemSegment(item: ItemID)

  datatype Write = Set(value: Value) | Unset

  function EntryId(e: Entry): nat { e.id }

  // ----- writing at a path -----

  /** Writes the entry `id`, or below it at `rest`. A missing entry is created only
      by a set that ends here, where `create` allows it; anything else through a
      missing entry changes nothing. None is the traversal error. */
  function MutateEntries(entries: seq<Entry>, id: nat, rest: seq<Segment>, write: Write, create: bool): Option<seq<Entry>>
    decreases |rest|, 1
  {
    var i := Find(entries, EntryId, id);
    if i == |entries| then
      if rest == [] && write.Set? && create then Some(entries + [Entry(id, write.value)]) else Some(entries)
    else if rest == [] then
      match write
      case Set(x) => Some(entries[i := Entry(id, x)])
      case Unset => Some(entries[..i] + entries[i + 1..])
    else
      match MutatePath(entries[i].value, rest, write)
      case None => None
      case Some(v) => Some(entries[i := Entry(id, v)])
  }

  function MutatePath(value: Value, path: seq<Segment>, write: Write): Option<Value>
    requires path != []
    decreases |path|, 0
  {
    match path[0]
    case FieldSegment(field) =>
      if !value.ObjectValue? then None
      else (match MutateEntries(value.fields, field, path[1..], write, true)
            case None => None
            case Some(fields) => Some(ObjectValue(fields)))
    case ItemSegment(item) =>
      if !value.ListValue? then None
      else (match MutateEntries(value.items, item, path[1..], write, false)
            case None => None
            case Some(items) => Some(ListValue(items)))
  }

  // ----- reading at a path -----

  function ReadEntries(entries: seq<Entry>, id: nat, rest: seq<Segment>): Option<Value>
    decreases |rest|, 1
  {
    var i := Find(entries, EntryId, id);
    if i == |entries| then None
    else if rest == [] then Some(entries[i].value)
    else ReadPath(entries[i].value, rest)
  }

  function ReadPath(value: Value, path: seq<Segment>): Option<Value>
    requires path != []
    decreases |path|, 0
  {
    match path[0]
    case FieldSegment(field) => if value.ObjectValue? then ReadEntries(value.fields, field, path[1..]) else None
    case ItemSegment(item) => if value.ListValue? then ReadEntries(value.items, item, path[1..]) else None
  }

  /** The container that a set at the path writes into is there. */
  predicate Settable(entries: seq<Entry>, id: nat, rest: seq<Segment>, create: bool)
    decreases |rest|
  {
    var i := Find(entries, EntryId, id);
    if rest == [] then create || i < |entries|
    else
      i < |entries| &&
      match rest[0]
      case FieldSegment(field) =>
        entries[i].value.ObjectValue? && Settable(entries[i].value.fields, field, rest[1..], true)
      case ItemSegment(item) =>
        entries[i].value.ListValue? && Settable(entries[i].value.items, item, rest[1..], false)
  }

  lemma FindInUpdated(entries: seq<Entry>, i: nat, x: Entry, id: nat)
    requires i < |entries| && x.id == entries[i].id
    ensures Find(entries[i := x], EntryId, id) == Find(entries, EntryId, id)
  {
    var updated := entries[i := x];
    assert forall j :: 0 <= j < |entries| ==> updated[j].id == entries[j].id;
    var f, g := Find(updated, EntryId, id), Find(entries, EntryId, id);
    assert f < |entries| ==> entries[f].id == id;
    assert g < |entries| ==> updated[g].id == id;
  }

  lemma FindInAppended(entries: seq<Entry>, x: Entry, id: nat)
    requires Find(entries, EntryId, x.id) == |entries|
    ensures Find(entries + [x], EntryId, id) == if id == x.id then |entries| else
              if Find(entries, EntryId, id) < |entries| then Find(entries, EntryId, id) else |entries| + 1
  {
    var all := entries + [x];
    var f := Find(all, EntryId, id);
    assert all[|entries|] == x;
    assert forall j :: 0 <= j < |entries| ==> all[j] == entries[j];
    var g := Find(entries, EntryId, id);
    assert g < |entries| ==> all[g].id == id;
  }

  /** Set, then read: the value is there exactly when the container was; otherwise
      the set left everything as it was. */
  lemma {:induction false} SetThenRead(entries: seq<Entry>, id: nat, rest: seq<Segment>, x: Value, create: bool)
    requires MutateEntries(entries, id, rest, Set(x), create).Some?
    ensures var after := MutateEntries(entries, id, rest, Set(x), create).value;
            if Settable(entries, id, rest, create) then ReadEntries(after, id, rest) == Some(x) else after == entries
    decreases |rest|
  {
    var i := Find(entries, EntryId, id);
    if i == |entries| {
      if rest == [] && create {
        FindInAppended(entries, Entry(id, x), id);
      }
    } else if rest == [] {
      FindInUpdated(entries, i, Entry(id, x), id);
    } else {
      var v := MutatePath(entries[i].value, rest, Set(x)).value;
      FindInUpdated(entries, i, Entry(id, v), id);
      match rest[0]
      case FieldSegment(field) => SetThenRead(entries[i].value.fields, field, rest[1..], x, true);
      case ItemSegment(item) => SetThenRead(entries[i].value.items, item, rest[1..], x, false);
    }
  }

  /** Every identifier on the path names at most one entry where it is looked up. */
  predicate Unambiguous(entries: seq<Entry>, id: nat, rest: seq<Segment>)
    decreases |rest|
  {
    var i := Find(entries, EntryId, id);
    i < |entries| ==>
      (forall j :: 0 <= j < |entries| && j != i ==> entries[j].id != id) &&
      (rest != [] ==>
         match rest[0]
         case FieldSegment(field) =>
           entries[i].value.ObjectValue? ==> Unambiguous(entries[i].value.fields, field, rest[1..])
         case ItemSegment(item) =>
           entries[i].value.ListValue? ==> Unambiguous(entries[i].value.items, item, rest[1..]))
  }

  /** Unset, then read: nothing is there. */
  lemma {:induction false} UnsetThenRead(entries: seq<Entry>, id: nat, rest: seq<Segment>, create: bool)
    requires MutateEntries(entries, id, rest, Unset, create).Some? && Unambiguous(entries, id, rest)
    ensures ReadEntries(MutateEntries(entries, id, rest, Unset, create).value, id, rest) == None
    decreases |rest|
  {
    var i := Find(entries, EntryId, id);
    if i == |entries| {
    } else if rest == [] {
      var after := entries[..i] + entries[i + 1..];
      forall j | 0 <= j < |after| ensures after[j].id != id {
        assert after[j] == if j < i then entries[j] else entries[j + 1];
      }
    } else {
      var v := MutatePath(entries[i].value, rest, Unset).value;
      FindInUpdated(entries, i, Entry(id, v), id);
      match rest[0]
      case FieldSegment(field) => UnsetThenRead(entries[i].value.fields, field, rest[1..], true);
      case ItemSegment(item) => UnsetThenRead(entries[i].value.items, item, rest[1..], false);
    }
  }

  /** Neither path leads through the other. */
  predicate Apart(id: nat, rest: seq<Segment>, id': nat, rest': seq<Segment>) {
    id != id' || !(rest <= rest' || rest' <= rest)
  }

  lemma FindInRemoved(entries: seq<Entry>, i: nat, id: nat)
    requires i < |entries| && entries[i].id != id
    ensures var after := entries[..i] + entries[i + 1..];
            var f, g := Find(after, EntryId, id), Find(entries, EntryId, id);
            if g < |entries| then f < |after| && after[f] == entries[g] else f == |after|
  {
    var after := entries[..i] + entries[i + 1..];
    var f, g := Find(after, EntryId, id), Find(entries, EntryId, id);
    assert forall j :: 0 <= j < |after| ==> after[j] == entries[if j < i then j else j + 1];
    if g < |entries| {
      assert after[if g < i then g else g - 1] == entries[g];
    }
  }

  /** A write leaves what is read at every other path alone. */
  lemma {:induction false} WriteThenReadElsewhere(
    entries: seq<Entry>, id: nat, rest: seq<Segment>, write: Write, create: bool, id': nat, rest': seq<Segment>)
    requires MutateEntries(entries, id, rest, write, create).Some? && Apart(id, rest, id', rest')
    ensures ReadEntries(MutateEntries(entries, id, rest, write, create).value, id', rest') == ReadEntries(entries, id', rest')
    decreases |rest|
  {
    var i := Find(entries, EntryId, id);
    if i == |entries| {
      if rest == [] && write.Set? && create {
        FindInAppended(entries, Entry(id, write.value), id');
      }
    } else if rest == [] {
      match write
      case Set(x) => FindInUpdated(entries, i, Entry(id, x), id');
      case Unset => FindInRemoved(entries, i, id');
    } else {
      var v := MutatePath(entries[i].value, rest, write).value;
      FindInUpdated(entries, i, Entry(id, v), id');
      if id == id' {
        assert rest' != [] && rest[0] == rest'[0] ==> !(rest[1..] <= rest'[1..] || rest'[1..] <= rest[1..]) by {
          PrefixTail(rest, rest');
        }
        WriteBelowReadElsewhere(entries[i].value, rest, write, rest');
      }
    }
  }

  lemma PrefixTail(a: seq<Segment>, b: seq<Segment>)
    ensures a != [] && b != [] && a[0] == b[0] ==>
              (a <= b <==> a[1..] <= b[1..]) && (b <= a <==> b[1..] <= a[1..])
  {
    if a != [] && b != [] && a[0] == b[0] {
      assert a == [a[0]] + a[1..] && b == [b[0]] + b[1..];
    }
  }

  lemma {:induction false} WriteBelowReadElsewhere(value: Value, path: seq<Segment>, write: Write, path': seq<Segment>)
    requires path != [] && path' != [] && MutatePath(value, path, write).Some?
    requires !(path <= path' || path' <= path)
    ensures ReadPath(MutatePath(value, path, write).value, path') == ReadPath(value, path')
    decreases |path|, 0
  {
    PrefixTail(path, path');
    match path[0]
    case FieldSegment(field) =>
      if path'[0].FieldSegment? {
        WriteThenReadElsewhere(value.fields, field, path[1..], write, true, path'[0].field, path'[1..]);
      }
    case ItemSegment(item) =>
      if path'[0].ItemSegment? {
        WriteThenReadElsewhere(value.items, item, path[1..], write, false, path'[0].item, path'[1..]);
      }
  }
}
