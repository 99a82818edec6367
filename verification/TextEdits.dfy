/** Text edits over the locale-owned values of a document: what one edit matches and
    rewrites, and the plan of a batch of edits. */
module TextEdits {
  import opened Lists
  import opened RichText
  import opened RichTextFormat
  import opened RichTextSelection
  import opened TextReplacement
  import opened Values
  import opened Documents

  /** An edit of the text `find`, or of the links to `link`: a replacement or a format. */
  datatype TextEdit = TextEdit(
    block: BlockID, find: string, link: string, all: bool, replace: Option<string>, format: Option<Format>)

  predicate EmptyFormat(f: Format) {
    f.add == [] && f.remove == [] && f.link == None && f.textColor == None && f.background == None
  }

  predicate ValidEdit(e: TextEdit) {
    && (e.find == "") != (e.link == "")
    && (e.replace.None? != e.format.None?)
    && (e.replace.Some? ==> e.link == "" && e.find != e.replace.value)
    && (e.format.Some? ==> !EmptyFormat(e.format.value))
  }

  // ----- counting -----

  function CountValue(value: Value, inText: string -> nat, inInline: seq<InlineItem> -> nat): nat {
    match value
    case TextValue(text) => inText(text)
    case RichValue(inline) => inInline(inline)
    case ListValue(items) => CountEntries(items, inText, inInline)
    case ObjectValue(fields) => CountEntries(fields, inText, inInline)
    case _ => 0
  }

  function CountEntries(entries: seq<Entry>, inText: string -> nat, inInline: seq<InlineItem> -> nat): nat {
    if entries == [] then 0 else CountEntry(entries[0], inText, inInline) + CountEntries(entries[1..], inText, inInline)
  }

  function CountEntry(entry: Entry, inText: string -> nat, inInline: seq<InlineItem> -> nat): nat {
    CountValue(entry.value, inText, inInline)
  }

  predicate HasLeaf(items: seq<InlineItem>) {
    Flatten(items, []) != []
  }

  /** The links to `address` that hold anything. */
  function CountLinks(items: seq<InlineItem>, address: string): nat {
    if items == [] then 0 else CountItemLinks(items[0], address) + CountLinks(items[1..], address)
  }

  function CountItemLinks(item: InlineItem, address: string): nat {
    match item
    case Marked(mark, children) =>
      (if mark == Mark(Link, address) && HasLeaf(children) then 1 else 0) + CountLinks(children, address)
    case _ => 0
  }

  /** What the edit can change in a value: a replacement stays inside one text run,
      a format may span several. */
  function CountEdit(e: TextEdit, value: Value): nat {
    if e.replace.Some? then
      CountValue(value, (text: string) => Count(text, e.find), (items: seq<InlineItem>) => CountInline(items, e.find))
    else if e.link != "" then
      CountValue(value, (text: string) => Count(text, e.find), (items: seq<InlineItem>) => CountLinks(items, e.link))
    else
      CountValue(value, (text: string) => Count(text, e.find),
                 (items: seq<InlineItem>) => Count(Joined(TreeContent(items, [])), e.find))
  }

  // ----- rewriting -----

  /** The rich and plain text inside a value, rewritten; lists and objects keep their shape. */
  ghost function MapValue(value: Value, inline: seq<InlineItem> -> seq<InlineItem>, text: string -> string): Value {
    match value
    case TextValue(t) => TextValue(text(t))
    case RichValue(items) => RichValue(inline(items))
    case ListValue(items) => ListValue(MapEntries(items, inline, text))
    case ObjectValue(fields) => ObjectValue(MapEntries(fields, inline, text))
    case _ => value
  }

  ghost function MapEntries(entries: seq<Entry>, inline: seq<InlineItem> -> seq<InlineItem>, text: string -> string): (r: seq<Entry>)
    ensures |r| == |entries| && forall i :: 0 <= i < |entries| ==> r[i].id == entries[i].id
  {
    if entries == [] then [] else [MapEntry(entries[0], inline, text)] + MapEntries(entries[1..], inline, text)
  }

  ghost function MapEntry(entry: Entry, inline: seq<InlineItem> -> seq<InlineItem>, text: string -> string): (r: Entry)
    ensures r.id == entry.id
  {
    Entry(entry.id, MapValue(entry.value, inline, text))
  }

  /** Some plain text inside the value holds `find`. */
  function PlainTextHas(value: Value, find: string): bool {
    find != "" && CountValue(value, (text: string) => if Count(text, find) > 0 then 1 else 0, (items: seq<InlineItem>) => 0) > 0
  }

  ghost function EditInline(e: TextEdit): seq<InlineItem> -> seq<InlineItem>
    requires ValidEdit(e)
  {
    if e.replace.Some? then (items: seq<InlineItem>) => ReplaceInline(items, e.find, e.replace.value)
    else if e.link != "" then (items: seq<InlineItem>) => FormatLinks(items, e.link, e.format.value)
    else (items: seq<InlineItem>) => FormatText(items, e.find, e.format.value)
  }

  function EditText(e: TextEdit): string -> string
    requires ValidEdit(e)
  {
    if e.replace.Some? then (text: string) => ReplaceAll(text, e.find, e.replace.value) else (text: string) => text
  }

  /** The value an edit leaves; None when it would format plain text. */
  ghost function Rewrite(e: TextEdit, value: Value): Option<Value>
    requires ValidEdit(e)
  {
    if e.format.Some? && PlainTextHas(value, e.find) then None else Some(MapValue(value, EditInline(e), EditText(e)))
  }

  method RewriteInline(e: TextEdit, items: seq<InlineItem>) returns (r: seq<InlineItem>)
    requires ValidEdit(e)
    ensures r == EditInline(e)(items)
  {
    if e.replace.Some? {
      r := ReplaceInlineText(items, e.find, e.replace.value);
    } else if e.link != "" {
      r := FormatInlineLinks(items, e.link, e.format.value);
    } else {
      r := FormatInline(items, e.find, e.format.value);
    }
  }

  lemma {:induction false} MapEntriesStep(entries: seq<Entry>, k: nat, inline: seq<InlineItem> -> seq<InlineItem>, text: string -> string)
    requires k < |entries|
    ensures MapEntries(entries[..k + 1], inline, text)
         == MapEntries(entries[..k], inline, text) + [MapEntry(entries[k], inline, text)]
    decreases k
  {
    if k > 0 {
      assert entries[..k + 1][1..] == entries[1..][..k] && entries[..k][1..] == entries[1..][..k - 1];
      MapEntriesStep(entries[1..], k - 1, inline, text);
    }
  }

  lemma {:induction false} MapEntriesAt(entries: seq<Entry>, i: nat, inline: seq<InlineItem> -> seq<InlineItem>, text: string -> string)
    requires i < |entries|
    ensures MapEntries(entries, inline, text)[i] == MapEntry(entries[i], inline, text)
    decreases i
  {
    if i > 0 {
      MapEntriesAt(entries[1..], i - 1, inline, text);
    }
  }

  method MapValueText(e: TextEdit, value: Value) returns (r: Value)
    requires ValidEdit(e)
    ensures r == MapValue(value, EditInline(e), EditText(e))
    decreases value
  {
    match value {
      case TextValue(text) => r := TextValue(EditText(e)(text));
      case RichValue(items) =>
        var inline := RewriteInline(e, items);
        r := RichValue(inline);
      case ListValue(items) =>
        var mapped := MapEntriesText(e, items);
        r := ListValue(mapped);
      case ObjectValue(fields) =>
        var mapped := MapEntriesText(e, fields);
        r := ObjectValue(mapped);
      case _ => r := value;
    }
  }

  method MapEntriesText(e: TextEdit, entries: seq<Entry>) returns (r: seq<Entry>)
    requires ValidEdit(e)
    ensures r == MapEntries(entries, EditInline(e), EditText(e))
    decreases entries
  {
    r := [];
    for k := 0 to |entries|
      invariant r == MapEntries(entries[..k], EditInline(e), EditText(e))
    {
      MapEntriesStep(entries, k, EditInline(e), EditText(e));
      var mapped := MapEntryText(e, entries[k]);
      r := r + [mapped];
    }
    assert entries[..|entries|] == entries;
  }

  method MapEntryText(e: TextEdit, entry: Entry) returns (r: Entry)
    requires ValidEdit(e)
    ensures r == MapEntry(entry, EditInline(e), EditText(e))
    decreases entry
  {
    var mapped := MapValueText(e, entry.value);
    r := Entry(entry.id, mapped);
  }

  // ----- editable fields -----

  /** One locale-owned value as the edits so far left it. */
  datatype EditableField = EditableField(target: Target, original: Value, value: Value, changed: bool)

  function Editable(block: BlockID, relation: RelationID, item: ItemID, e: Entry): EditableField {
    EditableField(Target(block, relation, item, e.id, []), e.value, e.value, false)
  }

  function EntryFields(entries: seq<Entry>, block: BlockID, relation: RelationID, item: ItemID): seq<EditableField> {
    if entries == [] then []
    else EntryFields(entries[..|entries| - 1], block, relation, item) + [Editable(block, relation, item, entries[|entries| - 1])]
  }

  function ItemFields(items: seq<RelationItem>, block: BlockID, relation: RelationID): seq<EditableField> {
    if items == [] then []
    else
      var last := items[|items| - 1];
      ItemFields(items[..|items| - 1], block, relation) + EntryFields(last.localized, block, relation, last.id)
  }

  function RelationsFields(relations: seq<Relation>, block: BlockID): seq<EditableField> {
    if relations == [] then []
    else
      var last := relations[|relations| - 1];
      RelationsFields(relations[..|relations| - 1], block) + ItemFields(last.items, block, last.id)
  }

  function NodeFields(n: Node): seq<EditableField> {
    EntryFields(n.localized, n.id, NONE, NONE) + RelationsFields(n.relations, n.id)
  }

  /** The locale-owned values of the document, in document order. */
  function EditableFields(nodes: seq<Node>): seq<EditableField> {
    if nodes == [] then [] else EditableFields(nodes[..|nodes| - 1]) + NodeFields(nodes[|nodes| - 1])
  }

  method CollectEntries(entries: seq<Entry>, block: BlockID, relation: RelationID, item: ItemID) returns (fields: seq<EditableField>)
    ensures fields == EntryFields(entries, block, relation, item)
  {
    fields := [];
    for k := 0 to |entries|
      invariant fields == EntryFields(entries[..k], block, relation, item)
    {
      assert entries[..k + 1][..k] == entries[..k];
      fields := fields + [Editable(block, relation, item, entries[k])];
    }
    assert entries[..|entries|] == entries;
  }

  method CollectRelation(relation: Relation, block: BlockID) returns (fields: seq<EditableField>)
    ensures fields == ItemFields(relation.items, block, relation.id)
  {
    fields := [];
    var items := relation.items;
    for k := 0 to |items|
      invariant fields == ItemFields(items[..k], block, relation.id)
    {
      assert items[..k + 1][..k] == items[..k];
      var more := CollectEntries(items[k].localized, block, relation.id, items[k].id);
      fields := fields + more;
    }
    assert items[..|items|] == items;
  }

  method CollectNode(n: Node) returns (fields: seq<EditableField>)
    ensures fields == NodeFields(n)
  {
    var own := CollectEntries(n.localized, n.id, NONE, NONE);
    fields := [];
    for k := 0 to |n.relations|
      invariant fields == RelationsFields(n.relations[..k], n.id)
    {
      assert n.relations[..k + 1][..k] == n.relations[..k];
      var more := CollectRelation(n.relations[k], n.id);
      fields := fields + more;
    }
    assert n.relations[..|n.relations|] == n.relations;
    fields := own + fields;
  }

  method CollectFields(nodes: seq<Node>) returns (fields: seq<EditableField>)
    ensures fields == EditableFields(nodes)
  {
    fields := [];
    for k := 0 to |nodes|
      invariant fields == EditableFields(nodes[..k])
    {
      assert nodes[..k + 1][..k] == nodes[..k];
      var more := CollectNode(nodes[k]);
      fields := fields + more;
    }
    assert nodes[..|nodes|] == nodes;
  }

  // ----- one edit -----

  predicate CoversField(e: TextEdit, f: EditableField) {
    e.block == NONE || f.target.block == e.block
  }

  predicate MatchesField(e: TextEdit, f: EditableField) {
    CoversField(e, f) && CountEdit(e, f.value) > 0
  }

  function Total(e: TextEdit, fields: seq<EditableField>): nat {
    if fields == [] then 0
    else (if CoversField(e, fields[0]) then CountEdit(e, fields[0].value) else 0) + Total(e, fields[1..])
  }

  /** The fields with every matched one rewritten, or None when one cannot be. */
  ghost function RewriteEach(e: TextEdit, fields: seq<EditableField>): (r: Option<seq<EditableField>>)
    requires ValidEdit(e)
    ensures r.Some? ==> |r.value| == |fields|
  {
    if fields == [] then Some([])
    else
      match RewriteEach(e, fields[..|fields| - 1])
      case None => None
      case Some(front) =>
        var last := fields[|fields| - 1];
        if !MatchesField(e, last) then Some(front + [last])
        else
          match Rewrite(e, last.value)
          case None => None
          case Some(value) => Some(front + [last.(value := value, changed := true)])
  }

  /** One edit: refused when it is malformed, selects nothing, or selects several
      times without saying so. */
  ghost function EditFields(e: TextEdit, fields: seq<EditableField>): Option<seq<EditableField>> {
    if !ValidEdit(e) then None
    else if Total(e, fields) == 0 then None
    else if Total(e, fields) > 1 && !e.all then None
    else RewriteEach(e, fields)
  }

  lemma {:induction false} TotalStep(e: TextEdit, fields: seq<EditableField>, k: nat)
    requires k < |fields|
    ensures Total(e, fields[..k + 1]) == Total(e, fields[..k]) + if CoversField(e, fields[k]) then CountEdit(e, fields[k].value) else 0
    decreases k
  {
    if k > 0 {
      assert fields[..k + 1][1..] == fields[1..][..k] && fields[..k][1..] == fields[1..][..k - 1];
      TotalStep(e, fields[1..], k - 1);
    }
  }

  lemma {:induction false} RewriteFails(e: TextEdit, fields: seq<EditableField>, k: nat)
    requires ValidEdit(e) && k <= |fields| && RewriteEach(e, fields[..k]).None?
    ensures RewriteEach(e, fields).None?
    decreases |fields|
  {
    if k < |fields| {
      var front := fields[..|fields| - 1];
      assert fields[..k] == front[..k];
      RewriteFails(e, front, k);
    } else {
      assert fields[..k] == fields;
    }
  }

  /** The fields of a plan, edited in place one edit after another. */
  class TextEditor {
    var fields: seq<EditableField>

    constructor (editable: seq<EditableField>)
      ensures fields == editable
    {
      fields := editable;
    }

    /** Which fields the edit matches, and how often in all. */
    method Match(e: TextEdit) returns (matched: seq<bool>, occurrences: nat)
      ensures |matched| == |fields| && forall j :: 0 <= j < |fields| ==> matched[j] == MatchesField(e, fields[j])
      ensures occurrences == Total(e, fields)
    {
      matched, occurrences := [], 0;
      for k := 0 to |fields|
        invariant |matched| == k && forall j :: 0 <= j < k ==> matched[j] == MatchesField(e, fields[j])
        invariant occurrences == Total(e, fields[..k])
      {
        TotalStep(e, fields, k);
        var count := CountEdit(e, fields[k].value);
        if !CoversField(e, fields[k]) || count == 0 {
          matched := matched + [false];
        } else {
          matched := matched + [true];
          occurrences := occurrences + count;
        }
      }
      assert fields[..|fields|] == fields;
    }

    method ApplyTextEdit(e: TextEdit) returns (ok: bool)
      modifies this
      ensures ok <==> EditFields(e, old(fields)).Some?
      ensures ok ==> fields == EditFields(e, old(fields)).value
    {
      if !ValidEdit(e) {
        return false;
      }
      var matched, occurrences := Match(e);
      if occurrences == 0 || (occurrences > 1 && !e.all) {
        return false;
      }
      ghost var before := fields;
      var k := 0;
      while k < |fields|
        invariant k <= |fields| == |before| && forall j :: k <= j < |fields| ==> fields[j] == before[j]
        invariant RewriteEach(e, before[..k]) == Some(fields[..k])
      {
        RewriteEachStep(e, before, k);
        if matched[k] {
          if e.format.Some? && PlainTextHas(fields[k].value, e.find) {
            RewriteFails(e, before, k + 1);
            return false;
          }
          var value := MapValueText(e, fields[k].value);
          ghost var front := fields[..k];
          fields := fields[k := fields[k].(value := value, changed := true)];
          assert fields[..k + 1] == front + [fields[k]];
        } else {
          assert fields[..k + 1] == fields[..k] + [fields[k]];
        }
        k := k + 1;
      }
      assert fields[..|fields|] == fields && before[..|fields|] == before;
      return true;
    }
  }

  lemma RewriteEachStep(e: TextEdit, fields: seq<EditableField>, k: nat)
    requires ValidEdit(e) && k < |fields| && RewriteEach(e, fields[..k]).Some?
    ensures var front, last := RewriteEach(e, fields[..k]).value, fields[k];
            RewriteEach(e, fields[..k + 1]) ==
              if !MatchesField(e, last) then Some(front + [last])
              else if Rewrite(e, last.value).None? then None
              else Some(front + [last.(value := Rewrite(e, last.value).value, changed := true)])
  {
    assert fields[..k + 1][..k] == fields[..k];
  }

  // ----- a batch -----

  /** The fields after all the edits, or None when one of them failed. */
  ghost function EditAll(edits: seq<TextEdit>, fields: seq<EditableField>): Option<seq<EditableField>>
    decreases |edits|
  {
    if edits == [] then Some(fields)
    else
      match EditFields(edits[0], fields)
      case None => None
      case Some(next) => EditAll(edits[1..], next)
  }

  /** One write for each changed field. */
  function Writes(fields: seq<EditableField>): seq<Operation> {
    if fields == [] then [] else Writes(fields[..|fields| - 1]) + WriteOf(fields[|fields| - 1])
  }

  function WriteOf(f: EditableField): seq<Operation> {
    if f.changed then [SetField(f.target, f.value)] else []
  }

  /** The writes of a batch of edits, or None when one of the edits fails. */
  ghost function Plan(nodes: seq<Node>, edits: seq<TextEdit>): Option<seq<Operation>> {
    match EditAll(edits, EditableFields(nodes))
    case None => None
    case Some(fields) => Some(Writes(fields))
  }

  method PlanTextEdits(nodes: seq<Node>, edits: seq<TextEdit>) returns (plan: Option<seq<Operation>>)
    ensures plan == Plan(nodes, edits)
  {
    var editable := CollectFields(nodes);
    var editor := new TextEditor(editable);
    for k := 0 to |edits|
      invariant EditAll(edits[k..], editor.fields) == EditAll(edits, EditableFields(nodes))
    {
      assert edits[k..][0] == edits[k] && edits[k..][1..] == edits[k + 1..];
      var ok := editor.ApplyTextEdit(edits[k]);
      if !ok {
        return None;
      }
    }
    var operations := CollectWrites(editor.fields);
    return Some(operations);
  }

  method CollectWrites(fields: seq<EditableField>) returns (operations: seq<Operation>)
    ensures operations == Writes(fields)
  {
    operations := [];
    for k := 0 to |fields|
      invariant operations == Writes(fields[..k])
    {
      assert fields[..k + 1][..k] == fields[..k];
      if fields[k].changed {
        operations := operations + [SetField(fields[k].target, fields[k].value)];
      }
    }
    assert fields[..|fields|] == fields;
  }
}
