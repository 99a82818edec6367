/** What a text edit does inside a value: which texts it selects, what becomes of each
    of them, and that everything else stays where and what it was. */
module TextRewriting {
  import opened Lists
  import opened RichText
  import opened RichTextFormat
  import opened RichTextSelection
  import opened TextReplacement
  import opened Values
  import opened Documents
  import opened TextEdits

  // ----- replacing in a string -----

  function Join(parts: seq<string>, separator: string): string
    requires parts != []
  {
    if |parts| == 1 then parts[0] else parts[0] + separator + Join(parts[1..], separator)
  }

  /** From each part on, the first occurrence of `find` is the one behind that part. */
  ghost predicate CutsAtFirst(parts: seq<string>, find: string) {
    forall k, at :: 0 <= k < |parts| && 0 <= at < |parts[k]| ==> !Occurs(Join(parts[k..], find), find, at)
  }

  lemma JoinPrefixed(c: char, parts: seq<string>, separator: string)
    requires parts != []
    ensures Join([[c] + parts[0]] + parts[1..], separator) == [c] + Join(parts, separator)
  {
    var more := [[c] + parts[0]] + parts[1..];
    assert more[1..] == parts[1..];
    if |parts| > 1 {
      var rest := separator + Join(parts[1..], separator);
      assert ([c] + parts[0]) + rest == [c] + (parts[0] + rest);
      assert ([c] + parts[0]) + separator + Join(parts[1..], separator) == ([c] + parts[0]) + rest;
      assert parts[0] + separator + Join(parts[1..], separator) == parts[0] + rest;
    }
  }

  lemma {:induction false} CutPrefixed(c: char, parts: seq<string>, find: string)
    requires parts != [] && CutsAtFirst(parts, find) && !Occurs([c] + Join(parts, find), find, 0)
    ensures CutsAtFirst([[c] + parts[0]] + parts[1..], find)
  {
    var more := [[c] + parts[0]] + parts[1..];
    JoinPrefixed(c, parts, find);
    forall k, at | 0 <= k < |more| && 0 <= at < |more[k]| ensures !Occurs(Join(more[k..], find), find, at) {
      if k == 0 {
        assert more[0..] == more && parts[0..] == parts;
        if at > 0 {
          assert ([c] + Join(parts, find))[at..] == Join(parts, find)[at - 1..];
          assert !Occurs(Join(parts[0..], find), find, at - 1);
          OccursBehind(c, Join(parts, find), find, at);
        }
      } else {
        assert more[k..] == parts[k..];
      }
    }
  }

  lemma OccursBehind(c: char, s: string, find: string, at: nat)
    requires at > 0
    ensures Occurs([c] + s, find, at) <==> Occurs(s, find, at - 1)
  {
    var t := [c] + s;
    if at + |find| <= |t| {
      assert t[at..at + |find|] == s[at - 1..at - 1 + |find|];
    }
  }

  lemma {:induction false} CutBehind(parts: seq<string>, find: string)
    requires parts != [] && CutsAtFirst(parts, find)
    ensures Join([""] + parts, find) == find + Join(parts, find)
    ensures CutsAtFirst([""] + parts, find)
  {
    var more := [""] + parts;
    assert more[1..] == parts;
    assert "" + find == find;
    forall k, at | 0 <= k < |more| && 0 <= at < |more[k]| ensures !Occurs(Join(more[k..], find), find, at) {
      assert more[k..] == parts[k - 1..] && more[k] == parts[k - 1];
    }
  }

  /** The parts cut the text from `from` on, and joined by the replacement they are the
      replaced text. */
  ghost predicate Cuts(s: string, find: string, replacement: string, from: nat, parts: seq<string>)
    requires find != "" && from <= |s|
  {
    && parts != [] && Join(parts, find) == s[from..] && CutsAtFirst(parts, find)
    && Join(parts, replacement) == ReplaceFrom(s, find, replacement, from)
    && |parts| == |Scan(Hits(s, find), |find|, |s|, from)| + 1
  }

  lemma {:induction false} CutHit(s: string, find: string, replacement: string, from: nat, rest: seq<string>)
    requires find != "" && from < |s| && Occurs(s, find, from) && Cuts(s, find, replacement, from + |find|, rest)
    ensures Cuts(s, find, replacement, from, [""] + rest)
  {
    CutBehind(rest, find);
    assert s[from..] == find + s[from + |find|..];
    assert ([""] + rest)[1..] == rest;
    assert "" + replacement == replacement;
  }

  lemma {:induction false} CutMiss(s: string, find: string, replacement: string, from: nat, rest: seq<string>)
    requires find != "" && from < |s| && !Occurs(s, find, from) && Cuts(s, find, replacement, from + 1, rest)
    ensures Cuts(s, find, replacement, from, [[s[from]] + rest[0]] + rest[1..])
  {
    assert s[from..] == [s[from]] + s[from + 1..];
    assert !Occurs(s[from..], find, 0) by {
      assert |find| <= |s| - from ==> s[from..][0..|find|] == s[from..from + |find|];
    }
    JoinPrefixed(s[from], rest, find);
    JoinPrefixed(s[from], rest, replacement);
    CutPrefixed(s[from], rest, find);
  }

  lemma {:induction false} ReplaceCuts(s: string, find: string, replacement: string, from: nat) returns (parts: seq<string>)
    requires find != "" && from <= |s|
    ensures Cuts(s, find, replacement, from, parts)
    decreases |s| - from
  {
    if from == |s| {
      parts := [""];
    } else if Occurs(s, find, from) {
      var rest := ReplaceCuts(s, find, replacement, from + |find|);
      CutHit(s, find, replacement, from, rest);
      parts := [""] + rest;
    } else {
      var rest := ReplaceCuts(s, find, replacement, from + 1);
      CutMiss(s, find, replacement, from, rest);
      parts := [[s[from]] + rest[0]] + rest[1..];
    }
  }

  /** A replacement cuts the text at each occurrence, always the first one left, and
      puts the replacement into the cuts: one for each counted occurrence. */
  lemma {:induction false} ReplaceMeaning(s: string, find: string, replacement: string) returns (parts: seq<string>)
    requires find != ""
    ensures parts != [] && |parts| == Count(s, find) + 1
    ensures Join(parts, find) == s && CutsAtFirst(parts, find)
    ensures ReplaceAll(s, find, replacement) == Join(parts, replacement)
  {
    parts := ReplaceCuts(s, find, replacement, 0);
    assert s[0..] == s;
  }

  // ----- replacing in rich text -----

  function Replacing(find: string, replacement: string): Leaf -> Leaf
    requires find != ""
  {
    (leaf: Leaf) => if leaf.TextLeaf? then TextLeaf(ReplaceAll(leaf.text, find, replacement), leaf.marks) else leaf
  }

  function Filled(): Leaf -> bool {
    (leaf: Leaf) => leaf.AtomLeaf? || leaf.text != ""
  }

  /** Every leaf keeps its place and its marks; a text leaf has its own text replaced,
      and goes when nothing is left. */
  lemma {:induction false} ReplaceLeavesMeaning(leaves: seq<Leaf>, find: string, replacement: string)
    requires find != ""
    ensures ReplaceLeaves(leaves, find, replacement) == Filter(Map(leaves, Replacing(find, replacement)), Filled())
  {
    if leaves != [] {
      ReplaceLeavesMeaning(leaves[1..], find, replacement);
      var first := Replacing(find, replacement)(leaves[0]);
      assert Map(leaves, Replacing(find, replacement)) == [first] + Map(leaves[1..], Replacing(find, replacement));
      FilterConcat([first], Map(leaves[1..], Replacing(find, replacement)), Filled());
      assert [first][1..] == [];
    }
  }

  /** An item is left out when nothing is left of it; a mark without children stays. */
  predicate Stays(item: InlineItem, find: string, replacement: string)
    requires find != ""
  {
    match item
    case Text(text) => ReplaceAll(text, find, replacement) != ""
    case Fixed(_) => true
    case Marked(_, children) => children == [] || ReplaceInline(children, find, replacement) != []
  }

  /** An item with what is inside it replaced: the same text run, atom or mark. */
  ghost predicate ReplacedBy(item: InlineItem, after: InlineItem, find: string, replacement: string)
    requires find != ""
  {
    match item
    case Text(text) => after == Text(ReplaceAll(text, find, replacement))
    case Fixed(_) => after == item
    case Marked(mark, children) => after == Marked(mark, ReplaceInline(children, find, replacement))
  }

  ghost predicate AllReplaced(items: seq<InlineItem>, at: seq<nat>, after: seq<InlineItem>, find: string, replacement: string)
    requires find != "" && forall j :: 0 <= j < |at| ==> at[j] < |items|
  {
    |after| == |at| && forall j :: 0 <= j < |at| ==> ReplacedBy(items[at[j]], after[j], find, replacement)
  }

  function Staying(items: seq<InlineItem>, find: string, replacement: string): nat -> bool
    requires find != ""
  {
    (i: nat) => i < |items| && Stays(items[i], find, replacement)
  }

  lemma {:induction false} ReplaceOne(item: InlineItem, find: string, replacement: string)
    requires find != ""
    ensures var r := ReplaceItem(item, find, replacement);
            if Stays(item, find, replacement) then |r| == 1 && ReplacedBy(item, r[0], find, replacement) else r == []
  {
  }

  lemma ReplacedAppend(
    items: seq<InlineItem>, at: seq<nat>, n: nat, before: seq<InlineItem>, last: InlineItem, find: string, replacement: string)
    requires find != "" && n < |items| && (forall j :: 0 <= j < |at| ==> at[j] < |items|)
    requires AllReplaced(items, at, before, find, replacement) && ReplacedBy(items[n], last, find, replacement)
    ensures AllReplaced(items, at + [n], before + [last], find, replacement)
  {
  }

  lemma ReplacedMore(
    items: seq<InlineItem>, n: nat, at: seq<nat>, before: seq<InlineItem>, one: seq<InlineItem>, find: string, replacement: string)
    requires find != "" && n < |items| && (forall j :: 0 <= j < |at| ==> at[j] < |items|)
    requires AllReplaced(items, at, before, find, replacement)
    requires if Stays(items[n], find, replacement) then |one| == 1 && ReplacedBy(items[n], one[0], find, replacement) else one == []
    ensures AllReplaced(items, if Stays(items[n], find, replacement) then at + [n] else at, before + one, find, replacement)
  {
    if Stays(items[n], find, replacement) {
      ReplacedAppend(items, at, n, before, one[0], find, replacement);
      assert one == [one[0]];
    } else {
      assert before + one == before;
    }
  }

  /** The positions of the items that stay, one item further. */
  lemma StayingStep(items: seq<InlineItem>, n: nat, at: seq<nat>, find: string, replacement: string)
    requires find != "" && n < |items| && Chosen(at, n, Staying(items, find, replacement))
    ensures var more := if Stays(items[n], find, replacement) then at + [n] else at;
            Chosen(more, n + 1, Staying(items, find, replacement)) && forall j :: 0 <= j < |more| ==> more[j] < |items|
  {
    ChosenStep(at, n, Staying(items, find, replacement));
    ChosenBelow(if Stays(items[n], find, replacement) then at + [n] else at, n + 1, Staying(items, find, replacement), items);
  }

  /** The items that stay keep their order and what they are, at every depth: no mark is
      split, merged or moved. */
  lemma {:induction false} ReplaceKeepsItems(items: seq<InlineItem>, find: string, replacement: string, n: nat) returns (at: seq<nat>)
    requires find != "" && n <= |items|
    ensures Chosen(at, n, Staying(items, find, replacement))
    ensures forall j :: 0 <= j < |at| ==> at[j] < |items|
    ensures AllReplaced(items, at, ReplaceInline(items[..n], find, replacement), find, replacement)
  {
    if n == 0 {
      at := [];
    } else {
      var m: nat := n - 1;
      var before := ReplaceKeepsItems(items, find, replacement, m);
      at := if Stays(items[m], find, replacement) then before + [m] else before;
      StayingStep(items, m, before, find, replacement);
      ReplacedPrefix(items, m, before, at, find, replacement);
    }
  }

  lemma {:induction false} ReplacedPrefix(items: seq<InlineItem>, m: nat, before: seq<nat>, at: seq<nat>, find: string, replacement: string)
    requires find != "" && m < |items|
    requires (forall j :: 0 <= j < |before| ==> before[j] < |items|) && (forall j :: 0 <= j < |at| ==> at[j] < |items|)
    requires at == if Stays(items[m], find, replacement) then before + [m] else before
    requires AllReplaced(items, before, ReplaceInline(items[..m], find, replacement), find, replacement)
    ensures AllReplaced(items, at, ReplaceInline(items[..m + 1], find, replacement), find, replacement)
  {
    ReplaceInlineStep(items, m, find, replacement);
    ReplaceOne(items[m], find, replacement);
    ReplacedMore(items, m, before, ReplaceInline(items[..m], find, replacement), ReplaceItem(items[m], find, replacement), find, replacement);
  }

  // ----- values inside a value -----

  function Children(value: Value): seq<Entry> {
    match value
    case ListValue(items) => items
    case ObjectValue(fields) => fields
    case _ => []
  }

  /** The value reached by taking these positions of lists and objects, one after another. */
  function Nested(value: Value, at: seq<nat>): Option<Value>
    decreases |at|
  {
    if at == [] then Some(value)
    else if at[0] < |Children(value)| then Nested(Children(value)[at[0]].value, at[1..])
    else None
  }

  ghost predicate SameNames(a: seq<Entry>, b: seq<Entry>) {
    |a| == |b| && forall i :: 0 <= i < |a| ==> b[i].id == a[i].id
  }

  /** What the edit makes of rich text. */
  ghost predicate InlineEdited(e: TextEdit, before: seq<InlineItem>, after: seq<InlineItem>)
    requires ValidEdit(e)
  {
    var old_, new_ := TreeContent(before, []), TreeContent(after, []);
    if e.replace.Some? then
      && Flatten(after, []) == Filter(Map(Flatten(before, []), Replacing(e.find, e.replace.value)), Filled())
      && (NoHollow(after) <==> NoHollow(before))
    else
      |new_| == |old_| && forall i :: 0 <= i < |old_| ==>
        var selected := if e.link != "" then Mark(Link, e.link) in old_[i].marks
                        else old_[i].TextLeaf? && Covered(Occurrences(Joined(old_), e.find), i);
        new_[i] == if selected then old_[i].WithMarks(Apply(e.format.value, old_[i].marks)) else old_[i]
  }

  /** What the edit makes of one value, with what is in it left aside. */
  ghost predicate EditedAs(e: TextEdit, before: Value, after: Value)
    requires ValidEdit(e)
  {
    match before
    case TextValue(text) => after == TextValue(if e.replace.Some? then ReplaceAll(text, e.find, e.replace.value) else text)
    case RichValue(items) => after.RichValue? && InlineEdited(e, items, after.inline)
    case ListValue(items) => after.ListValue? && SameNames(items, after.items)
    case ObjectValue(fields) => after.ObjectValue? && SameNames(fields, after.fields)
    case _ => after == before
  }

  lemma {:induction false} MappedInside(value: Value, inline: seq<InlineItem> -> seq<InlineItem>, text: string -> string, at: seq<nat>)
    ensures Nested(MapValue(value, inline, text), at) ==
              match Nested(value, at)
              case None => None
              case Some(v) => Some(MapValue(v, inline, text))
    decreases |at|
  {
    if at != [] && at[0] < |Children(value)| {
      MapEntriesAt(Children(value), at[0], inline, text);
      MappedInside(Children(value)[at[0]].value, inline, text, at[1..]);
    }
  }

  lemma {:induction false} InlineIsEdited(e: TextEdit, items: seq<InlineItem>)
    requires ValidEdit(e)
    ensures InlineEdited(e, items, EditInline(e)(items))
  {
    if e.replace.Some? {
      ReplaceKeepsMarks(items, e.find, e.replace.value, []);
      ReplaceLeavesMeaning(Flatten(items, []), e.find, e.replace.value);
      ReplaceNoHollow(items, e.find, e.replace.value);
    } else if e.link != "" {
      FormatLinksMeaning(items, e.link, e.format.value);
    } else {
      FormatTextMeaning(items, e.find, e.format.value);
    }
  }

  lemma {:induction false} MapIsEdited(e: TextEdit, value: Value)
    requires ValidEdit(e)
    ensures EditedAs(e, value, MapValue(value, EditInline(e), EditText(e)))
  {
    if value.RichValue? {
      InlineIsEdited(e, value.inline);
    }
  }

  /** Wherever a value holds something, the rewritten one holds what the edit makes of
      it, and it holds nothing else. */
  lemma {:induction false} RewrittenInside(e: TextEdit, value: Value, at: seq<nat>)
    requires ValidEdit(e) && Rewrite(e, value).Some?
    ensures var before, after := Nested(value, at), Nested(Rewrite(e, value).value, at);
            after.Some? == before.Some? && (before.Some? ==> EditedAs(e, before.value, after.value))
  {
    MappedInside(value, EditInline(e), EditText(e), at);
    if Nested(value, at).Some? {
      MapIsEdited(e, Nested(value, at).value);
    }
  }

  // ----- the same by names -----

  lemma {:induction false} MappedEntriesRead(entries: seq<Entry>, inline: seq<InlineItem> -> seq<InlineItem>, text: string -> string, id: nat, rest: seq<Segment>)
    ensures ReadEntries(MapEntries(entries, inline, text), id, rest) ==
              match ReadEntries(entries, id, rest)
              case None => None
              case Some(v) => Some(MapValue(v, inline, text))
    decreases |rest|, 1
  {
    FindSameIds(MapEntries(entries, inline, text), entries, EntryId, id);
    var i := Find(entries, EntryId, id);
    if i < |entries| {
      MapEntriesAt(entries, i, inline, text);
      if rest != [] {
        MappedRead(entries[i].value, inline, text, rest);
      }
    }
  }

  lemma {:induction false} MappedRead(value: Value, inline: seq<InlineItem> -> seq<InlineItem>, text: string -> string, path: seq<Segment>)
    requires path != []
    ensures ReadPath(MapValue(value, inline, text), path) ==
              match ReadPath(value, path)
              case None => None
              case Some(v) => Some(MapValue(v, inline, text))
    decreases |path|, 0
  {
    match path[0]
    case FieldSegment(field) =>
      if value.ObjectValue? {
        MappedEntriesRead(value.fields, inline, text, field, path[1..]);
      }
    case ItemSegment(item) =>
      if value.ListValue? {
        MappedEntriesRead(value.items, inline, text, item, path[1..]);
      }
  }

  /** The same by names: at every path something is read afterwards exactly when it was
      before, and then it is what the edit makes of it. */
  lemma {:induction false} RewrittenReads(e: TextEdit, value: Value, path: seq<Segment>)
    requires ValidEdit(e) && Rewrite(e, value).Some? && path != []
    ensures var before, after := ReadPath(value, path), ReadPath(Rewrite(e, value).value, path);
            after.Some? == before.Some? && (before.Some? ==> EditedAs(e, before.value, after.value))
  {
    MappedRead(value, EditInline(e), EditText(e), path);
    if ReadPath(value, path).Some? {
      MapIsEdited(e, ReadPath(value, path).value);
    }
  }
}
