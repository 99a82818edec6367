/** What a text edit selects: how its count adds up over the texts inside a value, and
    exactly when an edit is carried out. */
module TextSelecting {
  import opened Lists
  import opened RichText
  import opened RichTextFormat
  import opened RichTextSelection
  import opened TextReplacement
  import opened Values
  import opened Documents
  import opened TextEdits
  import opened TextRewriting

  // ----- the texts inside a value -----

  predicate IsText(value: Value) {
    value.TextValue? || value.RichValue?
  }

  function Prefixed(i: nat, paths: seq<seq<nat>>): (r: seq<seq<nat>>)
    ensures |r| == |paths| && forall k :: 0 <= k < |paths| ==> r[k] == [i] + paths[k]
  {
    seq(|paths|, k requires 0 <= k < |paths| => [i] + paths[k])
  }

  /** The positions of the texts inside a value. */
  function TextPaths(value: Value): seq<seq<nat>>
    decreases value
  {
    match value
    case TextValue(_) => [[]]
    case RichValue(_) => [[]]
    case ListValue(items) => EntryPaths(items, 0)
    case ObjectValue(fields) => EntryPaths(fields, 0)
    case _ => []
  }

  function EntryPaths(entries: seq<Entry>, first: nat): seq<seq<nat>>
    decreases entries
  {
    if entries == [] then [] else Prefixed(first, PathsOf(entries[0])) + EntryPaths(entries[1..], first + 1)
  }

  function PathsOf(entry: Entry): seq<seq<nat>>
    decreases entry
  {
    TextPaths(entry.value)
  }

  ghost predicate AllPathsOf(value: Value, paths: seq<seq<nat>>) {
    && (forall at :: at in paths <==> Nested(value, at).Some? && IsText(Nested(value, at).value))
    && (forall i, j :: 0 <= i < j < |paths| ==> paths[i] != paths[j])
  }

  /** The paths that start in one of the entries from `first` on. */
  ghost predicate AllPathsFrom(entries: seq<Entry>, first: nat, paths: seq<seq<nat>>) {
    && (forall at :: at in paths <==>
          at != [] && first <= at[0] < first + |entries| &&
          Nested(entries[at[0] - first].value, at[1..]).Some? && IsText(Nested(entries[at[0] - first].value, at[1..]).value))
    && (forall i, j :: 0 <= i < j < |paths| ==> paths[i] != paths[j])
  }

  lemma {:induction false} PrefixedPaths(value: Value, i: nat, paths: seq<seq<nat>>)
    requires AllPathsOf(value, paths)
    ensures AllPathsFrom([Entry(NONE, value)], i, Prefixed(i, paths))
  {
    var all := Prefixed(i, paths);
    var entries := [Entry(NONE, value)];
    forall at ensures at in all <==>
      at != [] && i <= at[0] < i + 1 && Nested(entries[at[0] - i].value, at[1..]).Some? && IsText(Nested(entries[at[0] - i].value, at[1..]).value)
    {
      if at in all {
        var k :| 0 <= k < |all| && all[k] == at;
        assert paths[k] in paths && at[1..] == paths[k];
      }
      if at != [] && at[0] == i && at[1..] in paths {
        var k :| 0 <= k < |paths| && paths[k] == at[1..];
        assert all[k] == [i] + at[1..] == at;
      }
    }
    forall k, m | 0 <= k < m < |all| ensures all[k] != all[m] {
      assert all[k][1..] == paths[k] && all[m][1..] == paths[m];
    }
  }

  lemma {:induction false} PathsConcat(x: Entry, rest: seq<Entry>, first: nat, a: seq<seq<nat>>, b: seq<seq<nat>>)
    requires AllPathsFrom([Entry(NONE, x.value)], first, a) && AllPathsFrom(rest, first + 1, b)
    ensures AllPathsFrom([x] + rest, first, a + b)
  {
    var entries := [x] + rest;
    forall at ensures at in a + b <==>
      at != [] && first <= at[0] < first + |entries| &&
      Nested(entries[at[0] - first].value, at[1..]).Some? && IsText(Nested(entries[at[0] - first].value, at[1..]).value)
    {
      if at != [] && first < at[0] < first + |entries| {
        assert entries[at[0] - first] == rest[at[0] - (first + 1)];
      }
      assert at in a + b <==> at in a || at in b;
    }
    forall i, j | 0 <= i < j < |a + b| ensures (a + b)[i] != (a + b)[j] {
      if i < |a| && j >= |a| {
        assert a[i] in a && b[j - |a|] in b;
      }
    }
  }

  /** The listed positions are those of all texts inside the value, each listed once. */
  lemma {:induction false} TextPathsAreAll(value: Value)
    ensures AllPathsOf(value, TextPaths(value))
    decreases value
  {
    match value
    case ListValue(items) =>
      EntryPathsAreAll(items, 0);
    case ObjectValue(fields) =>
      EntryPathsAreAll(fields, 0);
    case _ =>
  }

  lemma {:induction false} EntryPathsAreAll(entries: seq<Entry>, first: nat)
    ensures AllPathsFrom(entries, first, EntryPaths(entries, first))
    decreases entries
  {
    if entries != [] {
      EntryIsAll(entries[0]);
      EntryPathsAreAll(entries[1..], first + 1);
      PrefixedPaths(entries[0].value, first, PathsOf(entries[0]));
      PathsConcat(entries[0], entries[1..], first, Prefixed(first, PathsOf(entries[0])), EntryPaths(entries[1..], first + 1));
      assert entries == [entries[0]] + entries[1..];
    }
  }

  lemma {:induction false} EntryIsAll(entry: Entry)
    ensures AllPathsOf(entry.value, PathsOf(entry))
    decreases entry
  {
    TextPathsAreAll(entry.value);
  }

  // ----- counting -----

  /** What the edit selects in one text. */
  function CountText(e: TextEdit, value: Value): nat {
    match value
    case TextValue(text) => Count(text, e.find)
    case RichValue(items) =>
      if e.replace.Some? then CountInline(items, e.find)
      else if e.link != "" then CountLinks(items, e.link)
      else Count(Joined(TreeContent(items, [])), e.find)
    case _ => 0
  }

  function SumAt(e: TextEdit, value: Value, paths: seq<seq<nat>>): nat {
    if paths == [] then 0
    else (if Nested(value, paths[0]).Some? then CountText(e, Nested(value, paths[0]).value) else 0) + SumAt(e, value, paths[1..])
  }

  lemma {:induction false} SumConcat(e: TextEdit, value: Value, a: seq<seq<nat>>, b: seq<seq<nat>>)
    ensures SumAt(e, value, a + b) == SumAt(e, value, a) + SumAt(e, value, b)
  {
    if a == [] {
      assert a + b == b;
    } else {
      assert (a + b)[1..] == a[1..] + b;
      SumConcat(e, value, a[1..], b);
    }
  }

  lemma {:induction false} SumPrefixed(e: TextEdit, value: Value, i: nat, paths: seq<seq<nat>>)
    requires i < |Children(value)|
    ensures SumAt(e, value, Prefixed(i, paths)) == SumAt(e, Children(value)[i].value, paths)
    decreases |paths|
  {
    if paths != [] {
      assert Prefixed(i, paths)[1..] == Prefixed(i, paths[1..]);
      assert ([i] + paths[0])[1..] == paths[0];
      SumPrefixed(e, value, i, paths[1..]);
    }
  }

  function InText(e: TextEdit): string -> nat { (text: string) => Count(text, e.find) }

  function InInline(e: TextEdit): seq<InlineItem> -> nat {
    (items: seq<InlineItem>) =>
      if e.replace.Some? then CountInline(items, e.find)
      else if e.link != "" then CountLinks(items, e.link)
      else Count(Joined(TreeContent(items, [])), e.find)
  }

  lemma {:induction false} CountSums(e: TextEdit, value: Value, inText: string -> nat, inInline: seq<InlineItem> -> nat)
    requires forall text :: inText(text) == InText(e)(text)
    requires forall items :: inInline(items) == InInline(e)(items)
    ensures CountValue(value, inText, inInline) == SumAt(e, value, TextPaths(value))
    decreases value
  {
    match value
    case TextValue(text) => assert TextPaths(value)[1..] == [];
    case RichValue(items) => assert TextPaths(value)[1..] == [];
    case ListValue(items) => EntriesSum(e, value, items, 0, inText, inInline);
    case ObjectValue(fields) => EntriesSum(e, value, fields, 0, inText, inInline);
    case _ =>
  }

  lemma {:induction false} EntriesSum(e: TextEdit, value: Value, entries: seq<Entry>, first: nat, inText: string -> nat, inInline: seq<InlineItem> -> nat)
    requires forall text :: inText(text) == InText(e)(text)
    requires forall items :: inInline(items) == InInline(e)(items)
    requires first + |entries| == |Children(value)| && entries == Children(value)[first..]
    ensures CountEntries(entries, inText, inInline) == SumAt(e, value, EntryPaths(entries, first))
    decreases entries
  {
    if entries != [] {
      EntrySums(e, entries[0], inText, inInline);
      EntriesSum(e, value, entries[1..], first + 1, inText, inInline);
      SumPrefixed(e, value, first, PathsOf(entries[0]));
      SumConcat(e, value, Prefixed(first, PathsOf(entries[0])), EntryPaths(entries[1..], first + 1));
    }
  }

  lemma {:induction false} EntrySums(e: TextEdit, entry: Entry, inText: string -> nat, inInline: seq<InlineItem> -> nat)
    requires forall text :: inText(text) == InText(e)(text)
    requires forall items :: inInline(items) == InInline(e)(items)
    ensures CountEntry(entry, inText, inInline) == SumAt(e, entry.value, PathsOf(entry))
    decreases entry
  {
    CountSums(e, entry.value, inText, inInline);
  }

  /** What an edit selects in a value is the sum over all texts inside it, each once. */
  lemma {:induction false} CountEditSums(e: TextEdit, value: Value)
    ensures AllPathsOf(value, TextPaths(value))
    ensures CountEdit(e, value) == SumAt(e, value, TextPaths(value))
  {
    TextPathsAreAll(value);
    var inText := (text: string) => Count(text, e.find);
    if e.replace.Some? {
      CountSums(e, value, inText, (items: seq<InlineItem>) => CountInline(items, e.find));
    } else if e.link != "" {
      CountSums(e, value, inText, (items: seq<InlineItem>) => CountLinks(items, e.link));
    } else {
      CountSums(e, value, inText, (items: seq<InlineItem>) => Count(Joined(TreeContent(items, [])), e.find));
    }
  }

  /** A replacement counts in each text leaf by itself. */
  function CountLeaves(leaves: seq<Leaf>, find: string): nat {
    if leaves == [] then 0 else (if leaves[0].TextLeaf? then Count(leaves[0].text, find) else 0) + CountLeaves(leaves[1..], find)
  }

  lemma {:induction false} CountLeavesConcat(a: seq<Leaf>, b: seq<Leaf>, find: string)
    ensures CountLeaves(a + b, find) == CountLeaves(a, find) + CountLeaves(b, find)
  {
    if a == [] {
      assert a + b == b;
    } else {
      assert (a + b)[1..] == a[1..] + b;
      CountLeavesConcat(a[1..], b, find);
    }
  }

  lemma {:induction false} CountInlineLeaves(items: seq<InlineItem>, find: string, outer: seq<Mark>)
    ensures CountInline(items, find) == CountLeaves(Flatten(items, outer), find)
    decreases items
  {
    if items != [] {
      CountItemLeaves(items[0], find, outer);
      CountInlineLeaves(items[1..], find, outer);
      CountLeavesConcat(ItemLeaves(items[0], outer), Flatten(items[1..], outer), find);
    }
  }

  lemma {:induction false} CountItemLeaves(item: InlineItem, find: string, outer: seq<Mark>)
    ensures CountInlineItem(item, find) == CountLeaves(ItemLeaves(item, outer), find)
    decreases item
  {
    match item
    case Text(text) => assert [TextLeaf(text, outer)][1..] == [];
    case Fixed(atom) => assert [AtomLeaf(atom, outer)][1..] == [];
    case Marked(mark, children) => CountInlineLeaves(children, find, outer + [mark]);
  }

  // ----- links -----

  /** A leaf under its marks, each with the number of the item it comes from. */
  datatype NumberedLeaf = NumberedLeaf(marks: seq<(Mark, nat)>)

  datatype Visited = Visited(leaves: seq<NumberedLeaf>, origin: nat)

  /** Numbers the marks in reading order and collects the leaves under them. */
  function Visit(items: seq<InlineItem>, outer: seq<(Mark, nat)>, origin: nat): (r: Visited)
    ensures r.origin >= origin
    decreases items
  {
    if items == [] then Visited([], origin)
    else
      var first := VisitItem(items[0], outer, origin);
      var rest := Visit(items[1..], outer, first.origin);
      Visited(first.leaves + rest.leaves, rest.origin)
  }

  function VisitItem(item: InlineItem, outer: seq<(Mark, nat)>, origin: nat): (r: Visited)
    ensures r.origin >= origin
    decreases item
  {
    match item
    case Marked(mark, children) => Visit(children, outer + [(mark, origin + 1)], origin + 1)
    case _ => Visited([NumberedLeaf(outer)], origin)
  }

  /** The numbers of the links to `address` around these leaves. */
  function LinkOrigins(leaves: seq<NumberedLeaf>, address: string): set<nat> {
    set i, k | 0 <= i < |leaves| && 0 <= k < |leaves[i].marks| && leaves[i].marks[k].0 == Mark(Link, address) :: leaves[i].marks[k].1
  }

  function OuterOrigins(outer: seq<(Mark, nat)>, address: string): set<nat> {
    set k | 0 <= k < |outer| && outer[k].0 == Mark(Link, address) :: outer[k].1
  }

  lemma {:induction false} OriginsConcat(a: seq<NumberedLeaf>, b: seq<NumberedLeaf>, address: string)
    ensures LinkOrigins(a + b, address) == LinkOrigins(a, address) + LinkOrigins(b, address)
  {
    var all := a + b;
    forall x | x in LinkOrigins(a, address) ensures x in LinkOrigins(all, address) {
      var i, k :| 0 <= i < |a| && 0 <= k < |a[i].marks| && a[i].marks[k].0 == Mark(Link, address) && a[i].marks[k].1 == x;
      assert all[i].marks[k].1 == x;
    }
    forall x | x in LinkOrigins(b, address) ensures x in LinkOrigins(all, address) {
      var i, k :| 0 <= i < |b| && 0 <= k < |b[i].marks| && b[i].marks[k].0 == Mark(Link, address) && b[i].marks[k].1 == x;
      assert all[|a| + i].marks[k].1 == x;
    }
  }

  /** The origins a visit adds: the outer ones when it meets a leaf, and as many new ones
      as there are links that hold a leaf. */
  ghost predicate Numbers(r: Visited, outer: seq<(Mark, nat)>, origin: nat, address: string, numbers: set<nat>, links: nat) {
    && LinkOrigins(r.leaves, address) == numbers + (if r.leaves == [] then {} else OuterOrigins(outer, address))
    && (forall x :: x in numbers ==> origin < x <= r.origin)
    && |numbers| == links
  }

  lemma DisjointSizes(a: set<nat>, b: set<nat>, bound: nat)
    requires (forall x :: x in a ==> x <= bound) && (forall x :: x in b ==> bound < x)
    ensures |a + b| == |a| + |b|
  {
    assert a !! b;
  }

  lemma {:induction false} NumbersConcat(
    a: Visited, b: Visited, outer: seq<(Mark, nat)>, origin: nat, address: string, m: set<nat>, n: set<nat>, i: nat, j: nat)
    requires Numbers(a, outer, origin, address, m, i) && Numbers(b, outer, a.origin, address, n, j)
    requires origin <= a.origin <= b.origin
    ensures Numbers(Visited(a.leaves + b.leaves, b.origin), outer, origin, address, m + n, i + j)
  {
    var all := a.leaves + b.leaves;
    OriginsConcat(a.leaves, b.leaves, address);
    DisjointSizes(m, n, a.origin);
    NoneInConcat(a.leaves, b.leaves);
    MergeOrigins(m, n, OuterOrigins(outer, address), a.leaves == [], b.leaves == []);
    assert LinkOrigins(all, address) == (m + n) + (if all == [] then {} else OuterOrigins(outer, address));
  }

  lemma NoneInConcat(a: seq<NumberedLeaf>, b: seq<NumberedLeaf>)
    ensures a + b == [] <==> a == [] && b == []
  {
    assert |a + b| == |a| + |b|;
  }

  lemma MergeOrigins(m: set<nat>, n: set<nat>, outer: set<nat>, noneFirst: bool, noneRest: bool)
    ensures (m + (if noneFirst then {} else outer)) + (n + (if noneRest then {} else outer))
         == (m + n) + (if noneFirst && noneRest then {} else outer)
  {
  }

  lemma NoLeavesNoOrigins(r: Visited, address: string)
    ensures r.leaves == [] ==> LinkOrigins(r.leaves, address) == {}
  {
  }

  lemma {:induction false} NumbersInside(
    r: Visited, outer: seq<(Mark, nat)>, mark: Mark, number: nat, address: string, below: set<nat>, links: nat) returns (numbers: set<nat>)
    requires number > 0 && Numbers(r, outer + [(mark, number)], number, address, below, links) && number <= r.origin
    ensures Numbers(r, outer, number - 1, address, numbers, (if mark == Mark(Link, address) && r.leaves != [] then 1 else 0) + links)
  {
    OuterCons(outer, mark, number, address);
    NoLeavesNoOrigins(r, address);
    if mark == Mark(Link, address) && r.leaves != [] {
      assert number !in below;
      numbers := below + {number};
      assert below + (OuterOrigins(outer, address) + {number}) == numbers + OuterOrigins(outer, address);
    } else {
      numbers := below;
    }
  }

  lemma {:induction false} VisitLinks(items: seq<InlineItem>, outer: seq<(Mark, nat)>, origin: nat, address: string) returns (numbers: set<nat>)
    ensures Numbers(Visit(items, outer, origin), outer, origin, address, numbers, CountLinks(items, address))
    ensures (Visit(items, outer, origin).leaves == []) == (Flatten(items, []) == [])
    decreases items
  {
    if items == [] {
      numbers := {};
    } else {
      var first := VisitItem(items[0], outer, origin);
      var rest := Visit(items[1..], outer, first.origin);
      var a := VisitItemLinks(items[0], outer, origin, address);
      var b := VisitLinks(items[1..], outer, first.origin, address);
      NumbersConcat(first, rest, outer, origin, address, a, b, CountItemLinks(items[0], address), CountLinks(items[1..], address));
      numbers := a + b;
    }
  }

  lemma {:induction false} SameEmptyFlatten(items: seq<InlineItem>, outer: seq<Mark>)
    ensures (Flatten(items, outer) == []) == (Flatten(items, []) == [])
    decreases items
  {
    if items != [] {
      SameEmptyFlatten(items[1..], outer);
      if items[0].Marked? {
        SameEmptyFlatten(items[0].children, outer + [items[0].mark]);
        SameEmptyFlatten(items[0].children, [] + [items[0].mark]);
      }
    }
  }

  lemma {:induction false} VisitItemLinks(item: InlineItem, outer: seq<(Mark, nat)>, origin: nat, address: string) returns (numbers: set<nat>)
    ensures Numbers(VisitItem(item, outer, origin), outer, origin, address, numbers, CountItemLinks(item, address))
    ensures (VisitItem(item, outer, origin).leaves == []) == (ItemLeaves(item, []) == [])
    decreases item
  {
    match item
    case Marked(mark, children) =>
      var below := VisitLinks(children, outer + [(mark, origin + 1)], origin + 1, address);
      SameEmptyFlatten(children, [] + [mark]);
      numbers := NumbersInside(VisitItem(item, outer, origin), outer, mark, origin + 1, address, below, CountLinks(children, address));
    case _ =>
      numbers := {};
      OneLeafOrigins(outer, address);
  }

  lemma OuterCons(outer: seq<(Mark, nat)>, mark: Mark, number: nat, address: string)
    ensures OuterOrigins(outer + [(mark, number)], address)
         == OuterOrigins(outer, address) + (if mark == Mark(Link, address) then {number} else {})
  {
    var inner := outer + [(mark, number)];
    assert inner[|outer|] == (mark, number);
    forall x | x in OuterOrigins(outer, address) ensures x in OuterOrigins(inner, address) {
      var k :| 0 <= k < |outer| && outer[k].0 == Mark(Link, address) && outer[k].1 == x;
      assert inner[k].1 == x;
    }
  }

  lemma OneLeafOrigins(outer: seq<(Mark, nat)>, address: string)
    ensures LinkOrigins([NumberedLeaf(outer)], address) == OuterOrigins(outer, address)
  {
    var leaves := [NumberedLeaf(outer)];
    forall x | x in OuterOrigins(outer, address) ensures x in LinkOrigins(leaves, address) {
      var k :| 0 <= k < |outer| && outer[k].0 == Mark(Link, address) && outer[k].1 == x;
      assert leaves[0].marks[k].1 == x;
    }
  }

  /** Telling links apart by the numbers of their items counts the links that hold
      anything, also where two with the same address are neighbours. */
  lemma {:induction false} LinksByOrigin(items: seq<InlineItem>, address: string)
    ensures CountLinks(items, address) == |LinkOrigins(Visit(items, [], 0).leaves, address)|
  {
    var numbers := VisitLinks(items, [], 0, address);
  }

  // ----- when an edit is carried out -----

  ghost predicate Selects(e: TextEdit, f: EditableField) {
    (e.block == NONE || f.target.block == e.block) && CountEdit(e, f.value) > 0
  }

  /** One selection in all: in one field, once. */
  ghost predicate SelectsOnce(e: TextEdit, fields: seq<EditableField>) {
    exists i :: 0 <= i < |fields| && Selects(e, fields[i]) && CountEdit(e, fields[i].value) == 1
      && forall j :: 0 <= j < |fields| && j != i ==> !Selects(e, fields[j])
  }

  lemma {:induction false} TotalMeaning(e: TextEdit, fields: seq<EditableField>)
    ensures Total(e, fields) == 0 <==> forall i :: 0 <= i < |fields| ==> !Selects(e, fields[i])
    ensures Total(e, fields) == 1 <==> SelectsOnce(e, fields)
  {
    if fields != [] {
      TotalMeaning(e, fields[1..]);
      var rest := fields[1..];
      assert forall j :: 0 <= j < |rest| ==> rest[j] == fields[j + 1];
      assert forall j :: 1 <= j < |fields| ==> fields[j] == rest[j - 1];
      if SelectsOnce(e, fields) {
        var i :| 0 <= i < |fields| && Selects(e, fields[i]) && CountEdit(e, fields[i].value) == 1
          && forall j :: 0 <= j < |fields| && j != i ==> !Selects(e, fields[j]);
        if i > 0 {
          assert Selects(e, rest[i - 1]);
        }
      }
      if SelectsOnce(e, rest) && !Selects(e, fields[0]) {
        var i :| 0 <= i < |rest| && Selects(e, rest[i]) && CountEdit(e, rest[i].value) == 1
          && forall j :: 0 <= j < |rest| && j != i ==> !Selects(e, rest[j]);
        assert Selects(e, fields[i + 1]);
      }
      if Total(e, fields) == 1 && Selects(e, fields[0]) {
        assert forall j :: 0 <= j < |rest| ==> !Selects(e, rest[j]);
      }
    }
  }

  lemma {:induction false} RewriteEachIff(e: TextEdit, fields: seq<EditableField>)
    requires ValidEdit(e)
    ensures RewriteEach(e, fields).Some? <==>
              forall i :: 0 <= i < |fields| && Selects(e, fields[i]) ==> Rewrite(e, fields[i].value).Some?
  {
    if fields != [] {
      var front := fields[..|fields| - 1];
      RewriteEachIff(e, front);
      assert forall i :: 0 <= i < |front| ==> front[i] == fields[i];
    }
  }

  /** Some plain text inside the value holds the text the edit looks for. */
  ghost predicate PlainTextAt(value: Value, find: string) {
    exists at :: Nested(value, at).Some? && Nested(value, at).value.TextValue? && Count(Nested(value, at).value.text, find) > 0
  }

  lemma {:induction false} PlainTextIff(value: Value, find: string)
    ensures PlainTextHas(value, find) <==> find != "" && PlainTextAt(value, find)
  {
    if find != "" {
      PlainCount(value, find, (text: string) => if Count(text, find) > 0 then 1 else 0, (items: seq<InlineItem>) => 0);
    }
  }

  lemma {:induction false} PlainCount(value: Value, find: string, inText: string -> nat, inInline: seq<InlineItem> -> nat)
    requires forall text :: inText(text) == if Count(text, find) > 0 then 1 else 0
    requires forall items :: inInline(items) == 0
    ensures CountValue(value, inText, inInline) > 0 <==> PlainTextAt(value, find)
    decreases value
  {
    match value
    case TextValue(text) =>
      assert Nested(value, []) == Some(value);
      assert forall at: seq<nat> :: at != [] ==> Nested(value, at).None?;
    case RichValue(items) =>
      assert forall at: seq<nat> :: at != [] ==> Nested(value, at).None?;
    case ListValue(items) =>
      PlainCountEntries(items, find, inText, inInline);
      assert Children(value) == items;
      PlainInChildren(value, find);
    case ObjectValue(fields) =>
      PlainCountEntries(fields, find, inText, inInline);
      assert Children(value) == fields;
      PlainInChildren(value, find);
    case _ =>
      assert forall at: seq<nat> :: at != [] ==> Nested(value, at).None?;
  }

  lemma {:induction false} PlainInChildren(value: Value, find: string)
    requires value.ListValue? || value.ObjectValue?
    ensures PlainTextAt(value, find) <==> exists i :: 0 <= i < |Children(value)| && PlainTextAt(Children(value)[i].value, find)
  {
    if PlainTextAt(value, find) {
      var at :| Nested(value, at).Some? && Nested(value, at).value.TextValue? && Count(Nested(value, at).value.text, find) > 0;
      assert at != [] && Nested(value, at) == Nested(Children(value)[at[0]].value, at[1..]);
      assert PlainTextAt(Children(value)[at[0]].value, find);
    }
    if i :| 0 <= i < |Children(value)| && PlainTextAt(Children(value)[i].value, find) {
      var v := Children(value)[i].value;
      var at :| Nested(v, at).Some? && Nested(v, at).value.TextValue? && Count(Nested(v, at).value.text, find) > 0;
      var longer := [i] + at;
      assert longer[1..] == at && Nested(value, longer) == Nested(v, at);
    }
  }

  lemma {:induction false} PlainCountEntries(entries: seq<Entry>, find: string, inText: string -> nat, inInline: seq<InlineItem> -> nat)
    requires forall text :: inText(text) == if Count(text, find) > 0 then 1 else 0
    requires forall items :: inInline(items) == 0
    ensures CountEntries(entries, inText, inInline) > 0 <==> exists i :: 0 <= i < |entries| && PlainTextAt(entries[i].value, find)
    decreases entries
  {
    if entries != [] {
      PlainCountEntry(entries[0], find, inText, inInline);
      PlainCountEntries(entries[1..], find, inText, inInline);
      if i :| 0 <= i < |entries[1..]| && PlainTextAt(entries[1..][i].value, find) {
        assert PlainTextAt(entries[i + 1].value, find);
      }
      if i :| 0 <= i < |entries| && PlainTextAt(entries[i].value, find) {
        assert i > 0 ==> PlainTextAt(entries[1..][i - 1].value, find);
      }
    }
  }

  lemma {:induction false} PlainCountEntry(entry: Entry, find: string, inText: string -> nat, inInline: seq<InlineItem> -> nat)
    requires forall text :: inText(text) == if Count(text, find) > 0 then 1 else 0
    requires forall items :: inInline(items) == 0
    ensures CountEntry(entry, inText, inInline) > 0 <==> PlainTextAt(entry.value, find)
    decreases entry
  {
    PlainCount(entry.value, find, inText, inInline);
  }

  /** An edit is carried out exactly when it looks for a text or for a link, either
      replaces or formats, changes something, selects something, selects it once unless
      it is for all occurrences, and formats no plain text. */
  lemma {:induction false} EditSucceedsIff(e: TextEdit, fields: seq<EditableField>)
    ensures EditFields(e, fields).Some? <==>
              && (e.find == "" <==> e.link != "")
              && (e.replace.Some? <==> e.format.None?)
              && (e.replace.Some? ==> e.link == "" && e.find != e.replace.value)
              && (e.format.Some? ==>
                    e.format.value.add != [] || e.format.value.remove != [] || e.format.value.link.Some?
                    || e.format.value.textColor.Some? || e.format.value.background.Some?)
              && (exists i :: 0 <= i < |fields| && Selects(e, fields[i]))
              && (e.all || SelectsOnce(e, fields))
              && (e.format.Some? && e.find != "" ==>
                    forall i :: 0 <= i < |fields| && Selects(e, fields[i]) ==> !PlainTextAt(fields[i].value, e.find))
  {
    TotalMeaning(e, fields);
    if ValidEdit(e) {
      RewriteEachIff(e, fields);
      forall i | 0 <= i < |fields| ensures Rewrite(e, fields[i].value).None? <==>
        e.format.Some? && e.find != "" && PlainTextAt(fields[i].value, e.find)
      {
        PlainTextIff(fields[i].value, e.find);
      }
    }
  }
}
