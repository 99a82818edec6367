/** Selecting text across marks and formatting what was selected. Positions are
    positions in the annotated content; an atom takes one position, filled by the
    object replacement character. */
module RichTextSelection {
  import opened Lists
  import opened RichText
  import opened RichTextFormat

  // ----- occurrences -----

  datatype Range = Range(start: nat, end: nat)

  predicate Occurs(s: string, find: string, at: nat) {
    at + |find| <= |s| && s[at..at + |find|] == find
  }

  /** The positions where an occurrence of `find` starts. */
  function Hits(s: string, find: string): nat -> bool {
    (at: nat) => Occurs(s, find, at)
  }

  /** What a left-to-right scan takes: each hit it meets, resuming after it. */
  function Scan(hit: nat -> bool, width: nat, limit: nat, from: nat): seq<Range>
    requires width > 0
    decreases if from < limit then limit - from else 0
  {
    if from >= limit then []
    else if hit(from) then [Range(from, from + width)] + Scan(hit, width, limit, from + width)
    else Scan(hit, width, limit, from + 1)
  }

  /** The leftmost non-overlapping occurrences of `find`. */
  function Occurrences(s: string, find: string): seq<Range> {
    if find == "" then [] else Scan(Hits(s, find), |find|, |s|, 0)
  }

  ghost predicate Ordered(ranges: seq<Range>) {
    && (forall i :: 0 <= i < |ranges| ==> ranges[i].start < ranges[i].end)
    && (forall i, j :: 0 <= i < j < |ranges| ==> ranges[i].end <= ranges[j].start)
  }

  ghost predicate Covered(ranges: seq<Range>, at: nat) {
    exists i :: 0 <= i < |ranges| && ranges[i].start <= at < ranges[i].end
  }

  ghost predicate AreHits(hit: nat -> bool, width: nat, from: nat, ranges: seq<Range>) {
    forall i :: 0 <= i < |ranges| ==>
      from <= ranges[i].start && ranges[i].end == ranges[i].start + width && hit(ranges[i].start)
  }

  ghost predicate CoverHits(hit: nat -> bool, from: nat, ranges: seq<Range>) {
    forall at: nat {:trigger Covered(ranges, at)} :: from <= at && hit(at) ==> Covered(ranges, at)
  }

  /** `ranges` are disjoint hits in order, and no hit was passed over except one
      that overlaps a hit taken before it. */
  ghost predicate Leftmost(hit: nat -> bool, width: nat, from: nat, ranges: seq<Range>) {
    Ordered(ranges) && AreHits(hit, width, from, ranges) && CoverHits(hit, from, ranges)
  }

  lemma {:induction false} CoveredCons(first: Range, rest: seq<Range>, at: nat)
    ensures Covered([first] + rest, at) <==> first.start <= at < first.end || Covered(rest, at)
  {
    var all := [first] + rest;
    if first.start <= at < first.end {
      assert all[0].start <= at < all[0].end;
    }
    if Covered(rest, at) {
      var i :| 0 <= i < |rest| && rest[i].start <= at < rest[i].end;
      assert all[i + 1].start <= at < all[i + 1].end;
    }
    if Covered(all, at) {
      var i :| 0 <= i < |all| && all[i].start <= at < all[i].end;
      assert i > 0 ==> rest[i - 1].start <= at < rest[i - 1].end;
    }
  }

  lemma {:induction false} LeftmostCons(hit: nat -> bool, width: nat, from: nat, rest: seq<Range>)
    requires width > 0 && hit(from) && Leftmost(hit, width, from + width, rest)
    ensures Leftmost(hit, width, from, [Range(from, from + width)] + rest)
  {
    forall at: nat | from <= at && hit(at) ensures Covered([Range(from, from + width)] + rest, at) {
      CoveredCons(Range(from, from + width), rest, at);
    }
  }

  lemma {:induction false} ScanIsLeftmost(hit: nat -> bool, width: nat, limit: nat, from: nat)
    requires width > 0 && forall at: nat :: hit(at) ==> at < limit
    ensures Leftmost(hit, width, from, Scan(hit, width, limit, from))
    decreases if from < limit then limit - from else 0
  {
    if from < limit {
      if hit(from) {
        ScanIsLeftmost(hit, width, limit, from + width);
        LeftmostCons(hit, width, from, Scan(hit, width, limit, from + width));
      } else {
        ScanIsLeftmost(hit, width, limit, from + 1);
      }
    }
  }

  lemma {:induction false} FirstTaken(hit: nat -> bool, width: nat, from: nat, ranges: seq<Range>)
    requires width > 0 && Leftmost(hit, width, from, ranges) && hit(from)
    ensures ranges != [] && ranges[0] == Range(from, from + width)
  {
    assert Covered(ranges, from);
    var i :| 0 <= i < |ranges| && ranges[i].start <= from < ranges[i].end;
    assert ranges[0].start < ranges[0].end;
  }

  lemma {:induction false} LeftmostTail(hit: nat -> bool, width: nat, from: nat, ranges: seq<Range>)
    requires width > 0 && Leftmost(hit, width, from, ranges)
    requires ranges != [] && ranges[0] == Range(from, from + width)
    ensures Leftmost(hit, width, from + width, ranges[1..])
  {
    assert ranges == [ranges[0]] + ranges[1..];
    forall at: nat | from + width <= at && hit(at) ensures Covered(ranges[1..], at) {
      CoveredCons(ranges[0], ranges[1..], at);
    }
  }

  lemma {:induction false} HitBelowLimit(hit: nat -> bool, width: nat, limit: nat, from: nat, ranges: seq<Range>)
    requires (forall at: nat :: hit(at) ==> at < limit) && AreHits(hit, width, from, ranges) && |ranges| > 0
    ensures from < limit
  {
    assert hit(ranges[0].start);
  }

  lemma {:induction false} LeftmostIsScan(hit: nat -> bool, width: nat, limit: nat, from: nat, ranges: seq<Range>)
    requires width > 0 && (forall at: nat :: hit(at) ==> at < limit) && Leftmost(hit, width, from, ranges)
    ensures ranges == Scan(hit, width, limit, from)
    decreases if from < limit then limit - from else 0
  {
    if |ranges| > 0 {
      HitBelowLimit(hit, width, limit, from, ranges);
    }
    if from >= limit {
    } else if hit(from) {
      FirstTaken(hit, width, from, ranges);
      LeftmostTail(hit, width, from, ranges);
      LeftmostIsScan(hit, width, limit, from + width, ranges[1..]);
      assert ranges == [ranges[0]] + ranges[1..];
    } else {
      LeftmostIsScan(hit, width, limit, from + 1, ranges);
    }
  }

  /** The selection is the only leftmost choice of non-overlapping occurrences. */
  lemma {:induction false} OccurrencesAreLeftmost(s: string, find: string, ranges: seq<Range>)
    requires find != ""
    ensures Leftmost(Hits(s, find), |find|, 0, ranges) <==> ranges == Occurrences(s, find)
  {
    ScanIsLeftmost(Hits(s, find), |find|, |s|, 0);
    if Leftmost(Hits(s, find), |find|, 0, ranges) {
      LeftmostIsScan(Hits(s, find), |find|, |s|, 0, ranges);
    }
  }

  lemma OccurrencesAreOrdered(s: string, find: string)
    ensures Ordered(Occurrences(s, find))
  {
    if find != "" {
      OccurrencesAreLeftmost(s, find, Occurrences(s, find));
    }
  }

  lemma {:induction false} ScanSkips(hit: nat -> bool, width: nat, limit: nat, from: nat, to: nat)
    requires width > 0 && from <= to <= limit && forall at: nat :: from <= at < to ==> !hit(at)
    ensures Scan(hit, width, limit, from) == Scan(hit, width, limit, to)
    decreases if from < to then to - from else 0
  {
    if from < to {
      ScanSkips(hit, width, limit, from + 1, to);
    }
  }

  /** The first occurrence at or after `offset`, or -1. */
  method IndexFrom(s: string, find: string, offset: nat) returns (index: int)
    requires offset <= |s|
    ensures index < 0 ==> forall at :: offset <= at ==> !Occurs(s, find, at)
    ensures index >= 0 ==> offset <= index && Occurs(s, find, index)
    ensures index >= 0 ==> forall at :: offset <= at < index ==> !Occurs(s, find, at)
  {
    index := offset;
    while index + |find| <= |s|
      invariant offset <= index
      invariant forall at :: offset <= at < index ==> !Occurs(s, find, at)
    {
      if s[index..index + |find|] == find {
        return;
      }
      index := index + 1;
    }
    index := -1;
  }

  method TextRanges(joined: string, find: string) returns (ranges: seq<Range>)
    ensures ranges == Occurrences(joined, find)
  {
    ranges := [];
    if find == "" {
      return;
    }
    ghost var hit := Hits(joined, find);
    var offset := 0;
    while true
      invariant 0 <= offset <= |joined|
      invariant ranges + Scan(hit, |find|, |joined|, offset) == Occurrences(joined, find)
      decreases |joined| - offset
    {
      var start := IndexFrom(joined, find, offset);
      if start < 0 {
        ScanSkips(hit, |find|, |joined|, offset, |joined|);
        return;
      }
      ScanSkips(hit, |find|, |joined|, offset, start);
      ranges := ranges + [Range(start, start + |find|)];
      offset := start + |find|;
    }
  }

  // ----- joined text -----

  const STAND_IN: char := '\U{FFFC}'

  function Symbol(cell: Leaf): char {
    if cell.TextLeaf? && cell.text != "" then cell.text[0] else STAND_IN
  }

  /** The text of annotated content, one symbol per position. */
  function Joined(content: seq<Leaf>): (s: string)
    ensures |s| == |content|
    ensures forall i :: 0 <= i < |content| ==> s[i] == Symbol(content[i])
  {
    seq(|content|, i requires 0 <= i < |content| => Symbol(content[i]))
  }

  lemma {:induction false} JoinedConcat(a: seq<Leaf>, b: seq<Leaf>)
    ensures Joined(a + b) == Joined(a) + Joined(b)
  {
  }

  lemma {:induction false} JoinedLeaf(leaf: Leaf)
    ensures Joined(LeafContent(leaf)) == if leaf.TextLeaf? then leaf.text else [STAND_IN]
  {
  }

  /** Content of single characters and atoms: what trees and leaf lists have. */
  ghost predicate Cells(content: seq<Leaf>) {
    forall i :: 0 <= i < |content| && content[i].TextLeaf? ==> |content[i].text| == 1
  }

  lemma {:induction false} ContentIsCells(leaves: seq<Leaf>)
    ensures Cells(Content(leaves))
  {
    if leaves != [] {
      ContentIsCells(leaves[1..]);
      if leaves[0].TextLeaf? {
        assert Cells(LeafContent(leaves[0]));
      }
    }
  }

  method JoinLeaves(leaves: seq<Leaf>) returns (joined: string)
    ensures joined == Joined(Content(leaves))
    ensures |joined| == |Content(leaves)|
    ensures forall i :: 0 <= i < |joined| ==>
              [joined[i]] == if Content(leaves)[i].TextLeaf? then Content(leaves)[i].text else "\U{FFFC}"
  {
    joined := "";
    for k := 0 to |leaves|
      invariant joined == Joined(Content(leaves[..k]))
    {
      ContentStep(leaves, k);
      JoinedConcat(Content(leaves[..k]), LeafContent(leaves[k]));
      JoinedLeaf(leaves[k]);
      if leaves[k].TextLeaf? {
        joined := joined + leaves[k].text;
      } else {
        joined := joined + [STAND_IN];
      }
    }
    assert leaves[..|leaves|] == leaves;
    ContentIsCells(leaves);
  }

  // ----- formatting -----

  ghost function FormatCell(cell: Leaf, selected: bool, f: Format): Leaf {
    if selected && cell.TextLeaf? then cell.WithMarks(Apply(f, cell.marks)) else cell
  }

  /** The content with the marks of every selected text position changed. `content`
      starts at position `offset`. */
  ghost function Formatted(content: seq<Leaf>, ranges: seq<Range>, f: Format, offset: nat): (r: seq<Leaf>)
    ensures |r| == |content|
    ensures forall i :: 0 <= i < |content| ==> r[i] == FormatCell(content[i], Covered(ranges, offset + i), f)
  {
    seq(|content|, i requires 0 <= i < |content| => FormatCell(content[i], Covered(ranges, offset + i), f))
  }

  lemma {:induction false} FormattedConcat(a: seq<Leaf>, b: seq<Leaf>, ranges: seq<Range>, f: Format, offset: nat)
    ensures Formatted(a + b, ranges, f, offset) == Formatted(a, ranges, f, offset) + Formatted(b, ranges, f, offset + |a|)
  {
    var r, s, t := Formatted(a + b, ranges, f, offset), Formatted(a, ranges, f, offset), Formatted(b, ranges, f, offset + |a|);
    forall i | 0 <= i < |a + b| ensures r[i] == (s + t)[i] {
      if i >= |a| {
        assert (a + b)[i] == b[i - |a|] && offset + i == offset + |a| + (i - |a|);
      }
    }
  }

  function Changed(marks: seq<Mark>, selected: bool, f: Format): seq<Mark> {
    if selected then Apply(f, marks) else marks
  }

  /** One uniformly selected or unselected piece of a text leaf. */
  method Emit(text: string, marks: seq<Mark>, from: nat, to: nat, selected: bool, f: Format) returns (parts: seq<Leaf>)
    requires from <= to <= |text|
    ensures NoEmptyText(parts)
    ensures Content(parts) == TextContent(text[from..to], Changed(marks, selected, f))
  {
    if from >= to {
      return [];
    }
    var changed := marks;
    if selected {
      changed := ApplyFormat(f, marks);
    }
    parts := [TextLeaf(text[from..to], changed)];
    ContentStep(parts, 0);
    assert parts[..1] == parts;
  }

  lemma {:induction false} UniformText(
    text: string, marks: seq<Mark>, selected: bool, ranges: seq<Range>, f: Format, offset: nat)
    requires forall at :: offset <= at < offset + |text| ==> (Covered(ranges, at) <==> selected)
    ensures Formatted(TextContent(text, marks), ranges, f, offset) == TextContent(text, Changed(marks, selected, f))
  {
    var changed := Formatted(TextContent(text, marks), ranges, f, offset);
    forall i | 0 <= i < |text| ensures changed[i] == TextContent(text, Changed(marks, selected, f))[i] {
      assert Covered(ranges, offset + i) <==> selected;
    }
  }

  lemma {:induction false} NotCoveredBefore(ranges: seq<Range>, k: nat, cursor: nat, end: nat, at: nat)
    requires Ordered(ranges) && k <= |ranges| && cursor <= at < end
    requires forall j :: 0 <= j < k ==> ranges[j].end <= cursor || ranges[j].start >= end
    requires k < |ranges| ==> at < ranges[k].start
    ensures !Covered(ranges, at)
  {
    forall i | 0 <= i < |ranges| ensures !(ranges[i].start <= at < ranges[i].end) {
      if i > k {
        assert ranges[k].start < ranges[k].end <= ranges[i].start;
      }
    }
  }

  /** The formatted content of the first `upto` characters of a leaf at `start`. */
  ghost function FormattedPrefix(text: string, marks: seq<Mark>, start: nat, ranges: seq<Range>, f: Format, upto: nat): seq<Leaf>
    requires upto <= |text|
  {
    Formatted(TextContent(text[..upto], marks), ranges, f, start)
  }

  /** Splits one text leaf, which starts at position `start`, at the edges of the
      selection and formats the parts inside it. */
  method FormatLeaf(text: string, marks: seq<Mark>, start: nat, ranges: seq<Range>, f: Format) returns (parts: seq<Leaf>)
    requires Ordered(ranges)
    ensures NoEmptyText(parts)
    ensures Content(parts) == Formatted(TextContent(text, marks), ranges, f, start)
  {
    parts := [];
    var end := start + |text|;
    var cursor := start;
    for k := 0 to |ranges|
      invariant start <= cursor <= end
      invariant NoEmptyText(parts)
      invariant Content(parts) == FormattedPrefix(text, marks, start, ranges, f, cursor - start)
      invariant PassedBy(ranges, k, cursor, start, end)
    {
      var from := if ranges[k].start > start then ranges[k].start else start;
      var to := if ranges[k].end < end then ranges[k].end else end;
      SelectionEdges(ranges, k, cursor, start, end, from, to);
      if from < to {
        parts := EmitPiece(text, marks, start, ranges, f, parts, cursor - start, from - start, false);
        parts := EmitPiece(text, marks, start, ranges, f, parts, from - start, to - start, true);
        cursor := to;
      }
    }
    RestUnselected(ranges, cursor, start, end);
    parts := EmitPiece(text, marks, start, ranges, f, parts, cursor - start, |text|, false);
    assert text[..|text|] == text;
  }

  /** Appends one uniformly selected piece to the parts of the text before it. */
  method EmitPiece(
    text: string, marks: seq<Mark>, start: nat, ghost ranges: seq<Range>, f: Format,
    parts: seq<Leaf>, from: nat, to: nat, selected: bool)
    returns (all: seq<Leaf>)
    requires from <= to <= |text| && NoEmptyText(parts)
    requires forall at :: start + from <= at < start + to ==> (Covered(ranges, at) <==> selected)
    requires Content(parts) == FormattedPrefix(text, marks, start, ranges, f, from)
    ensures NoEmptyText(all)
    ensures Content(all) == FormattedPrefix(text, marks, start, ranges, f, to)
  {
    var more := Emit(text, marks, from, to, selected, f);
    FormattedPiece(text, marks, start, ranges, f, from, to, selected);
    ContentConcat(parts, more);
    all := parts + more;
  }

  lemma {:induction false} FormattedPiece(
    text: string, marks: seq<Mark>, start: nat, ranges: seq<Range>, f: Format, from: nat, to: nat, selected: bool)
    requires from <= to <= |text|
    requires forall at :: start + from <= at < start + to ==> (Covered(ranges, at) <==> selected)
    ensures FormattedPrefix(text, marks, start, ranges, f, to)
         == FormattedPrefix(text, marks, start, ranges, f, from) + TextContent(text[from..to], Changed(marks, selected, f))
  {
    assert text[..to] == text[..from] + text[from..to];
    TextContentConcat(text[..from], text[from..to], marks);
    FormattedConcat(TextContent(text[..from], marks), TextContent(text[from..to], marks), ranges, f, start);
    UniformText(text[from..to], marks, selected, ranges, f, start + from);
  }

  /** The first `k` ranges end at the cursor, start after the leaf, or used it up. */
  ghost predicate PassedBy(ranges: seq<Range>, k: nat, cursor: nat, start: nat, end: nat)
    requires k <= |ranges|
  {
    && (forall j :: 0 <= j < k ==> ranges[j].end <= cursor || ranges[j].start >= end || cursor == end)
    && (cursor == start || (k > 0 && cursor <= ranges[k - 1].end))
  }

  lemma {:induction false} RestUnselected(ranges: seq<Range>, cursor: nat, start: nat, end: nat)
    requires Ordered(ranges) && start <= cursor <= end && PassedBy(ranges, |ranges|, cursor, start, end)
    ensures forall at :: cursor <= at < end ==> !Covered(ranges, at)
  {
    forall at | cursor <= at < end ensures !Covered(ranges, at) {
      NotCoveredBefore(ranges, |ranges|, cursor, end, at);
    }
  }

  lemma {:induction false} SelectionEdges(ranges: seq<Range>, k: nat, cursor: nat, start: nat, end: nat, from: nat, to: nat)
    requires Ordered(ranges) && k < |ranges| && start <= cursor <= end && PassedBy(ranges, k, cursor, start, end)
    requires from == if ranges[k].start > start then ranges[k].start else start
    requires to == if ranges[k].end < end then ranges[k].end else end
    ensures from >= to ==> PassedBy(ranges, k + 1, cursor, start, end)
    ensures from < to ==> cursor <= from && PassedBy(ranges, k + 1, to, start, end)
    ensures from < to ==> forall at :: cursor <= at < from ==> !Covered(ranges, at)
    ensures from < to ==> forall at :: from <= at < to ==> Covered(ranges, at)
  {
    if from < to {
      forall at | cursor <= at < from ensures !Covered(ranges, at) {
        NotCoveredBefore(ranges, k, cursor, end, at);
      }
      forall at | from <= at < to ensures Covered(ranges, at) {
        assert ranges[k].start <= at < ranges[k].end;
      }
    }
  }

  lemma {:induction false} ContentStep(leaves: seq<Leaf>, k: nat)
    requires k < |leaves|
    ensures Content(leaves[..k + 1]) == Content(leaves[..k]) + LeafContent(leaves[k])
  {
    assert leaves[..k + 1] == leaves[..k] + [leaves[k]];
    ContentConcat(leaves[..k], [leaves[k]]);
    ContentCons(leaves[k], []);
    assert [leaves[k]] == [leaves[k]] + [];
  }

  /** The parts one leaf becomes. An atom stays as it is, selected or not. */
  method FormatParts(leaf: Leaf, offset: nat, ranges: seq<Range>, f: Format) returns (parts: seq<Leaf>)
    requires Ordered(ranges)
    ensures NoEmptyText(parts)
    ensures Content(parts) == Formatted(LeafContent(leaf), ranges, f, offset)
  {
    if leaf.TextLeaf? {
      parts := FormatLeaf(leaf.text, leaf.marks, offset, ranges, f);
    } else {
      parts := [leaf];
      ContentStep(parts, 0);
      assert parts[..1] == parts;
    }
  }

  method FormatTextRanges(leaves: seq<Leaf>, ranges: seq<Range>, f: Format) returns (result: seq<Leaf>)
    requires Ordered(ranges)
    ensures NoEmptyText(result)
    ensures Content(result) == Formatted(Content(leaves), ranges, f, 0)
  {
    result := [];
    var offset := 0;
    for k := 0 to |leaves|
      invariant offset == |Content(leaves[..k])|
      invariant NoEmptyText(result)
      invariant Content(result) == Formatted(Content(leaves[..k]), ranges, f, 0)
    {
      ContentStep(leaves, k);
      FormattedConcat(Content(leaves[..k]), LeafContent(leaves[k]), ranges, f, 0);
      var parts := FormatParts(leaves[k], offset, ranges, f);
      ContentConcat(result, parts);
      result := result + parts;
      offset := offset + if leaves[k].TextLeaf? then |leaves[k].text| else 1;
    }
    assert leaves[..|leaves|] == leaves;
  }

  // ----- the whole edit -----

  /** The tree a format edit of `find` leaves. */
  ghost function FormatText(items: seq<InlineItem>, find: string, f: Format): seq<InlineItem> {
    var content := TreeContent(items, []);
    Canonical(Formatted(content, Occurrences(Joined(content), find), f, 0))
  }

  method FormatInline(items: seq<InlineItem>, find: string, f: Format) returns (result: seq<InlineItem>)
    ensures result == FormatText(items, find, f)
  {
    var leaves := Flatten(items, []);
    FlattenKeepsContent(items, []);
    var joined := JoinLeaves(leaves);
    var ranges := TextRanges(joined, find);
    OccurrencesAreOrdered(joined, find);
    var formatted := FormatTextRanges(leaves, ranges, f);
    result := RebuildInline(formatted, 0);
    NestIsCanonical(formatted);
  }

  lemma {:induction false} TreeContentIsCells(items: seq<InlineItem>, outer: seq<Mark>)
    ensures Cells(TreeContent(items, outer))
  {
    if items != [] {
      TreeContentIsCells(items[1..], outer);
      if items[0].Marked? {
        TreeContentIsCells(items[0].children, outer + [items[0].mark]);
      }
    }
  }

  lemma {:induction false} ContentOfCells(cells: seq<Leaf>)
    requires Cells(cells)
    ensures Content(cells) == cells
  {
    if cells != [] {
      ContentOfCells(cells[1..]);
      if cells[0].TextLeaf? {
        assert [cells[0].text[0]] == cells[0].text;
      }
      assert LeafContent(cells[0]) == [cells[0]];
      assert cells == [cells[0]] + cells[1..];
    }
  }

  lemma {:induction false} FormattedIsCells(cells: seq<Leaf>, ranges: seq<Range>, f: Format)
    requires Cells(cells)
    ensures Cells(Formatted(cells, ranges, f, 0))
  {
  }

  /** Formatting keeps every character and atom in place and changes the marks of
      exactly the text positions the selection covers, each by the format. The
      result is normal: nothing in it is left to merge. */
  lemma {:induction false} FormatTextMeaning(items: seq<InlineItem>, find: string, f: Format)
    ensures
      var before := TreeContent(items, []);
      var selected := Occurrences(Joined(before), find);
      var after := TreeContent(FormatText(items, find, f), []);
      |after| == |before| && forall i :: 0 <= i < |before| ==>
        after[i] == if before[i].TextLeaf? && Covered(selected, i) then before[i].WithMarks(Apply(f, before[i].marks)) else before[i]
    ensures TreeContent(FormatText(items, find, f), [])
         == Formatted(TreeContent(items, []), Occurrences(Joined(TreeContent(items, [])), find), f, 0)
    ensures Normal(FormatText(items, find, f))
  {
    var before := TreeContent(items, []);
    var after := Formatted(before, Occurrences(Joined(before), find), f, 0);
    TreeContentIsCells(items, []);
    FormattedIsCells(before, Occurrences(Joined(before), find), f);
    ContentOfCells(after);
    NestKeepsContent(after, []);
    NestIsNormal(after, 0);
  }

  lemma {:induction false} FormattedTwice(content: seq<Leaf>, ranges: seq<Range>, f: Format)
    requires Stable(f)
    ensures Formatted(Formatted(content, ranges, f, 0), ranges, f, 0) == Formatted(content, ranges, f, 0)
    ensures Joined(Formatted(content, ranges, f, 0)) == Joined(content)
  {
    var once := Formatted(content, ranges, f, 0);
    var twice := Formatted(once, ranges, f, 0);
    forall i | 0 <= i < |content| ensures twice[i] == once[i] && Symbol(once[i]) == Symbol(content[i]) {
      StableIffIdempotent(f);
      assert Apply(f, Apply(f, content[i].marks)) == Apply(f, content[i].marks);
    }
  }

  /** Repeating a format edit with a stable format changes nothing. */
  lemma {:induction false} FormatTextTwice(items: seq<InlineItem>, find: string, f: Format)
    requires Stable(f)
    ensures FormatText(FormatText(items, find, f), find, f) == FormatText(items, find, f)
  {
    FormatTextMeaning(items, find, f);
    var content := TreeContent(items, []);
    FormattedTwice(content, Occurrences(Joined(content), find), f);
  }

  // ----- formatting links -----

  predicate InsideLink(leaf: Leaf, address: string) {
    Mark(Link, address) in leaf.marks
  }

  ghost function FormatLinked(content: seq<Leaf>, address: string, f: Format): (r: seq<Leaf>)
    ensures |r| == |content|
    ensures forall i :: 0 <= i < |content| ==>
              r[i] == if InsideLink(content[i], address) then content[i].WithMarks(Apply(f, content[i].marks)) else content[i]
  {
    seq(|content|, i requires 0 <= i < |content| =>
      if InsideLink(content[i], address) then content[i].WithMarks(Apply(f, content[i].marks)) else content[i])
  }

  lemma {:induction false} FormatLinkedConcat(a: seq<Leaf>, b: seq<Leaf>, address: string, f: Format)
    ensures FormatLinked(a + b, address, f) == FormatLinked(a, address, f) + FormatLinked(b, address, f)
  {
  }

  lemma {:induction false} RemarkedContent(leaf: Leaf, marks: seq<Mark>)
    ensures |LeafContent(leaf.WithMarks(marks))| == |LeafContent(leaf)|
    ensures forall i :: 0 <= i < |LeafContent(leaf)| ==>
              LeafContent(leaf.WithMarks(marks))[i] == LeafContent(leaf)[i].WithMarks(marks)
  {
  }

  /** The leaf with the marks an edit of links to `address` gives it. */
  function LinkedLeaf(leaf: Leaf, address: string, f: Format): Leaf {
    if InsideLink(leaf, address) then leaf.WithMarks(Apply(f, leaf.marks)) else leaf
  }

  function LinkedLeaves(leaves: seq<Leaf>, address: string, f: Format): (r: seq<Leaf>)
    ensures |r| == |leaves| && forall i :: 0 <= i < |leaves| ==> r[i] == LinkedLeaf(leaves[i], address, f)
  {
    seq(|leaves|, i requires 0 <= i < |leaves| => LinkedLeaf(leaves[i], address, f))
  }

  /** The tree a format edit of the links to `address` leaves. */
  function FormatLinks(items: seq<InlineItem>, address: string, f: Format): seq<InlineItem> {
    Nest(LinkedLeaves(Flatten(items, []), address, f), 0)
  }

  method FormatInlineLinks(items: seq<InlineItem>, address: string, f: Format) returns (result: seq<InlineItem>)
    ensures result == FormatLinks(items, address, f)
  {
    var leaves := Flatten(items, []);
    ghost var original := leaves;
    for k := 0 to |leaves|
      invariant |leaves| == |original|
      invariant forall j :: 0 <= j < |leaves| ==> leaves[j] == if j < k then LinkedLeaf(original[j], address, f) else original[j]
    {
      if InsideLink(leaves[k], address) {
        var marks := ApplyFormat(f, leaves[k].marks);
        leaves := leaves[k := leaves[k].WithMarks(marks)];
      }
    }
    assert leaves == LinkedLeaves(original, address, f);
    result := RebuildInline(leaves, 0);
  }

  lemma {:induction false} LinkedContent(leaves: seq<Leaf>, address: string, f: Format)
    ensures Content(LinkedLeaves(leaves, address, f)) == FormatLinked(Content(leaves), address, f)
  {
    if leaves != [] {
      var rest := LinkedLeaves(leaves[1..], address, f);
      LinkedContent(leaves[1..], address, f);
      assert LinkedLeaves(leaves, address, f)[1..] == rest;
      FormatLinkedConcat(LeafContent(leaves[0]), Content(leaves[1..]), address, f);
      RemarkedContent(leaves[0], Apply(f, leaves[0].marks));
      assert LeafContent(LinkedLeaf(leaves[0], address, f)) == FormatLinked(LeafContent(leaves[0]), address, f);
    }
  }

  /** Formatting links changes the marks of everything inside them, atoms included,
      and changes nothing else. */
  lemma {:induction false} FormatLinksMeaning(items: seq<InlineItem>, address: string, f: Format)
    ensures var before, after := TreeContent(items, []), TreeContent(FormatLinks(items, address, f), []);
            |after| == |before| && forall i :: 0 <= i < |before| ==>
              after[i] == if Mark(Link, address) in before[i].marks then before[i].WithMarks(Apply(f, before[i].marks)) else before[i]
    ensures TreeContent(FormatLinks(items, address, f), []) == FormatLinked(TreeContent(items, []), address, f)
    ensures NoEmptyText(Flatten(items, [])) ==> Normal(FormatLinks(items, address, f))
  {
    var leaves := Flatten(items, []);
    if NoEmptyText(leaves) {
      NestIsNormal(LinkedLeaves(leaves, address, f), 0);
    }
    FlattenKeepsContent(items, []);
    LinkedContent(leaves, address, f);
    NestKeepsContent(LinkedLeaves(leaves, address, f), []);
  }
}
