/** Replacing text: each text run of a value is rewritten by itself, keeps its
    marks, and goes when nothing is left of it. */
module TextReplacement {
  import opened Lists
  import opened RichText
  import opened RichTextSelection

  // ----- strings -----

  /** `s` from position `from` on, each occurrence that a left-to-right scan takes replaced. */
  function ReplaceFrom(s: string, find: string, replacement: string, from: nat): string
    requires find != "" && from <= |s|
    decreases |s| - from
  {
    if from == |s| then ""
    else if Occurs(s, find, from) then replacement + ReplaceFrom(s, find, replacement, from + |find|)
    else [s[from]] + ReplaceFrom(s, find, replacement, from + 1)
  }

  function ReplaceAll(s: string, find: string, replacement: string): string
    requires find != ""
  {
    ReplaceFrom(s, find, replacement, 0)
  }

  function Count(s: string, find: string): nat {
    |Occurrences(s, find)|
  }

  /** The text outside `ranges`, with `by` in the place of each. */
  function Splice(s: string, replacement: string, ranges: seq<Range>, from: nat): string
    requires from <= |s|
  {
    if ranges == [] || !(from <= ranges[0].start <= ranges[0].end <= |s|) then s[from..]
    else s[from..ranges[0].start] + replacement + Splice(s, replacement, ranges[1..], ranges[0].end)
  }

  lemma {:induction false} SpliceStep(s: string, replacement: string, ranges: seq<Range>, from: nat)
    requires from < |s| && (ranges == [] || from < ranges[0].start <= ranges[0].end <= |s|)
    ensures Splice(s, replacement, ranges, from) == [s[from]] + Splice(s, replacement, ranges, from + 1)
  {
    if ranges == [] {
      assert s[from..] == [s[from]] + s[from + 1..];
    } else {
      var rest := Splice(s, replacement, ranges[1..], ranges[0].end);
      assert s[from..ranges[0].start] == [s[from]] + s[from + 1..ranges[0].start];
      Associative([s[from]], s[from + 1..ranges[0].start], replacement);
      Associative([s[from]], s[from + 1..ranges[0].start] + replacement, rest);
    }
  }

  lemma {:induction false} ScanStartsAfter(s: string, find: string, from: nat)
    requires find != "" && from <= |s|
    ensures var ranges := Scan(Hits(s, find), |find|, |s|, from);
            ranges != [] ==> from <= ranges[0].start <= ranges[0].end <= |s|
    decreases |s| - from
  {
    if from < |s| && !Occurs(s, find, from) {
      ScanStartsAfter(s, find, from + 1);
    }
  }

  /** Replacing splices the replacement in at the leftmost occurrences. */
  lemma {:induction false} ReplaceIsSplice(s: string, find: string, replacement: string, from: nat)
    requires find != "" && from <= |s|
    ensures ReplaceFrom(s, find, replacement, from) == Splice(s, replacement, Scan(Hits(s, find), |find|, |s|, from), from)
    decreases |s| - from
  {
    if from < |s| {
      if Occurs(s, find, from) {
        ReplaceIsSplice(s, find, replacement, from + |find|);
        assert s[from..from] == "";
      } else {
        ReplaceIsSplice(s, find, replacement, from + 1);
        ScanStartsAfter(s, find, from + 1);
        SpliceStep(s, replacement, Scan(Hits(s, find), |find|, |s|, from + 1), from);
      }
    }
  }

  // ----- inline trees -----

  function CountInline(items: seq<InlineItem>, find: string): nat {
    if items == [] then 0 else CountInlineItem(items[0], find) + CountInline(items[1..], find)
  }

  function CountInlineItem(item: InlineItem, find: string): nat {
    match item
    case Text(text) => Count(text, find)
    case Fixed(_) => 0
    case Marked(_, children) => CountInline(children, find)
  }

  /** The item with its text replaced, or nothing when nothing is left of it. A mark
      that never had children stays. */
  function ReplaceItem(item: InlineItem, find: string, replacement: string): seq<InlineItem>
    requires find != ""
  {
    match item
    case Text(text) =>
      var replaced := ReplaceAll(text, find, replacement);
      if replaced == "" then [] else [Text(replaced)]
    case Fixed(_) => [item]
    case Marked(mark, children) =>
      if children == [] then [item]
      else
        var replaced := ReplaceInline(children, find, replacement);
        if replaced == [] then [] else [Marked(mark, replaced)]
  }

  function ReplaceInline(items: seq<InlineItem>, find: string, replacement: string): seq<InlineItem>
    requires find != ""
  {
    if items == [] then [] else ReplaceItem(items[0], find, replacement) + ReplaceInline(items[1..], find, replacement)
  }

  lemma {:induction false} ReplaceInlineStep(items: seq<InlineItem>, k: nat, find: string, replacement: string)
    requires find != "" && k < |items|
    ensures ReplaceInline(items[..k + 1], find, replacement) == ReplaceInline(items[..k], find, replacement) + ReplaceItem(items[k], find, replacement)
  {
    assert items[..k + 1] == items[..k] + [items[k]];
    ReplaceInlineConcat(items[..k], [items[k]], find, replacement);
    assert ReplaceInline([items[k]][1..], find, replacement) == [];
  }

  lemma {:induction false} ReplaceInlineConcat(a: seq<InlineItem>, b: seq<InlineItem>, find: string, replacement: string)
    requires find != ""
    ensures ReplaceInline(a + b, find, replacement) == ReplaceInline(a, find, replacement) + ReplaceInline(b, find, replacement)
  {
    if a == [] {
      assert a + b == b;
    } else {
      assert (a + b)[1..] == a[1..] + b;
      ReplaceInlineConcat(a[1..], b, find, replacement);
      Associative(ReplaceItem(a[0], find, replacement), ReplaceInline(a[1..], find, replacement), ReplaceInline(b, find, replacement));
    }
  }

  method ReplaceInlineText(items: seq<InlineItem>, find: string, replacement: string) returns (result: seq<InlineItem>)
    requires find != ""
    ensures result == ReplaceInline(items, find, replacement)
    decreases items
  {
    result := [];
    for k := 0 to |items|
      invariant result == ReplaceInline(items[..k], find, replacement)
    {
      ReplaceInlineStep(items, k, find, replacement);
      match items[k] {
        case Text(text) =>
          var replaced := ReplaceAll(text, find, replacement);
          if replaced != "" {
            result := result + [Text(replaced)];
          }
        case Fixed(_) => result := result + [items[k]];
        case Marked(mark, children) =>
          if children == [] {
            result := result + [items[k]];
          } else {
            var replaced := ReplaceInlineText(children, find, replacement);
            if replaced != [] {
              result := result + [Marked(mark, replaced)];
            }
          }
      }
    }
    assert items[..|items|] == items;
  }

  // ----- what replacing means -----

  function ReplaceLeaf(leaf: Leaf, find: string, replacement: string): seq<Leaf>
    requires find != ""
  {
    match leaf
    case AtomLeaf(_, _) => [leaf]
    case TextLeaf(text, marks) =>
      var replaced := ReplaceAll(text, find, replacement);
      if replaced == "" then [] else [TextLeaf(replaced, marks)]
  }

  /** Each text leaf rewritten by itself under its own marks, and dropped when empty. */
  function ReplaceLeaves(leaves: seq<Leaf>, find: string, replacement: string): seq<Leaf>
    requires find != ""
  {
    if leaves == [] then [] else ReplaceLeaf(leaves[0], find, replacement) + ReplaceLeaves(leaves[1..], find, replacement)
  }

  lemma {:induction false} ReplaceLeavesConcat(a: seq<Leaf>, b: seq<Leaf>, find: string, replacement: string)
    requires find != ""
    ensures ReplaceLeaves(a + b, find, replacement) == ReplaceLeaves(a, find, replacement) + ReplaceLeaves(b, find, replacement)
  {
    if a == [] {
      assert a + b == b;
    } else {
      assert (a + b)[1..] == a[1..] + b;
      ReplaceLeavesConcat(a[1..], b, find, replacement);
      Associative(ReplaceLeaf(a[0], find, replacement), ReplaceLeaves(a[1..], find, replacement), ReplaceLeaves(b, find, replacement));
    }
  }

  lemma {:induction false} FlattenConcat(a: seq<InlineItem>, b: seq<InlineItem>, outer: seq<Mark>)
    ensures Flatten(a + b, outer) == Flatten(a, outer) + Flatten(b, outer)
  {
    if a == [] {
      assert a + b == b;
    } else {
      assert (a + b)[1..] == a[1..] + b;
      FlattenConcat(a[1..], b, outer);
      Associative(ItemLeaves(a[0], outer), Flatten(a[1..], outer), Flatten(b, outer));
    }
  }

  lemma FlattenOne(item: InlineItem, outer: seq<Mark>)
    ensures Flatten([item], outer) == ItemLeaves(item, outer)
  {
    assert Flatten([item][1..], outer) == [];
  }

  lemma ReplaceLeavesOne(leaf: Leaf, find: string, replacement: string)
    requires find != ""
    ensures ReplaceLeaves([leaf], find, replacement) == ReplaceLeaf(leaf, find, replacement)
  {
    assert ReplaceLeaves([leaf][1..], find, replacement) == [];
  }

  /** A replacement rewrites each text leaf separately and keeps its marks. */
  lemma {:induction false} ReplaceKeepsMarks(items: seq<InlineItem>, find: string, replacement: string, outer: seq<Mark>)
    requires find != ""
    ensures Flatten(ReplaceInline(items, find, replacement), outer) == ReplaceLeaves(Flatten(items, outer), find, replacement)
    decreases items
  {
    if items != [] {
      ReplaceItemKeepsMarks(items[0], find, replacement, outer);
      ReplaceKeepsMarks(items[1..], find, replacement, outer);
      FlattenConcat(ReplaceItem(items[0], find, replacement), ReplaceInline(items[1..], find, replacement), outer);
      ReplaceLeavesConcat(ItemLeaves(items[0], outer), Flatten(items[1..], outer), find, replacement);
    }
  }

  lemma {:induction false} ReplaceItemKeepsMarks(item: InlineItem, find: string, replacement: string, outer: seq<Mark>)
    requires find != ""
    ensures Flatten(ReplaceItem(item, find, replacement), outer) == ReplaceLeaves(ItemLeaves(item, outer), find, replacement)
    decreases item
  {
    match item
    case Text(text) =>
      ReplaceLeavesOne(TextLeaf(text, outer), find, replacement);
      FlattenOne(Text(ReplaceAll(text, find, replacement)), outer);
    case Fixed(atom) =>
      ReplaceLeavesOne(AtomLeaf(atom, outer), find, replacement);
      FlattenOne(item, outer);
    case Marked(mark, children) =>
      if children == [] {
        FlattenOne(item, outer);
      } else {
        var replaced := ReplaceInline(children, find, replacement);
        ReplaceKeepsMarks(children, find, replacement, outer + [mark]);
        FlattenOne(Marked(mark, replaced), outer);
      }
  }

  // ----- marks without children -----

  predicate NoHollow(items: seq<InlineItem>) {
    forall i :: 0 <= i < |items| ==> Solid(items[i])
  }

  /** No mark in the item is without children. */
  predicate Solid(item: InlineItem) {
    item.Marked? ==> item.children != [] && NoHollow(item.children)
  }

  lemma NoHollowConcat(a: seq<InlineItem>, b: seq<InlineItem>)
    ensures NoHollow(a + b) <==> NoHollow(a) && NoHollow(b)
  {
    if NoHollow(a + b) {
      assert forall i :: 0 <= i < |a| ==> a[i] == (a + b)[i];
      assert forall i :: 0 <= i < |b| ==> b[i] == (a + b)[|a| + i];
    }
  }

  /** A replacement leaves no mark without children, except one that had none before. */
  lemma {:induction false} ReplaceNoHollow(items: seq<InlineItem>, find: string, replacement: string)
    requires find != ""
    ensures NoHollow(ReplaceInline(items, find, replacement)) <==> NoHollow(items)
    decreases items
  {
    if items != [] {
      var first, rest := ReplaceItem(items[0], find, replacement), ReplaceInline(items[1..], find, replacement);
      ReplaceItemSolid(items[0], find, replacement);
      ReplaceNoHollow(items[1..], find, replacement);
      NoHollowConcat(first, rest);
      assert items == [items[0]] + items[1..];
      NoHollowConcat([items[0]], items[1..]);
      assert NoHollow([items[0]]) <==> Solid([items[0]][0]);
    }
  }

  lemma {:induction false} ReplaceItemSolid(item: InlineItem, find: string, replacement: string)
    requires find != ""
    ensures NoHollow(ReplaceItem(item, find, replacement)) <==> Solid(item)
    decreases item
  {
    var r := ReplaceItem(item, find, replacement);
    assert r != [] ==> (NoHollow(r) <==> Solid(r[0]));
    if item.Marked? && item.children != [] {
      ReplaceNoHollow(item.children, find, replacement);
      var replaced := ReplaceInline(item.children, find, replacement);
      if replaced == [] {
        VanishedIsSolid(item.children, find, replacement);
      }
    }
  }

  /** What vanishes entirely held no hollow mark. */
  lemma {:induction false} VanishedIsSolid(items: seq<InlineItem>, find: string, replacement: string)
    requires find != "" && ReplaceInline(items, find, replacement) == []
    ensures NoHollow(items)
    decreases items
  {
    if items != [] {
      assert ReplaceItem(items[0], find, replacement) == [] && ReplaceInline(items[1..], find, replacement) == [];
      VanishedIsSolid(items[1..], find, replacement);
      assert items == [items[0]] + items[1..];
      if items[0].Marked? {
        VanishedIsSolid(items[0].children, find, replacement);
      }
      NoHollowConcat([items[0]], items[1..]);
    }
  }
}
