/** Rich text as the document engine stores it: a tree of marks over text runs and
    atoms. Editing flattens the tree to leaves, changes the marks of leaves, and
    nests the leaves back. The meaning of a tree is its annotated content: one
    entry per character or atom, carrying the marks around it, outermost first. */
module RichText {
  import opened Lists

  datatype MarkKind = Bold | Italic | Underline | Strike | Code | TextColor | Background | Link

  datatype Mark = Mark(kind: MarkKind, target: string)

  /** The childless inline items other than text. */
  datatype Atom =
    | SiteVariable(key: string, linked: bool)
    | HardBreak
    | Math(expression: string)
    | Placeholder(handle: string)

  datatype InlineItem =
    | Text(text: string)
    | Fixed(atom: Atom)
    | Marked(mark: Mark, children: seq<InlineItem>)

  /** One childless item and the marks around it, outermost first. */
  datatype Leaf =
    | TextLeaf(text: string, marks: seq<Mark>)
    | AtomLeaf(atom: Atom, marks: seq<Mark>)
  {
    function Item(): InlineItem {
      match this
      case TextLeaf(text, _) => Text(text)
      case AtomLeaf(atom, _) => Fixed(atom)
    }
    function WithMarks(marks': seq<Mark>): Leaf {
      match this
      case TextLeaf(text, _) => TextLeaf(text, marks')
      case AtomLeaf(atom, _) => AtomLeaf(atom, marks')
    }
  }

  // ----- annotated content -----

  function TextContent(text: string, marks: seq<Mark>): (r: seq<Leaf>)
    ensures |r| == |text|
    ensures forall i :: 0 <= i < |text| ==> r[i] == TextLeaf([text[i]], marks)
  {
    seq(|text|, i requires 0 <= i < |text| => TextLeaf([text[i]], marks))
  }

  function LeafContent(leaf: Leaf): (r: seq<Leaf>)
    ensures forall i :: 0 <= i < |r| ==> r[i].marks == leaf.marks
    ensures leaf.AtomLeaf? || leaf.text != "" ==> r != []
  {
    match leaf
    case TextLeaf(text, marks) => TextContent(text, marks)
    case AtomLeaf(_, _) => [leaf]
  }

  /** The annotated content of a leaf list. */
  function Content(leaves: seq<Leaf>): seq<Leaf> {
    if leaves == [] then [] else LeafContent(leaves[0]) + Content(leaves[1..])
  }

  function ItemContent(item: InlineItem, outer: seq<Mark>): seq<Leaf> {
    match item
    case Text(text) => TextContent(text, outer)
    case Fixed(atom) => [AtomLeaf(atom, outer)]
    case Marked(mark, children) => TreeContent(children, outer + [mark])
  }

  /** The annotated content of a tree, inside the marks `outer`. */
  function TreeContent(items: seq<InlineItem>, outer: seq<Mark>): seq<Leaf> {
    if items == [] then [] else ItemContent(items[0], outer) + TreeContent(items[1..], outer)
  }

  lemma {:induction false} ContentCons(leaf: Leaf, rest: seq<Leaf>)
    ensures Content([leaf] + rest) == LeafContent(leaf) + Content(rest)
  {
    assert ([leaf] + rest)[1..] == rest;
  }

  lemma {:induction false} ContentConcat(a: seq<Leaf>, b: seq<Leaf>)
    ensures Content(a + b) == Content(a) + Content(b)
  {
    if a == [] {
      assert a + b == b;
    } else {
      assert (a + b)[1..] == a[1..] + b;
      ContentConcat(a[1..], b);
    }
  }

  lemma {:induction false} TreeContentCons(item: InlineItem, rest: seq<InlineItem>, outer: seq<Mark>)
    ensures TreeContent([item] + rest, outer) == ItemContent(item, outer) + TreeContent(rest, outer)
  {
    assert ([item] + rest)[1..] == rest;
  }

  // ----- flattening -----

  function ItemLeaves(item: InlineItem, outer: seq<Mark>): seq<Leaf> {
    match item
    case Text(text) => [TextLeaf(text, outer)]
    case Fixed(atom) => [AtomLeaf(atom, outer)]
    case Marked(mark, children) => Flatten(children, outer + [mark])
  }

  /** The leaves of a tree in reading order, each under the marks on its path. */
  function Flatten(items: seq<InlineItem>, outer: seq<Mark>): seq<Leaf> {
    if items == [] then [] else ItemLeaves(items[0], outer) + Flatten(items[1..], outer)
  }

  lemma {:induction false} FlattenKeepsContent(items: seq<InlineItem>, outer: seq<Mark>)
    ensures Content(Flatten(items, outer)) == TreeContent(items, outer)
  {
    if items != [] {
      FlattenKeepsContent(items[1..], outer);
      ContentConcat(ItemLeaves(items[0], outer), Flatten(items[1..], outer));
      match items[0]
      case Text(text) => ContentCons(TextLeaf(text, outer), []);
      case Fixed(atom) => ContentCons(AtomLeaf(atom, outer), []);
      case Marked(mark, children) => FlattenKeepsContent(children, outer + [mark]);
    }
  }

  // ----- nesting -----

  /** Puts `item` before `rest`, joining it with a text run that starts `rest`. */
  function Prepend(item: InlineItem, rest: seq<InlineItem>): seq<InlineItem> {
    if item.Text? && rest != [] && rest[0].Text?
    then [Text(item.text + rest[0].text)] + rest[1..]
    else [item] + rest
  }

  predicate Carries(leaf: Leaf, depth: nat, mark: Mark) {
    |leaf.marks| > depth && leaf.marks[depth] == mark
  }

  ghost predicate AllCarry(leaves: seq<Leaf>, depth: nat, mark: Mark) {
    forall i :: 0 <= i < |leaves| ==> Carries(leaves[i], depth, mark)
  }

  /** How many leading leaves carry `mark` at `depth`. */
  function RunEnd(leaves: seq<Leaf>, depth: nat, mark: Mark): (end: nat)
    ensures end <= |leaves|
    ensures AllCarry(leaves[..end], depth, mark)
    ensures end < |leaves| ==> !Carries(leaves[end], depth, mark)
  {
    if leaves == [] || !Carries(leaves[0], depth, mark) then 0 else 1 + RunEnd(leaves[1..], depth, mark)
  }

  /** What is left to nest: the marks below `depth`, plus the leaves themselves. */
  function Weight(leaves: seq<Leaf>, depth: nat): (w: nat)
    ensures w >= |leaves|
  {
    if leaves == [] then 0
    else (if |leaves[0].marks| > depth then |leaves[0].marks| - depth else 0) + 1 + Weight(leaves[1..], depth)
  }

  lemma {:induction false} WeightSplit(leaves: seq<Leaf>, end: nat, depth: nat)
    requires end <= |leaves|
    ensures Weight(leaves, depth) == Weight(leaves[..end], depth) + Weight(leaves[end..], depth)
  {
    if end > 0 {
      WeightSplit(leaves[1..], end - 1, depth);
      assert leaves[..end][1..] == leaves[1..][..end - 1] && leaves[1..][end - 1..] == leaves[end..];
    } else {
      assert leaves[0..] == leaves;
    }
  }

  lemma {:induction false} WeightDeeper(run: seq<Leaf>, depth: nat, mark: Mark)
    requires AllCarry(run, depth, mark)
    ensures Weight(run, depth) == Weight(run, depth + 1) + |run|
  {
    if run != [] {
      assert Carries(run[0], depth, mark);
      WeightDeeper(run[1..], depth, mark);
    }
  }

  /** Both recursive calls of nesting work on less: the remaining leaves, and the
      run one level deeper. */
  lemma {:induction false} NestTerminates(leaves: seq<Leaf>, depth: nat, mark: Mark)
    requires leaves != []
    ensures Weight(leaves[1..], depth) < Weight(leaves, depth)
    ensures Carries(leaves[0], depth, mark) ==>
              var end := RunEnd(leaves, depth, mark);
              0 < end
              && Weight(leaves[..end], depth + 1) < Weight(leaves, depth)
              && Weight(leaves[end..], depth) < Weight(leaves, depth)
  {
    if Carries(leaves[0], depth, mark) {
      var end := RunEnd(leaves, depth, mark);
      WeightSplit(leaves, end, depth);
      WeightDeeper(leaves[..end], depth, mark);
    }
  }

  /** Nests leaves back into marks: neighbours that carry the same mark at this
      depth share it, and neighbouring text runs are joined. */
  function Nest(leaves: seq<Leaf>, depth: nat): seq<InlineItem>
    decreases Weight(leaves, depth)
  {
    if leaves == [] then []
    else if |leaves[0].marks| <= depth then
      Prepend(leaves[0].Item(), Nest(leaves[1..], depth))
    else
      var mark := leaves[0].marks[depth];
      var end := RunEnd(leaves, depth, mark);
      NestTerminates(leaves, depth, mark);
      [Marked(mark, Nest(leaves[..end], depth + 1))] + Nest(leaves[end..], depth)
  }

  lemma {:induction false} NestOfLeaf(leaf: Leaf, rest: seq<Leaf>, depth: nat)
    requires |leaf.marks| <= depth
    ensures Nest([leaf] + rest, depth) == Prepend(leaf.Item(), Nest(rest, depth))
  {
    assert ([leaf] + rest)[1..] == rest;
  }

  lemma {:induction false} RunEndOfConcat(a: seq<Leaf>, b: seq<Leaf>, depth: nat, mark: Mark)
    requires AllCarry(a, depth, mark)
    requires b != [] ==> !Carries(b[0], depth, mark)
    ensures RunEnd(a + b, depth, mark) == |a|
  {
    if a == [] {
      assert a + b == b;
    } else {
      assert (a + b)[1..] == a[1..] + b;
      assert Carries(a[0], depth, mark);
      RunEndOfConcat(a[1..], b, depth, mark);
    }
  }

  /** Nesting wraps a maximal run that shares a mark in that mark. */
  lemma {:induction false} NestOfRun(run: seq<Leaf>, rest: seq<Leaf>, depth: nat, mark: Mark)
    requires run != [] && AllCarry(run, depth, mark)
    requires rest != [] ==> !Carries(rest[0], depth, mark)
    ensures Nest(run + rest, depth) == [Marked(mark, Nest(run, depth + 1))] + Nest(rest, depth)
  {
    RunEndOfConcat(run, rest, depth, mark);
    assert (run + rest)[..|run|] == run && (run + rest)[|run|..] == rest;
    assert Carries(run[0], depth, mark);
  }

  ghost predicate Inside(leaves: seq<Leaf>, outer: seq<Mark>) {
    forall i :: 0 <= i < |leaves| ==> outer <= leaves[i].marks
  }

  lemma {:induction false} RunInside(run: seq<Leaf>, outer: seq<Mark>, mark: Mark)
    requires Inside(run, outer)
    ensures Inside(run, outer + [mark]) <==> AllCarry(run, |outer|, mark)
  {
    if AllCarry(run, |outer|, mark) {
      forall i | 0 <= i < |run| ensures outer + [mark] <= run[i].marks {
        assert Carries(run[i], |outer|, mark);
      }
    } else {
      var i :| 0 <= i < |run| && !Carries(run[i], |outer|, mark);
      assert !(outer + [mark] <= run[i].marks);
    }
  }

  ghost predicate NoEmptyText(leaves: seq<Leaf>) {
    forall i :: 0 <= i < |leaves| && leaves[i].TextLeaf? ==> leaves[i].text != ""
  }

  /** The maximal run that starts `leaves`, one mark deeper, and what follows it. */
  lemma {:induction false} SplitRun(leaves: seq<Leaf>, outer: seq<Mark>) returns (mark: Mark, run: seq<Leaf>, rest: seq<Leaf>)
    requires Inside(leaves, outer) && leaves != [] && |leaves[0].marks| > |outer|
    ensures leaves == run + rest && run != [] && AllCarry(run, |outer|, mark)
    ensures rest != [] ==> !Carries(rest[0], |outer|, mark)
    ensures Inside(run, outer + [mark]) && Inside(rest, outer)
    ensures Weight(run, |outer + [mark]|) < Weight(leaves, |outer|) && Weight(rest, |outer|) < Weight(leaves, |outer|)
    ensures NoEmptyText(leaves) ==> NoEmptyText(run) && NoEmptyText(rest)
  {
    mark := leaves[0].marks[|outer|];
    var end := RunEnd(leaves, |outer|, mark);
    run, rest := leaves[..end], leaves[end..];
    NestTerminates(leaves, |outer|, mark);
    RunInside(run, outer, mark);
    assert |outer + [mark]| == |outer| + 1;
  }

  lemma {:induction false} TextContentConcat(s: string, t: string, marks: seq<Mark>)
    ensures TextContent(s + t, marks) == TextContent(s, marks) + TextContent(t, marks)
  {
  }

  lemma {:induction false} PrependKeepsContent(item: InlineItem, rest: seq<InlineItem>, outer: seq<Mark>)
    ensures TreeContent(Prepend(item, rest), outer) == ItemContent(item, outer) + TreeContent(rest, outer)
  {
    if item.Text? && rest != [] && rest[0].Text? {
      TreeContentCons(Text(item.text + rest[0].text), rest[1..], outer);
      TextContentConcat(item.text, rest[0].text, outer);
    } else {
      TreeContentCons(item, rest, outer);
    }
  }

  /** Nesting changes no character, no atom and no mark around either. */
  lemma {:induction false} NestKeepsContent(leaves: seq<Leaf>, outer: seq<Mark>)
    requires Inside(leaves, outer)
    ensures TreeContent(Nest(leaves, |outer|), outer) == Content(leaves)
    decreases Weight(leaves, |outer|)
  {
    if leaves == [] {
    } else if |leaves[0].marks| <= |outer| {
      assert leaves[0].marks == outer;
      NestKeepsContent(leaves[1..], outer);
      PrependKeepsContent(leaves[0].Item(), Nest(leaves[1..], |outer|), outer);
    } else {
      var mark, run, rest := SplitRun(leaves, outer);
      NestKeepsContent(run, outer + [mark]);
      NestKeepsContent(rest, outer);
      NestOfRunKeepsContent(run, rest, outer, mark);
    }
  }

  lemma {:induction false} NestOfRunKeepsContent(run: seq<Leaf>, rest: seq<Leaf>, outer: seq<Mark>, mark: Mark)
    requires run != [] && AllCarry(run, |outer|, mark)
    requires rest != [] ==> !Carries(rest[0], |outer|, mark)
    requires TreeContent(Nest(run, |outer + [mark]|), outer + [mark]) == Content(run)
    requires TreeContent(Nest(rest, |outer|), outer) == Content(rest)
    ensures TreeContent(Nest(run + rest, |outer|), outer) == Content(run + rest)
  {
    assert |outer + [mark]| == |outer| + 1;
    NestOfRun(run, rest, |outer|, mark);
    TreeContentCons(Marked(mark, Nest(run, |outer| + 1)), Nest(rest, |outer|), outer);
    ContentConcat(run, rest);
  }

  // ----- normal form -----

  /** Two neighbours the editor would have merged. */
  predicate Mergeable(a: InlineItem, b: InlineItem) {
    (a.Text? && b.Text?) || (a.Marked? && b.Marked? && a.mark == b.mark)
  }

  predicate NormalItem(item: InlineItem) {
    match item
    case Text(text) => text != ""
    case Fixed(_) => true
    case Marked(_, children) => children != [] && Normal(children)
  }

  /** No empty run, no empty mark and no neighbours left to merge, at any depth. */
  predicate Normal(items: seq<InlineItem>) {
    items == [] ||
    (NormalItem(items[0]) && (|items| > 1 ==> !Mergeable(items[0], items[1])) && Normal(items[1..]))
  }

  lemma {:induction false} NormalCons(item: InlineItem, rest: seq<InlineItem>)
    requires NormalItem(item) && Normal(rest) && (rest != [] ==> !Mergeable(item, rest[0]))
    ensures Normal([item] + rest)
  {
    assert ([item] + rest)[1..] == rest;
  }

  lemma {:induction false} PrependNormal(item: InlineItem, rest: seq<InlineItem>)
    requires NormalItem(item) && !item.Marked? && Normal(rest)
    ensures Normal(Prepend(item, rest))
  {
    if item.Text? && rest != [] && rest[0].Text? {
      NormalCons(Text(item.text + rest[0].text), rest[1..]);
    } else {
      NormalCons(item, rest);
    }
  }

  /** The first item of a nesting is a mark only if the first leaf carries it. */
  lemma {:induction false} NestStart(leaves: seq<Leaf>, depth: nat)
    requires leaves != []
    ensures Nest(leaves, depth) != []
    ensures Nest(leaves, depth)[0].Marked? ==> Carries(leaves[0], depth, Nest(leaves, depth)[0].mark)
  {
  }

  lemma {:induction false} NestIsNormal(leaves: seq<Leaf>, depth: nat)
    requires NoEmptyText(leaves)
    ensures Normal(Nest(leaves, depth))
    decreases Weight(leaves, depth)
  {
    if leaves == [] {
    } else if |leaves[0].marks| <= depth {
      NestIsNormal(leaves[1..], depth);
      PrependNormal(leaves[0].Item(), Nest(leaves[1..], depth));
    } else {
      var mark := leaves[0].marks[depth];
      var end := RunEnd(leaves, depth, mark);
      NestTerminates(leaves, depth, mark);
      NestIsNormal(leaves[..end], depth + 1);
      NestIsNormal(leaves[end..], depth);
      NestStart(leaves[..end], depth + 1);
      if end < |leaves| {
        NestStart(leaves[end..], depth);
      }
      NormalCons(Marked(mark, Nest(leaves[..end], depth + 1)), Nest(leaves[end..], depth));
    }
  }

  lemma {:induction false} PrependTwice(s: string, t: string, rest: seq<InlineItem>)
    ensures Prepend(Text(s), Prepend(Text(t), rest)) == Prepend(Text(s + t), rest)
  {
    if rest != [] && rest[0].Text? {
      assert s + (t + rest[0].text) == (s + t) + rest[0].text;
    }
  }

  lemma {:induction false} TextContentCons(text: string, marks: seq<Mark>, rest: seq<Leaf>)
    requires text != ""
    ensures TextContent(text, marks) + rest == [TextLeaf([text[0]], marks)] + (TextContent(text[1..], marks) + rest)
  {
  }

  /** Nesting a text run spelled out one character at a time joins it again. */
  lemma {:induction false} NestOfText(text: string, marks: seq<Mark>, rest: seq<Leaf>)
    requires text != ""
    ensures Nest(TextContent(text, marks) + rest, |marks|) == Prepend(Text(text), Nest(rest, |marks|))
  {
    var first, others := TextLeaf([text[0]], marks), TextContent(text[1..], marks) + rest;
    TextContentCons(text, marks, rest);
    NestOfLeaf(first, others, |marks|);
    if |text| == 1 {
      assert others == rest && [text[0]] == text;
    } else {
      NestOfText(text[1..], marks, rest);
      PrependTwice([text[0]], text[1..], Nest(rest, |marks|));
      assert text == [text[0]] + text[1..];
    }
  }

  lemma {:induction false} ContentCarries(leaves: seq<Leaf>, depth: nat, mark: Mark)
    requires AllCarry(leaves, depth, mark)
    ensures AllCarry(Content(leaves), depth, mark)
  {
    if leaves != [] {
      assert Carries(leaves[0], depth, mark);
      ContentCarries(leaves[1..], depth, mark);
    }
  }

  lemma {:induction false} ContentStart(leaves: seq<Leaf>)
    requires leaves != [] && NoEmptyText(leaves)
    ensures Content(leaves) != [] && Content(leaves)[0].marks == leaves[0].marks
  {
  }

  /** Nesting depends only on annotated content: how text was split into leaves
      does not show in the result. */
  lemma {:induction false} NestDependsOnContent(leaves: seq<Leaf>, outer: seq<Mark>)
    requires Inside(leaves, outer) && NoEmptyText(leaves)
    ensures Nest(leaves, |outer|) == Nest(Content(leaves), |outer|)
    decreases Weight(leaves, |outer|)
  {
    if leaves == [] {
    } else if |leaves[0].marks| <= |outer| {
      var leaf, rest := leaves[0], leaves[1..];
      NestDependsOnContent(rest, outer);
      assert leaf.marks == outer && leaves == [leaf] + rest;
      NestOfLeafContent(leaf, rest);
    } else {
      var mark, run, rest := SplitRun(leaves, outer);
      NestDependsOnContent(run, outer + [mark]);
      NestDependsOnContent(rest, outer);
      assert |outer + [mark]| == |outer| + 1;
      NestOfRunContent(run, rest, |outer|, mark);
    }
  }

  lemma {:induction false} NestOfLeafContent(leaf: Leaf, rest: seq<Leaf>)
    requires leaf.TextLeaf? ==> leaf.text != ""
    requires Nest(rest, |leaf.marks|) == Nest(Content(rest), |leaf.marks|)
    ensures Nest([leaf] + rest, |leaf.marks|) == Nest(Content([leaf] + rest), |leaf.marks|)
  {
    ContentCons(leaf, rest);
    NestOfLeaf(leaf, rest, |leaf.marks|);
    match leaf
    case TextLeaf(text, marks) => NestOfText(text, marks, Content(rest));
    case AtomLeaf(atom, marks) => NestOfLeaf(leaf, Content(rest), |marks|);
  }

  lemma {:induction false} NestOfRunContent(run: seq<Leaf>, rest: seq<Leaf>, depth: nat, mark: Mark)
    requires run != [] && AllCarry(run, depth, mark) && NoEmptyText(run) && NoEmptyText(rest)
    requires rest != [] ==> !Carries(rest[0], depth, mark)
    requires Nest(run, depth + 1) == Nest(Content(run), depth + 1)
    requires Nest(rest, depth) == Nest(Content(rest), depth)
    ensures Nest(run + rest, depth) == Nest(Content(run + rest), depth)
  {
    ContentConcat(run, rest);
    NestOfRun(run, rest, depth, mark);
    ContentOfRun(run, rest, depth, mark);
    NestOfRun(Content(run), Content(rest), depth, mark);
  }

  lemma {:induction false} ContentOfRun(run: seq<Leaf>, rest: seq<Leaf>, depth: nat, mark: Mark)
    requires run != [] && AllCarry(run, depth, mark) && NoEmptyText(run) && NoEmptyText(rest)
    requires rest != [] ==> !Carries(rest[0], depth, mark)
    ensures Content(run) != [] && AllCarry(Content(run), depth, mark)
    ensures Content(rest) != [] ==> !Carries(Content(rest)[0], depth, mark)
  {
    ContentCarries(run, depth, mark);
    ContentStart(run);
    if rest != [] {
      ContentStart(rest);
    }
  }

  /** The tree the editor leaves for a given annotated content. */
  function Canonical(content: seq<Leaf>): seq<InlineItem> {
    Nest(content, 0)
  }

  /** Leaf lists with the same annotated content nest to the same tree. */
  lemma {:induction false} NestIsCanonical(leaves: seq<Leaf>)
    requires NoEmptyText(leaves)
    ensures Nest(leaves, 0) == Canonical(Content(leaves))
  {
    NestDependsOnContent(leaves, []);
  }

  lemma {:induction false} FlattenInside(items: seq<InlineItem>, outer: seq<Mark>)
    ensures Inside(Flatten(items, outer), outer)
  {
    if items != [] {
      FlattenInside(items[1..], outer);
      if items[0].Marked? {
        FlattenInside(items[0].children, outer + [items[0].mark]);
        var run := ItemLeaves(items[0], outer);
        forall i | 0 <= i < |run| ensures outer <= run[i].marks {
          assert outer + [items[0].mark] <= run[i].marks;
        }
      }
    }
  }

  lemma {:induction false} FlattenNoEmptyText(items: seq<InlineItem>, outer: seq<Mark>)
    requires Normal(items)
    ensures NoEmptyText(Flatten(items, outer))
    ensures items != [] ==> Flatten(items, outer) != []
  {
    if items != [] {
      FlattenNoEmptyText(items[1..], outer);
      if items[0].Marked? {
        FlattenNoEmptyText(items[0].children, outer + [items[0].mark]);
      }
    }
  }

  lemma {:induction false} FlattenStart(items: seq<InlineItem>, outer: seq<Mark>)
    requires Normal(items) && items != []
    ensures Flatten(items, outer) != []
    ensures items[0].Marked? ==> Carries(Flatten(items, outer)[0], |outer|, items[0].mark)
    ensures !items[0].Marked? ==> Flatten(items, outer)[0].marks == outer
  {
    FlattenNoEmptyText(items, outer);
    if items[0].Marked? {
      FlattenNoEmptyText(items[0].children, outer + [items[0].mark]);
      FlattenInside(items[0].children, outer + [items[0].mark]);
      assert outer + [items[0].mark] <= ItemLeaves(items[0], outer)[0].marks;
    }
  }

  lemma {:induction false} PrependToNormal(items: seq<InlineItem>)
    requires Normal(items) && items != []
    ensures Prepend(items[0], items[1..]) == items == [items[0]] + items[1..]
  {
  }

  lemma {:induction false} NestOfFlattenNormal(items: seq<InlineItem>, outer: seq<Mark>)
    requires Normal(items)
    ensures Nest(Flatten(items, outer), |outer|) == items
  {
    if items != [] {
      NestOfFlattenNormal(items[1..], outer);
      PrependToNormal(items);
      match items[0]
      case Text(text) => NestOfLeaf(TextLeaf(text, outer), Flatten(items[1..], outer), |outer|);
      case Fixed(atom) => NestOfLeaf(AtomLeaf(atom, outer), Flatten(items[1..], outer), |outer|);
      case Marked(mark, children) =>
        NestOfFlattenNormal(children, outer + [mark]);
        assert |outer + [mark]| == |outer| + 1;
        NestOfFlattenRun(items, outer, mark, children);
    }
  }

  lemma {:induction false} NestOfFlattenRun(items: seq<InlineItem>, outer: seq<Mark>, mark: Mark, children: seq<InlineItem>)
    requires Normal(items) && items != [] && items[0] == Marked(mark, children)
    ensures Nest(Flatten(items, outer), |outer|)
         == [Marked(mark, Nest(Flatten(children, outer + [mark]), |outer| + 1))] + Nest(Flatten(items[1..], outer), |outer|)
  {
    var run, rest := Flatten(children, outer + [mark]), Flatten(items[1..], outer);
    FlattenInside(children, outer + [mark]);
    forall i | 0 <= i < |run| ensures Carries(run[i], |outer|, mark) {
      assert outer + [mark] <= run[i].marks;
    }
    FlattenNoEmptyText(children, outer + [mark]);
    if |items| > 1 {
      FlattenStart(items[1..], outer);
    }
    NestOfRun(run, rest, |outer|, mark);
  }

  /** A tree without empty text runs is a fixed point of flattening and nesting
      exactly when it is normal. */
  lemma {:induction false} NormalIffFixedPoint(items: seq<InlineItem>)
    requires NoEmptyText(Flatten(items, []))
    ensures Normal(items) <==> Nest(Flatten(items, []), 0) == items
  {
    NestIsNormal(Flatten(items, []), 0);
    if Normal(items) {
      NestOfFlattenNormal(items, []);
    }
  }

  /** A normal tree is the canonical tree of its content, so normal trees with
      equal annotated content are the same tree. */
  lemma {:induction false} NormalIsCanonical(items: seq<InlineItem>)
    requires Normal(items)
    ensures items == Canonical(TreeContent(items, []))
  {
    FlattenNoEmptyText(items, []);
    FlattenKeepsContent(items, []);
    NestIsCanonical(Flatten(items, []));
    NestOfFlattenNormal(items, []);
  }

  // ----- the nesting loop -----

  ghost predicate AtLeast(leaves: seq<Leaf>, depth: nat) {
    forall i :: 0 <= i < |leaves| ==> |leaves[i].marks| >= depth
  }

  /** What the loop does with one finished item: text joins a run that ends the
      result. */
  function Append(result: seq<InlineItem>, item: InlineItem): seq<InlineItem> {
    if result != [] && item.Text? && result[|result| - 1].Text?
    then result[..|result| - 1] + [Text(result[|result| - 1].text + item.text)]
    else result + [item]
  }

  /** `done` followed by `rest`, joined where both meet in text. */
  function Glue(done: seq<InlineItem>, rest: seq<InlineItem>): seq<InlineItem> {
    if done == [] then rest else done[..|done| - 1] + Prepend(done[|done| - 1], rest)
  }

  lemma {:induction false} GlueAppend(done: seq<InlineItem>, item: InlineItem, rest: seq<InlineItem>)
    ensures Glue(Append(done, item), rest) == Glue(done, Prepend(item, rest))
  {
    if done == [] {
      GlueLast([], item, rest);
    } else {
      GlueAppendAfter(done[..|done| - 1], done[|done| - 1], item, rest);
      assert done == done[..|done| - 1] + [done[|done| - 1]];
    }
  }

  lemma {:induction false} GlueAppendAfter(front: seq<InlineItem>, last: InlineItem, item: InlineItem, rest: seq<InlineItem>)
    ensures Glue(Append(front + [last], item), rest) == Glue(front + [last], Prepend(item, rest))
  {
    GlueLast(front, last, Prepend(item, rest));
    if item.Text? && last.Text? {
      PrependTwice(last.text, item.text, rest);
      assert Append(front + [last], item) == front + [Text(last.text + item.text)];
      GlueLast(front, Text(last.text + item.text), rest);
    } else {
      GlueLast(front + [last], item, rest);
      Associative(front, [last], Prepend(item, rest));
    }
  }

  lemma {:induction false} GlueLast(front: seq<InlineItem>, last: InlineItem, rest: seq<InlineItem>)
    ensures Glue(front + [last], rest) == front + Prepend(last, rest)
  {
    assert (front + [last])[..|front|] == front;
  }

  /** The loop that nests leaves: it extends the current run as far as it goes,
      recurses one level deeper on it, and joins text onto the last item. */
  method RebuildInline(leaves: seq<Leaf>, depth: nat) returns (result: seq<InlineItem>)
    requires AtLeast(leaves, depth)
    ensures result == Nest(leaves, depth)
    decreases Weight(leaves, depth), 1
  {
    result := [];
    var index := 0;
    assert leaves[0..] == leaves;
    while index < |leaves|
      invariant 0 <= index <= |leaves|
      invariant Glue(result, Nest(leaves[index..], depth)) == Nest(leaves, depth)
    {
      var leaf := leaves[index];
      assert leaves[index..] == [leaf] + leaves[index + 1..];
      if |leaf.marks| == depth {
        NestOfLeaf(leaf, leaves[index + 1..], depth);
        GlueAppend(result, leaf.Item(), Nest(leaves[index + 1..], depth));
        result := AppendLeaf(result, leaf);
        index := index + 1;
      } else {
        var item, end := RebuildRun(leaves, index, depth);
        GlueAppend(result, item, Nest(leaves[end..], depth));
        result := result + [item];
        index := end;
      }
    }
    assert leaves[index..] == [];
    GlueNothing(result);
  }

  lemma {:induction false} GlueNothing(done: seq<InlineItem>)
    ensures Glue(done, []) == done
  {
    assert done != [] ==> done == done[..|done| - 1] + [done[|done| - 1]];
  }

  method AppendLeaf(result: seq<InlineItem>, leaf: Leaf) returns (all: seq<InlineItem>)
    ensures all == Append(result, leaf.Item())
  {
    var count := |result|;
    if count > 0 && leaf.TextLeaf? && result[count - 1].Text? {
      all := result[..count - 1] + [Text(result[count - 1].text + leaf.text)];
    } else {
      all := result + [leaf.Item()];
    }
  }

  /** Where the run that shares the mark of leaf `index` at `depth` ends. */
  method RunLimit(leaves: seq<Leaf>, index: nat, depth: nat) returns (end: nat)
    requires index < |leaves| && |leaves[index].marks| > depth
    ensures index < end <= |leaves|
    ensures AllCarry(leaves[index..end], depth, leaves[index].marks[depth])
    ensures end < |leaves| ==> !Carries(leaves[end], depth, leaves[index].marks[depth])
  {
    var mark := leaves[index].marks[depth];
    end := index + 1;
    while end < |leaves| && |leaves[end].marks| > depth && leaves[end].marks[depth] == mark
      invariant index < end <= |leaves|
      invariant forall i :: index <= i < end ==> Carries(leaves[i], depth, mark)
    {
      end := end + 1;
    }
  }

  /** One marked item: the maximal run from `index` that shares a mark. */
  method RebuildRun(leaves: seq<Leaf>, index: nat, depth: nat) returns (item: InlineItem, end: nat)
    requires index < |leaves| && |leaves[index].marks| > depth
    ensures index < end <= |leaves| && item.Marked?
    ensures Nest(leaves[index..], depth) == [item] + Nest(leaves[end..], depth)
    decreases Weight(leaves, depth), 0
  {
    var mark := leaves[index].marks[depth];
    end := RunLimit(leaves, index, depth);
    RunIsLighter(leaves, index, end, depth, mark);
    var children := RebuildInline(leaves[index..end], depth + 1);
    item := Marked(mark, children);
    assert leaves[index..] == leaves[index..end] + leaves[end..];
    NestOfRun(leaves[index..end], leaves[end..], depth, mark);
  }

  lemma {:induction false} RunIsLighter(leaves: seq<Leaf>, index: nat, end: nat, depth: nat, mark: Mark)
    requires index < end <= |leaves| && AllCarry(leaves[index..end], depth, mark)
    ensures Weight(leaves[index..end], depth + 1) < Weight(leaves, depth)
    ensures AtLeast(leaves[index..end], depth + 1)
  {
    var run := leaves[index..end];
    WeightSplit(leaves, index, depth);
    WeightSplit(leaves[index..], end - index, depth);
    assert leaves[index..][..end - index] == run;
    WeightDeeper(run, depth, mark);
    forall i | 0 <= i < |run| ensures |run[i].marks| >= depth + 1 {
      assert Carries(run[i], depth, mark);
    }
  }
}
