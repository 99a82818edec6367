/** Formatting a text selection: find its occurrences in the joined text, split
    leaves at their edges, change the marks of the parts inside, and nest again. */
module RichTextFormat {
  import opened Lists
  import opened RichText

  // ----- changing the marks of one leaf -----

  /** A missing link or color leaves it as it is; an empty one removes it. */
  datatype Format = Format(
    add: seq<MarkKind>, remove: seq<MarkKind>,
    link: Option<string>, textColor: Option<string>, background: Option<string>)

  /** Marks of this kind do not survive the format. */
  predicate Clears(f: Format, kind: MarkKind) {
    || kind in f.remove
    || (kind == Link && f.link.Some?)
    || (kind == TextColor && f.textColor.Some?)
    || (kind == Background && f.background.Some?)
  }

  function Kept(f: Format, marks: seq<Mark>): seq<Mark> {
    Filter(marks, (mark: Mark) => !Clears(f, mark.kind))
  }

  predicate HasKind(marks: seq<Mark>, kind: MarkKind) {
    exists i :: 0 <= i < |marks| && marks[i].kind == kind
  }

  /** Adds each mark that is not there yet, innermost. */
  function AddMissing(marks: seq<Mark>, add: seq<MarkKind>): seq<Mark>
    decreases |add|
  {
    if add == [] then marks
    else AddMissing(if HasKind(marks, add[0]) then marks else marks + [Mark(add[0], "")], add[1..])
  }

  function Optional(kind: MarkKind, target: Option<string>): seq<Mark> {
    if target.Some? && target.value != "" then [Mark(kind, target.value)] else []
  }

  /** A new link goes outermost, new colors innermost. */
  function Decorate(f: Format, marks: seq<Mark>): seq<Mark> {
    Optional(Link, f.link) + marks + (Optional(TextColor, f.textColor) + Optional(Background, f.background))
  }

  function Apply(f: Format, marks: seq<Mark>): seq<Mark> {
    Decorate(f, AddMissing(Kept(f, marks), f.add))
  }

  /** The loop that drops the cleared marks. */
  method KeepMarks(f: Format, marks: seq<Mark>) returns (result: seq<Mark>)
    ensures result == Kept(f, marks)
  {
    result := [];
    var keep := (mark: Mark) => !Clears(f, mark.kind);
    for i := 0 to |marks|
      invariant result == Filter(marks[..i], keep)
    {
      FilterStep(marks, i, keep);
      if !Clears(f, marks[i].kind) {
        result := result + [marks[i]];
      }
    }
    assert marks[..|marks|] == marks;
  }

  /** Builds the changed marks: what survives, then the new marks innermost, then
      colors, and a link outermost. */
  method ApplyFormat(f: Format, marks: seq<Mark>) returns (result: seq<Mark>)
    ensures result == Apply(f, marks)
  {
    result := KeepMarks(f, marks);
    for i := 0 to |f.add|
      invariant AddMissing(result, f.add[i..]) == AddMissing(Kept(f, marks), f.add)
    {
      assert f.add[i..][1..] == f.add[i + 1..];
      if !HasKind(result, f.add[i]) {
        result := result + [Mark(f.add[i], "")];
      }
    }
    if f.textColor.Some? && f.textColor.value != "" {
      result := result + [Mark(TextColor, f.textColor.value)];
    }
    if f.background.Some? && f.background.value != "" {
      result := result + [Mark(Background, f.background.value)];
    }
    if f.link.Some? && f.link.value != "" {
      result := [Mark(Link, f.link.value)] + result;
    }
  }

  // ----- when formatting twice is formatting once -----

  /** The marks `add` puts on a leaf that already shows the kinds in `seen`. */
  function Added(seen: set<MarkKind>, add: seq<MarkKind>): seq<Mark>
    decreases |add|
  {
    if add == [] then []
    else if add[0] in seen then Added(seen, add[1..])
    else [Mark(add[0], "")] + Added(seen + {add[0]}, add[1..])
  }

  function Kinds(marks: seq<Mark>): set<MarkKind> {
    set i | 0 <= i < |marks| :: marks[i].kind
  }

  lemma {:induction false} KindsConcat(a: seq<Mark>, b: seq<Mark>)
    ensures Kinds(a + b) == Kinds(a) + Kinds(b)
  {
    forall k | k in Kinds(a) + Kinds(b) ensures k in Kinds(a + b) {
      if k in Kinds(a) {
        var i :| 0 <= i < |a| && a[i].kind == k;
        assert (a + b)[i].kind == k;
      } else {
        var i :| 0 <= i < |b| && b[i].kind == k;
        assert (a + b)[|a| + i].kind == k;
      }
    }
  }

  lemma {:induction false} AddMissingAppends(marks: seq<Mark>, add: seq<MarkKind>)
    ensures AddMissing(marks, add) == marks + Added(Kinds(marks), add)
    decreases |add|
  {
    if add != [] {
      if HasKind(marks, add[0]) {
        AddMissingAppends(marks, add[1..]);
      } else {
        var one := [Mark(add[0], "")];
        KindsConcat(marks, one);
        assert Kinds(one) == {add[0]} by { assert one[0].kind == add[0]; }
        AddMissingAppends(marks + one, add[1..]);
      }
    }
  }

  /** The marks of `marks` that the format clears. */
  function Cleared(f: Format, marks: seq<Mark>): seq<Mark> {
    Filter(marks, (mark: Mark) => Clears(f, mark.kind))
  }

  lemma {:induction false} SplitConcat(f: Format, a: seq<Mark>, b: seq<Mark>)
    ensures Kept(f, a + b) == Kept(f, a) + Kept(f, b)
    ensures Cleared(f, a + b) == Cleared(f, a) + Cleared(f, b)
  {
    FilterConcat(a, b, (mark: Mark) => !Clears(f, mark.kind));
    FilterConcat(a, b, (mark: Mark) => Clears(f, mark.kind));
  }

  lemma {:induction false} KeptAll(f: Format, marks: seq<Mark>)
    requires forall i :: 0 <= i < |marks| ==> !Clears(f, marks[i].kind)
    ensures Kept(f, marks) == marks
  {
    if marks != [] {
      KeptAll(f, marks[1..]);
    }
  }

  lemma {:induction false} KeptNone(f: Format, marks: seq<Mark>)
    requires forall i :: 0 <= i < |marks| ==> Clears(f, marks[i].kind)
    ensures Kept(f, marks) == []
  {
    if marks != [] {
      KeptNone(f, marks[1..]);
    }
  }

  lemma KeptSurvives(f: Format, marks: seq<Mark>)
    ensures forall i :: 0 <= i < |Kept(f, marks)| ==> !Clears(f, Kept(f, marks)[i].kind)
  {
    forall i | 0 <= i < |Kept(f, marks)| ensures !Clears(f, Kept(f, marks)[i].kind) {
      assert Kept(f, marks)[i] in Kept(f, marks);
    }
  }

  lemma {:induction false} KeptBetween(f: Format, a: seq<Mark>, marks: seq<Mark>, b: seq<Mark>)
    requires Kept(f, a) == [] && Kept(f, b) == []
    ensures Kept(f, a + marks + b) == Kept(f, marks)
  {
    SplitConcat(f, a + marks, b);
    SplitConcat(f, a, marks);
  }

  lemma {:induction false} KeptOfDecorate(f: Format, marks: seq<Mark>)
    ensures Kept(f, Decorate(f, marks)) == Kept(f, marks)
  {
    KeptNone(f, Optional(Link, f.link));
    KeptNone(f, Optional(TextColor, f.textColor) + Optional(Background, f.background));
    KeptBetween(f, Optional(Link, f.link), marks, Optional(TextColor, f.textColor) + Optional(Background, f.background));
  }

  /** What a first application leaves for a second one to keep. */
  lemma {:induction false} KeptOfApply(f: Format, marks: seq<Mark>)
    ensures Kept(f, Apply(f, marks)) == Kept(f, marks) + Kept(f, Added(Kinds(Kept(f, marks)), f.add))
  {
    var k := Kept(f, marks);
    AddMissingAppends(k, f.add);
    KeptOfDecorate(f, AddMissing(k, f.add));
    SplitConcat(f, k, Added(Kinds(k), f.add));
    KeptSurvives(f, marks);
    KeptAll(f, k);
  }

  /** With every surviving new mark in place, only the cleared ones are missing. */
  lemma {:induction false} AddedAgain(f: Format, seen: set<MarkKind>, placed: set<MarkKind>, add: seq<MarkKind>)
    requires forall k :: k in placed ==> !Clears(f, k)
    requires forall k :: k in add && k !in seen && !Clears(f, k) ==> k in placed
    ensures Added(seen + placed, add) == Cleared(f, Added(seen, add))
    decreases |add|
  {
    if add != [] {
      var a := add[0];
      if a in seen {
        AddedAgain(f, seen, placed, add[1..]);
      } else {
        AddedAgain(f, seen + {a}, placed, add[1..]);
        SplitConcat(f, [Mark(a, "")], Added(seen + {a}, add[1..]));
        if Clears(f, a) {
          assert seen + placed + {a} == seen + {a} + placed;
        } else {
          assert seen + placed == seen + {a} + placed;
        }
      }
    }
  }

  lemma {:induction false} AddedKinds(seen: set<MarkKind>, add: seq<MarkKind>)
    ensures Kinds(Added(seen, add)) == (set k | k in add && k !in seen)
    decreases |add|
  {
    if add != [] {
      if add[0] in seen {
        AddedKinds(seen, add[1..]);
      } else {
        var one := [Mark(add[0], "")];
        AddedKinds(seen + {add[0]}, add[1..]);
        KindsConcat(one, Added(seen + {add[0]}, add[1..]));
        assert Kinds(one) == {add[0]} by { assert one[0].kind == add[0]; }
      }
    }
  }

  lemma {:induction false} KeptKinds(f: Format, marks: seq<Mark>)
    ensures Kinds(Kept(f, marks)) == (set k | k in Kinds(marks) && !Clears(f, k))
  {
    var kept := Kept(f, marks);
    forall k | k in Kinds(kept) ensures k in Kinds(marks) && !Clears(f, k) {
      var i :| 0 <= i < |kept| && kept[i].kind == k;
      assert kept[i] in kept;
      assert kept[i] in marks;
    }
    forall k | k in Kinds(marks) && !Clears(f, k) ensures k in Kinds(kept) {
      var i :| 0 <= i < |marks| && marks[i].kind == k;
      assert marks[i] in kept;
    }
  }

  lemma {:induction false} MissingAfterOnce(f: Format, seen: set<MarkKind>)
    ensures Added(seen + Kinds(Kept(f, Added(seen, f.add))), f.add) == Cleared(f, Added(seen, f.add))
  {
    var added := Added(seen, f.add);
    KeptKinds(f, added);
    AddedKinds(seen, f.add);
    AddedAgain(f, seen, Kinds(Kept(f, added)), f.add);
  }

  /** A second application moves the cleared new marks behind the surviving ones. */
  lemma {:induction false} ApplyTwice(f: Format, marks: seq<Mark>, k: seq<Mark>, added: seq<Mark>)
    requires k == Kept(f, marks) && added == Added(Kinds(k), f.add)
    ensures Apply(f, marks) == Decorate(f, k + added)
    ensures Apply(f, Apply(f, marks)) == Decorate(f, k + (Kept(f, added) + Cleared(f, added)))
  {
    AddMissingAppends(k, f.add);
    KeptOfApply(f, marks);
    AddMissingAppends(k + Kept(f, added), f.add);
    KindsConcat(k, Kept(f, added));
    MissingAfterOnce(f, Kinds(k));
    Associative(k, Kept(f, added), Cleared(f, added));
  }

  /** No cleared mark is added before a surviving one that is not there yet. */
  ghost predicate InOrder(f: Format, seen: set<MarkKind>, add: seq<MarkKind>) {
    forall i, j :: 0 <= i < j < |add| && Clears(f, add[i]) && add[i] !in seen && !Clears(f, add[j]) && add[j] !in seen
      ==> add[j] in add[..i]
  }

  lemma {:induction false} InOrderTail(f: Format, seen: set<MarkKind>, add: seq<MarkKind>)
    requires add != []
    ensures add[0] in seen ==> (InOrder(f, seen, add) <==> InOrder(f, seen, add[1..]))
    ensures add[0] !in seen && !Clears(f, add[0]) ==> (InOrder(f, seen, add) <==> InOrder(f, seen + {add[0]}, add[1..]))
    ensures add[0] !in seen && Clears(f, add[0]) ==>
              (InOrder(f, seen, add) <==> forall k :: k in add[1..] && k !in seen ==> Clears(f, k))
  {
    var rest := add[1..];
    assert forall i :: 0 <= i < |rest| ==> add[i + 1] == rest[i] && add[..i + 1] == [add[0]] + rest[..i];
    assert forall i :: 0 < i < |add| ==> add[..i] == [add[0]] + rest[..i - 1];
    if add[0] !in seen && Clears(f, add[0]) {
      if InOrder(f, seen, add) {
        forall k | k in rest && k !in seen ensures Clears(f, k) {
          var j :| 0 <= j < |rest| && rest[j] == k;
          assert add[j + 1] == k;
        }
      }
    }
  }

  lemma {:induction false} InOrderIffPartitioned(f: Format, seen: set<MarkKind>, add: seq<MarkKind>)
    ensures InOrder(f, seen, add) <==>
            Kept(f, Added(seen, add)) + Cleared(f, Added(seen, add)) == Added(seen, add)
    decreases |add|
  {
    if add != [] {
      var a, rest := add[0], add[1..];
      InOrderTail(f, seen, add);
      if a in seen {
        InOrderIffPartitioned(f, seen, rest);
      } else {
        var tail := Added(seen + {a}, rest);
        InOrderIffPartitioned(f, seen + {a}, rest);
        SplitConcat(f, [Mark(a, "")], tail);
        assert Added(seen, add) == [Mark(a, "")] + tail;
        if !Clears(f, a) {
          KeptFirst(f, Mark(a, ""), tail);
        } else {
          AddedKinds(seen + {a}, rest);
          ClearedFirst(f, a, seen, rest, tail);
        }
      }
    }
  }

  lemma {:induction false} SameTail(x: Mark, a: seq<Mark>, b: seq<Mark>)
    ensures [x] + a == [x] + b <==> a == b
  {
    assert ([x] + a)[1..] == a && ([x] + b)[1..] == b;
  }

  lemma {:induction false} SplitCons(f: Format, x: Mark, tail: seq<Mark>)
    requires !Clears(f, x.kind)
    ensures Kept(f, [x] + tail) == [x] + Kept(f, tail)
    ensures Cleared(f, [x] + tail) == Cleared(f, tail)
  {
    assert ([x] + tail)[1..] == tail;
  }

  lemma {:induction false} KeptFirst(f: Format, x: Mark, tail: seq<Mark>)
    requires !Clears(f, x.kind)
    ensures Kept(f, [x] + tail) + Cleared(f, [x] + tail) == [x] + tail <==> Kept(f, tail) + Cleared(f, tail) == tail
  {
    SplitCons(f, x, tail);
    var k, c := Kept(f, tail), Cleared(f, tail);
    assert ([x] + k) + c == [x] + (k + c);
    SameTail(x, k + c, tail);
  }

  lemma {:induction false} ClearedFirst(f: Format, a: MarkKind, seen: set<MarkKind>, rest: seq<MarkKind>, tail: seq<Mark>)
    requires Clears(f, a)
    requires Kinds(tail) == (set k | k in rest && k !in seen + {a})
    ensures Kept(f, [Mark(a, "")] + tail) + Cleared(f, [Mark(a, "")] + tail) == [Mark(a, "")] + tail
       <==> forall k :: k in rest && k !in seen ==> Clears(f, k)
  {
    var kept := Kept(f, tail);
    SplitConcat(f, [Mark(a, "")], tail);
    KeptKinds(f, tail);
    if kept == [] {
      assert Kinds(kept) == {};
      assert forall k :: k in rest && k !in seen && k != a ==> k in Kinds(tail);
      ClearedAll(f, tail);
    } else {
      KeptSurvives(f, tail);
      assert kept[0].kind in Kinds(kept);
    }
  }

  lemma {:induction false} ClearedAll(f: Format, marks: seq<Mark>)
    requires Kept(f, marks) == []
    ensures Cleared(f, marks) == marks
  {
    if marks != [] {
      SplitConcat(f, [marks[0]], marks[1..]);
      assert marks == [marks[0]] + marks[1..];
      ClearedAll(f, marks[1..]);
    }
  }

  /** The formats for which repeating the edit changes nothing. */
  ghost predicate Stable(f: Format) {
    InOrder(f, {}, f.add)
  }

  lemma {:induction false} IdempotentOn(f: Format, marks: seq<Mark>)
    ensures Apply(f, Apply(f, marks)) == Apply(f, marks) <==> InOrder(f, Kinds(Kept(f, marks)), f.add)
  {
    var k := Kept(f, marks);
    var added := Added(Kinds(k), f.add);
    ApplyTwice(f, marks, k, added);
    InOrderIffPartitioned(f, Kinds(k), f.add);
    var moved := Kept(f, added) + Cleared(f, added);
    DecorateIsInjective(f, k + moved, k + added);
    assert (k + moved)[|k|..] == moved && (k + added)[|k|..] == added;
  }

  /** Applying a format twice is applying it once, on every list of marks, exactly
      when no mark the format itself clears is added ahead of one it keeps. */
  lemma {:induction false} StableIffIdempotent(f: Format)
    ensures Stable(f) <==> forall marks :: Apply(f, Apply(f, marks)) == Apply(f, marks)
  {
    forall marks ensures Stable(f) ==> Apply(f, Apply(f, marks)) == Apply(f, marks) {
      IdempotentOn(f, marks);
    }
    IdempotentOn(f, []);
    assert Kinds(Kept(f, [])) == {};
  }

  lemma {:induction false} DecorateIsInjective(f: Format, a: seq<Mark>, b: seq<Mark>)
    ensures Decorate(f, a) == Decorate(f, b) <==> a == b
  {
    var l := |Optional(Link, f.link)|;
    if Decorate(f, a) == Decorate(f, b) {
      assert |a| == |b|;
      assert a == Decorate(f, a)[l..l + |a|] == Decorate(f, b)[l..l + |b|] == b;
    }
  }

  /** Plain marks that the format does not also remove are always stable. */
  lemma PlainMarksAreStable(f: Format)
    requires forall kind :: kind in f.add ==> kind !in f.remove && kind !in {Link, TextColor, Background}
    ensures Stable(f)
  {
  }

  // ----- what a format makes of the marks around a leaf -----

  lemma {:induction false} AddedStep(seen: set<MarkKind>, add: seq<MarkKind>, a: MarkKind)
    ensures Added(seen, add + [a]) == Added(seen, add) + (if a in seen || a in add then [] else [Mark(a, "")])
    decreases |add|
  {
    if add == [] {
      assert [a][1..] == [];
    } else {
      assert (add + [a])[1..] == add[1..] + [a];
      AddedStep(if add[0] in seen then seen else seen + {add[0]}, add[1..], a);
    }
  }

  function PlainMark(kind: MarkKind): Mark { Mark(kind, "") }

  function Missing(seen: set<MarkKind>, add: seq<MarkKind>): nat -> bool {
    (i: nat) => i < |add| && add[i] !in seen && add[i] !in add[..i]
  }

  lemma {:induction false} AddedPicks(seen: set<MarkKind>, add: seq<MarkKind>, n: nat) returns (at: seq<nat>)
    requires n <= |add|
    ensures Chosen(at, n, Missing(seen, add))
    ensures forall j :: 0 <= j < |at| ==> at[j] < |add|
    ensures Added(seen, add[..n]) == PlainMarks(add, at)
  {
    if n == 0 {
      at := [];
    } else {
      at := AddedPicks(seen, add, n - 1);
      AddedStep(seen, add[..n - 1], add[n - 1]);
      assert add[..n - 1] + [add[n - 1]] == add[..n];
      ChosenStep(at, n - 1, Missing(seen, add));
      if Missing(seen, add)(n - 1) {
        at := at + [n - 1];
      }
      ChosenBelow(at, n, Missing(seen, add), add);
    }
  }

  /** One plain mark for each position of `add` that is chosen. */
  function PlainMarks(add: seq<MarkKind>, at: seq<nat>): (r: seq<Mark>)
    requires forall j :: 0 <= j < |at| ==> at[j] < |add|
    ensures |r| == |at| && forall j :: 0 <= j < |at| ==> r[j] == Mark(add[at[j]], "")
  {
    seq(|at|, j requires 0 <= j < |at| => Mark(add[at[j]], ""))
  }

  /** The format keeps marks of this kind: it neither removes them nor sets them anew. */
  predicate Untouched(f: Format, kind: MarkKind) {
    match kind
    case Link => kind !in f.remove && f.link == None
    case TextColor => kind !in f.remove && f.textColor == None
    case Background => kind !in f.remove && f.background == None
    case _ => kind !in f.remove
  }

  /** The link of the format, outermost; the marks it neither removes nor sets anew,
      in their order; each kind it adds that is then still missing, in the order of
      the format; and its colors, innermost. An empty link or color puts nothing. */
  lemma {:induction false} ApplyMeaning(f: Format, marks: seq<Mark>) returns (kept: seq<nat>, added: seq<nat>)
    ensures forall j :: 0 <= j < |kept| ==> kept[j] < |marks|
    ensures Chosen(kept, |marks|, (i: nat) => i < |marks| && Untouched(f, marks[i].kind))
    ensures forall j :: 0 <= j < |added| ==> added[j] < |f.add|
    ensures Chosen(added, |f.add|, (i: nat) =>
              i < |f.add| && f.add[i] !in f.add[..i] && !HasKind(Picked(marks, kept), f.add[i]))
    ensures Apply(f, marks)
         == (if f.link.Some? && f.link.value != "" then [Mark(Link, f.link.value)] else [])
          + (Picked(marks, kept) + PlainMarks(f.add, added))
          + ((if f.textColor.Some? && f.textColor.value != "" then [Mark(TextColor, f.textColor.value)] else [])
             + (if f.background.Some? && f.background.value != "" then [Mark(Background, f.background.value)] else []))
  {
    kept := FilterPicks(marks, (mark: Mark) => !Clears(f, mark.kind), |marks|);
    assert marks[..|marks|] == marks && f.add[..|f.add|] == f.add;
    var k := Kept(f, marks);
    AddMissingAppends(k, f.add);
    added := AddedPicks(Kinds(k), f.add, |f.add|);
    SameChosen(kept, |marks|, Keeps(marks, (mark: Mark) => !Clears(f, mark.kind)), (i: nat) => i < |marks| && Untouched(f, marks[i].kind));
    SameChosen(added, |f.add|, Missing(Kinds(k), f.add), (i: nat) => i < |f.add| && f.add[i] !in f.add[..i] && !HasKind(k, f.add[i]));
  }

  lemma SameChosen(at: seq<nat>, n: nat, p: nat -> bool, q: nat -> bool)
    requires Chosen(at, n, p) && forall i: nat :: i < n ==> p(i) == q(i)
    ensures Chosen(at, n, q)
  {
  }

  lemma {:induction false} FirstOf(add: seq<MarkKind>, kind: MarkKind) returns (i: nat)
    requires kind in add
    ensures i < |add| && add[i] == kind && kind !in add[..i]
  {
    if kind in add[..|add| - 1] {
      i := FirstOf(add[..|add| - 1], kind);
      assert add[..|add| - 1][..i] == add[..i];
    } else {
      i := |add| - 1;
    }
  }

  /** A place for every kind the format adds: among the kept marks or the added ones. */
  lemma {:induction false} AddedOrKept(f: Format, marks: seq<Mark>, kept: seq<nat>, added: seq<nat>, kind: MarkKind)
    requires kind in f.add
    requires (forall j :: 0 <= j < |kept| ==> kept[j] < |marks|) && (forall j :: 0 <= j < |added| ==> added[j] < |f.add|)
    requires Chosen(added, |f.add|, (i: nat) =>
               i < |f.add| && f.add[i] !in f.add[..i] && !HasKind(Picked(marks, kept), f.add[i]))
    ensures HasKind(Picked(marks, kept) + PlainMarks(f.add, added), kind)
  {
    var i := FirstOf(f.add, kind);
    var k, m := Picked(marks, kept), PlainMarks(f.add, added);
    if HasKind(k, kind) {
      var j :| 0 <= j < |k| && k[j].kind == kind;
      assert (k + m)[j].kind == kind;
    } else {
      assert i in added;
      var j :| 0 <= j < |added| && added[j] == i;
      assert (k + m)[|k| + j].kind == kind;
    }
  }

  lemma HasKindBetween(a: seq<Mark>, marks: seq<Mark>, b: seq<Mark>, kind: MarkKind)
    ensures HasKind(a + marks + b, kind) <==> HasKind(a, kind) || HasKind(marks, kind) || HasKind(b, kind)
  {
    var all := a + marks + b;
    if HasKind(a, kind) {
      var i :| 0 <= i < |a| && a[i].kind == kind;
      assert all[i].kind == kind;
    }
    if HasKind(marks, kind) {
      var i :| 0 <= i < |marks| && marks[i].kind == kind;
      assert all[|a| + i].kind == kind;
    }
    if HasKind(b, kind) {
      var i :| 0 <= i < |b| && b[i].kind == kind;
      assert all[|a| + |marks| + i].kind == kind;
    }
  }

  /** What shows afterwards: every kind the format adds; a link, a text color or a
      background that it sets to something; nothing else that it removes or sets. */
  lemma {:induction false} ApplyShows(f: Format, marks: seq<Mark>, kind: MarkKind)
    ensures HasKind(Apply(f, marks), kind) <==>
              || kind in f.add
              || (kind == Link && f.link.Some? && f.link.value != "")
              || (kind == TextColor && f.textColor.Some? && f.textColor.value != "")
              || (kind == Background && f.background.Some? && f.background.value != "")
              || (HasKind(marks, kind) && kind !in f.remove && (kind == Link ==> f.link == None)
                  && (kind == TextColor ==> f.textColor == None) && (kind == Background ==> f.background == None))
  {
    var kept, added := ApplyMeaning(f, marks);
    var k, m := Picked(marks, kept), PlainMarks(f.add, added);
    var link, colors := Optional(Link, f.link), Optional(TextColor, f.textColor) + Optional(Background, f.background);
    HasKindBetween(link, k + m, colors, kind);
    OptionalShows(Link, f.link, kind);
    ColorsShow(f, kind);
    KeptShows(f, marks, kept, kind);
    PlainShows(f, marks, kept, added, kind);
  }

  lemma ColorsShow(f: Format, kind: MarkKind)
    ensures HasKind(Optional(TextColor, f.textColor) + Optional(Background, f.background), kind) <==>
              || (kind == TextColor && f.textColor.Some? && f.textColor.value != "")
              || (kind == Background && f.background.Some? && f.background.value != "")
  {
    HasKindBetween([], Optional(TextColor, f.textColor), Optional(Background, f.background), kind);
    assert [] + Optional(TextColor, f.textColor) == Optional(TextColor, f.textColor);
    OptionalShows(TextColor, f.textColor, kind);
    OptionalShows(Background, f.background, kind);
  }

  lemma PlainShows(f: Format, marks: seq<Mark>, kept: seq<nat>, added: seq<nat>, kind: MarkKind)
    requires (forall j :: 0 <= j < |kept| ==> kept[j] < |marks|) && (forall j :: 0 <= j < |added| ==> added[j] < |f.add|)
    requires Chosen(added, |f.add|, (i: nat) =>
               i < |f.add| && f.add[i] !in f.add[..i] && !HasKind(Picked(marks, kept), f.add[i]))
    ensures HasKind(Picked(marks, kept) + PlainMarks(f.add, added), kind) <==>
              kind in f.add || HasKind(Picked(marks, kept), kind)
  {
    var k, m := Picked(marks, kept), PlainMarks(f.add, added);
    HasKindBetween([], k, m, kind);
    assert [] + k == k;
    if kind in f.add {
      AddedOrKept(f, marks, kept, added, kind);
    }
    if HasKind(m, kind) {
      var j :| 0 <= j < |m| && m[j].kind == kind;
      assert f.add[added[j]] == kind;
    }
  }

  lemma OptionalShows(own: MarkKind, target: Option<string>, kind: MarkKind)
    ensures HasKind(Optional(own, target), kind) <==> kind == own && target.Some? && target.value != ""
  {
    if target.Some? && target.value != "" {
      assert Optional(own, target)[0].kind == own;
    }
  }

  lemma KeptShows(f: Format, marks: seq<Mark>, kept: seq<nat>, kind: MarkKind)
    requires forall j :: 0 <= j < |kept| ==> kept[j] < |marks|
    requires Chosen(kept, |marks|, (i: nat) => i < |marks| && Untouched(f, marks[i].kind))
    ensures HasKind(Picked(marks, kept), kind) <==>
              HasKind(marks, kind) && kind !in f.remove && (kind == Link ==> f.link == None)
              && (kind == TextColor ==> f.textColor == None) && (kind == Background ==> f.background == None)
  {
    var k := Picked(marks, kept);
    if HasKind(k, kind) {
      var j :| 0 <= j < |k| && k[j].kind == kind;
      assert marks[kept[j]].kind == kind;
    }
    if Untouched(f, kind) && HasKind(marks, kind) {
      var i :| 0 <= i < |marks| && marks[i].kind == kind;
      assert i in kept;
      var j :| 0 <= j < |kept| && kept[j] == i;
      assert k[j].kind == kind;
    }
  }
}
