/** The order numbers of blocks: an operation that places or deletes blocks numbers
    siblings by their position among them. */
module OrderNumbers {
  import opened Lists
  import opened Values
  import opened Documents
  import opened BlockGraph
  import opened Mutation
  import opened GraphSoundness
  import opened SiblingOrder

  /** The block's number is its position among the children of its parent. */
  ghost predicate InPosition(nodes: seq<Node>, n: Node) {
    n.id in ChildOrder(nodes, n.parent) && n.order == PositionOf(ChildOrder(nodes, n.parent), n.id)
  }

  lemma {:induction false} ReorderedNumbers(moved: seq<Node>, ordered: seq<BlockID>, parent: BlockID)
    requires GoodNodes(moved) && NoDuplicates(ordered) && forall id :: id in ordered <==> IsChild(moved, id, parent)
    ensures forall i :: 0 <= i < |moved| ==>
              var n := Reordered(moved, ordered)[i];
              if n.parent == parent then InPosition(Reordered(moved, ordered), n) else n == moved[i]
  {
    ReorderedAsListed(moved, ordered, parent);
    var after := Reordered(moved, ordered);
    forall i | 0 <= i < |moved| ensures if after[i].parent == parent then InPosition(after, after[i]) else after[i] == moved[i] {
      if after[i].parent == parent {
        assert IsChild(moved, moved[i].id, parent);
      } else {
        NotAChild(moved, i, parent);
      }
    }
  }

  lemma NotAChild(nodes: seq<Node>, i: nat, parent: BlockID)
    requires Unique(nodes, NodeId) && i < |nodes| && nodes[i].parent != parent
    ensures !IsChild(nodes, nodes[i].id, parent)
  {
  }

  /** A placed block and its new siblings are numbered by position; every other block
      keeps its number. */
  lemma {:induction false} PlacedNumbers(nodes: seq<Node>, block: BlockID, parent: BlockID, after: BlockID)
    requires GoodNodes(nodes) && block != NONE && exists i :: 0 <= i < |nodes| && nodes[i].id == block
    ensures var placed := PlacedBlock(nodes, block, parent, after);
            |placed| == |nodes| && forall i :: 0 <= i < |nodes| ==>
              if placed[i].parent == parent then InPosition(placed, placed[i]) else placed[i] == nodes[i]
  {
    var moved := Reparented(nodes, block, parent);
    var siblings := Ids(Siblings(moved, parent, block));
    var ordered := InsertAfter(siblings, block, after);
    ReparentedGood(nodes, block, parent);
    SiblingsInOrder(moved, parent, block);
    InOrderNoDuplicates(moved, siblings);
    SiblingMembers(moved, parent, block);
    InsertAfterMembers(siblings, block, after);
    ReparentedIsChild(nodes, block, parent, block, parent);
    ReorderedNumbers(moved, ordered, parent);
  }

  // ----- renumbering -----

  function ChildrenOf(nodes: seq<Node>, parent: BlockID): seq<Node> {
    Filter(nodes, (n: Node) => n.parent == parent)
  }

  lemma {:induction false} CountIsLength(nodes: seq<Node>, parent: BlockID)
    ensures CountParent(nodes, parent) == |ChildrenOf(nodes, parent)|
  {
    if nodes != [] {
      CountIsLength(nodes[1..], parent);
    }
  }

  lemma {:induction false} CountSameParents(a: seq<Node>, b: seq<Node>, parent: BlockID)
    requires |a| == |b| && forall i :: 0 <= i < |a| ==> a[i].parent == b[i].parent
    ensures CountParent(a, parent) == CountParent(b, parent)
  {
    if a != [] {
      CountSameParents(a[1..], b[1..], parent);
    }
  }

  /** Each block is listed among its siblings behind those that precede it. */
  lemma {:induction false} ListedAtCount(nodes: seq<Node>, i: nat)
    requires i < |nodes|
    ensures var q := nodes[i].parent;
            CountParent(nodes[..i], q) < |ChildrenOf(nodes, q)| && ChildrenOf(nodes, q)[CountParent(nodes[..i], q)] == nodes[i]
  {
    var q := nodes[i].parent;
    var child := (n: Node) => n.parent == q;
    CountIsLength(nodes[..i], q);
    assert nodes == nodes[..i] + nodes[i..];
    FilterConcat(nodes[..i], nodes[i..], child);
    assert Filter(nodes[i..], child)[0] == nodes[i];
  }

  ghost predicate NumberedByCount(nodes: seq<Node>) {
    forall i :: 0 <= i < |nodes| ==> nodes[i].order == CountParent(nodes[..i], nodes[i].parent)
  }

  lemma {:induction false} ChildFrom(nodes: seq<Node>, q: BlockID, p: nat) returns (i: nat)
    requires p < |ChildrenOf(nodes, q)|
    ensures i < |nodes| && nodes[i].parent == q && CountParent(nodes[..i], q) == p && ChildrenOf(nodes, q)[p] == nodes[i]
    decreases |nodes|
  {
    if nodes[0].parent == q && p == 0 {
      i := 0;
    } else {
      var j := ChildFrom(nodes[1..], q, if nodes[0].parent == q then p - 1 else p);
      i := j + 1;
      assert nodes[..i][1..] == nodes[1..][..j];
    }
  }

  lemma {:induction false} ChildrenMembers(nodes: seq<Node>, q: BlockID)
    ensures forall id :: id in Ids(ChildrenOf(nodes, q)) <==> IsChild(nodes, id, q)
  {
    var children := ChildrenOf(nodes, q);
    var s := Ids(children);
    forall id ensures id in s <==> IsChild(nodes, id, q) {
      if id in s {
        var p :| 0 <= p < |s| && s[p] == id;
        assert children[p] in children;
        assert children[p] in nodes;
      }
      if IsChild(nodes, id, q) {
        var i :| 0 <= i < |nodes| && nodes[i].id == id && nodes[i].parent == q;
        assert nodes[i] in children;
        var p :| 0 <= p < |children| && children[p] == nodes[i];
        assert s[p] == id;
      }
    }
  }

  lemma {:induction false} CountedBefore(nodes: seq<Node>, q: BlockID, a: nat, b: nat)
    requires NumberedByCount(nodes) && a < b < |ChildrenOf(nodes, q)|
    ensures Before(nodes, ChildrenOf(nodes, q)[a].id, ChildrenOf(nodes, q)[b].id)
  {
    var i := ChildFrom(nodes, q, a);
    var j := ChildFrom(nodes, q, b);
    assert Less(SiblingKey(nodes[i]), SiblingKey(nodes[j]));
  }

  lemma {:induction false} CountedOrder(nodes: seq<Node>, q: BlockID)
    requires Named(nodes) && NumberedByCount(nodes)
    ensures ChildOrder(nodes, q) == Ids(ChildrenOf(nodes, q))
  {
    var s := Ids(ChildrenOf(nodes, q));
    ChildrenMembers(nodes, q);
    forall a, b | 0 <= a < b < |s| ensures Before(nodes, s[a], s[b]) {
      CountedBefore(nodes, q, a, b);
    }
    ChildOrderIff(nodes, q, s);
  }

  /** After a deletion every block is numbered by its position among its siblings. */
  lemma {:induction false} DeletedNumbers(nodes: seq<Node>, block: BlockID)
    requires GoodNodes(nodes)
    ensures forall n :: n in WithoutSubtree(nodes, block) ==> InPosition(WithoutSubtree(nodes, block), n)
  {
    var gone := Removed(GraphOf(nodes), block);
    var sorted := SortBy(Filter(nodes, (n: Node) => n.id !in gone), ListingKey);
    var after := Numbered(sorted);
    DeleteGraph(nodes, block);
    assert after == WithoutSubtree(nodes, block);
    forall i | 0 <= i < |after| ensures after[i].order == CountParent(after[..i], after[i].parent) {
      CountSameParents(sorted[..i], after[..i], sorted[i].parent);
    }
    forall i | 0 <= i < |after| ensures InPosition(after, after[i]) {
      CountedInPosition(after, i);
    }
  }

  lemma {:induction false} CountedInPosition(nodes: seq<Node>, i: nat)
    requires GoodNodes(nodes) && NumberedByCount(nodes) && i < |nodes|
    ensures InPosition(nodes, nodes[i])
  {
    var q := nodes[i].parent;
    var s := Ids(ChildrenOf(nodes, q));
    CountedOrder(nodes, q);
    ListedAtCount(nodes, i);
    var p := CountParent(nodes[..i], q);
    assert s[p] == nodes[i].id;
    ChildOrderIff(nodes, q, s);
    InOrderNoDuplicates(nodes, s);
    PositionOfElement(s, p);
  }
}
