/** The order of siblings: over a batch, the children of every block are a plain
    list, where placing a block puts it first or right after its anchor. */
module SiblingOrder {
  import opened Lists
  import opened Values
  import opened Documents
  import opened BlockGraph
  import opened Validation
  import opened Mutation
  import opened GraphSoundness
  import opened BatchSoundness
  import opened GraphCover

  /** The children of `parent` in sibling order. */
  function ChildOrder(nodes: seq<Node>, parent: BlockID): seq<BlockID> {
    Ids(Siblings(nodes, parent, NONE))
  }

  function Without(s: seq<BlockID>, gone: set<BlockID>): seq<BlockID> {
    Filter(s, (x: BlockID) => x !in gone)
  }

  // ----- listings -----

  ghost predicate NoDuplicates(s: seq<BlockID>) {
    forall i, j :: 0 <= i < j < |s| ==> s[i] != s[j]
  }

  /** `id` names a block whose parent is `parent`. */
  ghost predicate IsChild(nodes: seq<Node>, id: BlockID, parent: BlockID) {
    exists i :: 0 <= i < |nodes| && nodes[i].id == id && nodes[i].parent == parent
  }

  /** Block `a` sorts before block `b`. */
  ghost predicate Before(nodes: seq<Node>, a: BlockID, b: BlockID) {
    exists i, j :: 0 <= i < |nodes| && 0 <= j < |nodes| && nodes[i].id == a && nodes[j].id == b
      && Less(SiblingKey(nodes[i]), SiblingKey(nodes[j]))
  }

  ghost predicate InOrder(nodes: seq<Node>, s: seq<BlockID>) {
    forall i, j :: 0 <= i < j < |s| ==> Before(nodes, s[i], s[j])
  }

  /** `s` lists exactly the children of `parent`, in order. */
  ghost predicate Listing(nodes: seq<Node>, parent: BlockID, s: seq<BlockID>) {
    (forall id :: id in s <==> IsChild(nodes, id, parent)) && InOrder(nodes, s)
  }

  lemma BeforeIsStrict(nodes: seq<Node>, a: BlockID, b: BlockID)
    requires Unique(nodes, NodeId) && Before(nodes, a, b)
    ensures a != b && !Before(nodes, b, a)
  {
  }

  lemma {:induction false} SameEmptiness(s: seq<BlockID>, t: seq<BlockID>)
    requires forall id :: id in s <==> id in t
    ensures s == [] <==> t == []
  {
    if s != [] {
      assert s[0] in t;
    }
    if t != [] {
      assert t[0] in s;
    }
  }

  lemma {:induction false} ListingIsUnique(nodes: seq<Node>, s: seq<BlockID>, t: seq<BlockID>)
    requires Unique(nodes, NodeId) && InOrder(nodes, s) && InOrder(nodes, t)
    requires forall id :: id in s <==> id in t
    ensures s == t
  {
    SameEmptiness(s, t);
    if s != [] {
      FirstIsSame(nodes, s, t);
      TailHasSame(nodes, s, t);
      ListingIsUnique(nodes, s[1..], t[1..]);
      assert s == [s[0]] + s[1..] && t == [t[0]] + t[1..];
    }
  }

  lemma {:induction false} FirstIsSame(nodes: seq<Node>, s: seq<BlockID>, t: seq<BlockID>)
    requires Unique(nodes, NodeId) && InOrder(nodes, s) && InOrder(nodes, t) && s != [] && t != []
    requires forall id :: id in s <==> id in t
    ensures s[0] == t[0]
  {
    assert s[0] in t && t[0] in s;
    var p :| 0 <= p < |t| && t[p] == s[0];
    var q :| 0 <= q < |s| && s[q] == t[0];
    if p > 0 && q > 0 {
      BeforeIsStrict(nodes, t[0], t[p]);
    }
  }

  lemma {:induction false} TailHasSame(nodes: seq<Node>, s: seq<BlockID>, t: seq<BlockID>)
    requires Unique(nodes, NodeId) && InOrder(nodes, s) && InOrder(nodes, t) && s != [] && t != [] && s[0] == t[0]
    requires forall id :: id in s <==> id in t
    ensures forall id :: id in s[1..] <==> id in t[1..]
  {
    TailLacksFirst(nodes, s);
    TailLacksFirst(nodes, t);
    forall id ensures id in s[1..] <==> id in t[1..] {
      MemberOfTail(s, id);
      MemberOfTail(t, id);
    }
  }

  lemma {:induction false} MemberOfTail(s: seq<BlockID>, id: BlockID)
    requires s != []
    ensures id in s <==> id == s[0] || id in s[1..]
  {
    assert s == [s[0]] + s[1..];
  }

  lemma {:induction false} TailLacksFirst(nodes: seq<Node>, s: seq<BlockID>)
    requires Unique(nodes, NodeId) && InOrder(nodes, s) && s != []
    ensures s[0] !in s[1..]
  {
    forall i | 1 <= i < |s| ensures s[i] != s[0] {
      BeforeIsStrict(nodes, s[0], s[i]);
    }
  }

  lemma {:induction false} SiblingElements(nodes: seq<Node>, parent: BlockID, except: BlockID)
    ensures forall n :: n in Siblings(nodes, parent, except) <==> n in nodes && IsSibling(n, parent, except)
  {
    var kept := Filter(nodes, (n: Node) => IsSibling(n, parent, except));
    forall n ensures n in Siblings(nodes, parent, except) <==> n in nodes && IsSibling(n, parent, except) {
      SortElements(kept, SiblingKey, n);
    }
  }

  lemma {:induction false} SiblingsAreUnique(nodes: seq<Node>, parent: BlockID, except: BlockID)
    requires Unique(nodes, NodeId)
    ensures Unique(Siblings(nodes, parent, except), NodeId)
  {
    var keep := (n: Node) => IsSibling(n, parent, except);
    FilterUnique(nodes, NodeId, keep);
    UniquePermutation(Filter(nodes, keep), Siblings(nodes, parent, except), NodeId);
  }

  lemma {:induction false} SiblingsInOrder(nodes: seq<Node>, parent: BlockID, except: BlockID)
    requires Unique(nodes, NodeId)
    ensures InOrder(nodes, Ids(Siblings(nodes, parent, except)))
  {
    var sorted := Siblings(nodes, parent, except);
    SiblingsAreUnique(nodes, parent, except);
    SiblingElements(nodes, parent, except);
    forall i, j | 0 <= i < j < |sorted| ensures Before(nodes, sorted[i].id, sorted[j].id) {
      assert sorted[i] in sorted && sorted[j] in sorted;
      var a :| 0 <= a < |nodes| && nodes[a] == sorted[i];
      var b :| 0 <= b < |nodes| && nodes[b] == sorted[j];
      assert Less(SiblingKey(nodes[a]), SiblingKey(nodes[b]));
    }
  }

  lemma {:induction false} SiblingMembers(nodes: seq<Node>, parent: BlockID, except: BlockID)
    ensures forall id :: id in Ids(Siblings(nodes, parent, except)) <==> IsChild(nodes, id, parent) && id != except
  {
    var sorted := Siblings(nodes, parent, except);
    SiblingElements(nodes, parent, except);
    forall id ensures id in Ids(sorted) <==> IsChild(nodes, id, parent) && id != except {
      if id in Ids(sorted) {
        var i :| 0 <= i < |sorted| && sorted[i].id == id;
        assert sorted[i] in sorted;
        assert sorted[i] in nodes;
      }
      if IsChild(nodes, id, parent) && id != except {
        var a :| 0 <= a < |nodes| && nodes[a].id == id && nodes[a].parent == parent;
        assert nodes[a] in sorted;
        var i :| 0 <= i < |sorted| && sorted[i] == nodes[a];
        assert Ids(sorted)[i] == id;
      }
    }
  }

  lemma {:induction false} ChildOrderIff(nodes: seq<Node>, parent: BlockID, s: seq<BlockID>)
    requires Named(nodes)
    ensures Listing(nodes, parent, s) <==> s == ChildOrder(nodes, parent)
  {
    SiblingsInOrder(nodes, parent, NONE);
    SiblingMembers(nodes, parent, NONE);
    forall id | IsChild(nodes, id, parent) ensures id != NONE {
      var i :| 0 <= i < |nodes| && nodes[i].id == id && nodes[i].parent == parent;
    }
    if Listing(nodes, parent, s) {
      ListingIsUnique(nodes, s, ChildOrder(nodes, parent));
    }
  }

  lemma {:induction false} BeforeIff(nodes: seq<Node>, a: Node, b: Node)
    requires Unique(nodes, NodeId) && a in nodes && b in nodes
    ensures Before(nodes, a.id, b.id) <==> a.order < b.order || (a.order == b.order && a.id < b.id)
  {
    var i :| 0 <= i < |nodes| && nodes[i] == a;
    var j :| 0 <= j < |nodes| && nodes[j] == b;
    forall k, l | 0 <= k < |nodes| && 0 <= l < |nodes| && nodes[k].id == a.id && nodes[l].id == b.id ensures k == i && l == j {
      assert NodeId(nodes[k]) == NodeId(nodes[i]) && NodeId(nodes[l]) == NodeId(nodes[j]);
    }
  }

  lemma {:induction false} IsChildIff(nodes: seq<Node>, a: Node, parent: BlockID)
    requires Unique(nodes, NodeId) && a in nodes
    ensures IsChild(nodes, a.id, parent) <==> a.parent == parent
  {
    var i :| 0 <= i < |nodes| && nodes[i] == a;
    forall k | 0 <= k < |nodes| && nodes[k].id == a.id ensures k == i {
      assert NodeId(nodes[k]) == NodeId(nodes[i]);
    }
  }

  /** Exactly the blocks under `parent` are listed there. */
  lemma {:induction false} ChildrenIff(nodes: seq<Node>, parent: BlockID, n: Node)
    requires Named(nodes) && n in nodes
    ensures n.id in ChildOrder(nodes, parent) <==> n.parent == parent
  {
    ChildOrderIff(nodes, parent, ChildOrder(nodes, parent));
    IsChildIff(nodes, n, parent);
  }

  /** They are listed by their orders, and by their identifiers where these are equal. */
  lemma {:induction false} ChildrenByOrder(nodes: seq<Node>, parent: BlockID, i: nat, j: nat, a: Node, b: Node)
    requires Named(nodes) && a in nodes && b in nodes
    requires i < |ChildOrder(nodes, parent)| && ChildOrder(nodes, parent)[i] == a.id
    requires j < |ChildOrder(nodes, parent)| && ChildOrder(nodes, parent)[j] == b.id
    ensures i < j <==> a.order < b.order || (a.order == b.order && a.id < b.id)
  {
    var s := ChildOrder(nodes, parent);
    ChildOrderIff(nodes, parent, s);
    BeforeIff(nodes, a, b);
    BeforeIff(nodes, b, a);
    ListedBefore(nodes, s, i, j);
  }

  lemma {:induction false} ListedBefore(nodes: seq<Node>, s: seq<BlockID>, i: nat, j: nat)
    requires i < |s| && j < |s| && InOrder(nodes, s)
    ensures i < j ==> Before(nodes, s[i], s[j])
    ensures j < i ==> Before(nodes, s[j], s[i])
  {
  }

  /** Sibling order does not depend on how the node list is arranged. */
  lemma {:induction false} ChildOrderSameNodes(a: seq<Node>, b: seq<Node>, parent: BlockID)
    requires Named(a) && Named(b) && forall n :: n in a <==> n in b
    ensures ChildOrder(a, parent) == ChildOrder(b, parent)
  {
    ChildOrderIff(a, parent, ChildOrder(a, parent));
    var s := ChildOrder(a, parent);
    SameNodesIsChild(a, b, parent);
    SameNodesIsChild(b, a, parent);
    forall i, j | 0 <= i < j < |s| ensures Before(b, s[i], s[j]) {
      SameNodesBefore(a, b, s[i], s[j]);
    }
    ChildOrderIff(b, parent, s);
  }

  lemma {:induction false} SameNodesIsChild(a: seq<Node>, b: seq<Node>, parent: BlockID)
    requires forall n :: n in a ==> n in b
    ensures forall id :: IsChild(a, id, parent) ==> IsChild(b, id, parent)
  {
    forall id | IsChild(a, id, parent) ensures IsChild(b, id, parent) {
      var i :| 0 <= i < |a| && a[i].id == id && a[i].parent == parent;
      assert a[i] in b;
    }
  }

  lemma {:induction false} SameNodesBefore(a: seq<Node>, b: seq<Node>, x: BlockID, y: BlockID)
    requires (forall n :: n in a ==> n in b) && Before(a, x, y)
    ensures Before(b, x, y)
  {
    var i, j :| 0 <= i < |a| && 0 <= j < |a| && a[i].id == x && a[j].id == y && Less(SiblingKey(a[i]), SiblingKey(a[j]));
    assert a[i] in b && a[j] in b;
  }

  // ----- placing a block -----

  lemma {:induction false} WithoutMembers(s: seq<BlockID>, gone: set<BlockID>)
    ensures forall id :: id in Without(s, gone) <==> id in s && id !in gone
  {
  }

  lemma {:induction false} WithoutInOrder(nodes: seq<Node>, s: seq<BlockID>, gone: set<BlockID>)
    requires InOrder(nodes, s)
    ensures InOrder(nodes, Without(s, gone))
  {
    if s != [] {
      WithoutInOrder(nodes, s[1..], gone);
      var rest := Without(s[1..], gone);
      forall j | 0 <= j < |rest| ensures Before(nodes, s[0], rest[j]) {
        assert rest[j] in rest;
        assert rest[j] in s[1..];
        var k :| 0 <= k < |s[1..]| && s[1..][k] == rest[j];
        assert Before(nodes, s[0], s[k + 1]);
      }
    }
  }

  /** The new position list: no duplicates, and everything the siblings had. */
  lemma {:induction false} InsertAfterMembers(s: seq<BlockID>, x: BlockID, after: BlockID)
    ensures forall id :: id in InsertAfter(s, x, after) <==> id == x || id in s
    ensures NoDuplicates(s) && x !in s ==> NoDuplicates(InsertAfter(s, x, after))
  {
    var p := PositionOf(s, after);
    if after != NONE && p < |s| {
      assert s == s[..p + 1] + s[p + 1..];
    }
  }

  lemma {:induction false} InOrderNoDuplicates(nodes: seq<Node>, s: seq<BlockID>)
    requires Unique(nodes, NodeId) && InOrder(nodes, s)
    ensures NoDuplicates(s)
  {
    forall i, j | 0 <= i < j < |s| ensures s[i] != s[j] {
      BeforeIsStrict(nodes, s[i], s[j]);
    }
  }

  lemma {:induction false} PositionOfElement(s: seq<BlockID>, i: nat)
    requires NoDuplicates(s) && i < |s|
    ensures PositionOf(s, s[i]) == i
  {
  }

  /** Numbering the listed blocks by position puts them in that order. */
  lemma {:induction false} ReorderedInOrder(nodes: seq<Node>, ordered: seq<BlockID>)
    requires Unique(nodes, NodeId) && NoDuplicates(ordered)
    requires forall id :: id in ordered ==> exists i :: 0 <= i < |nodes| && nodes[i].id == id
    ensures InOrder(Reordered(nodes, ordered), ordered)
  {
    var after := Reordered(nodes, ordered);
    forall i, j | 0 <= i < j < |ordered| ensures Before(after, ordered[i], ordered[j]) {
      assert ordered[i] in ordered && ordered[j] in ordered;
      var a :| 0 <= a < |nodes| && nodes[a].id == ordered[i];
      var b :| 0 <= b < |nodes| && nodes[b].id == ordered[j];
      PositionOfElement(ordered, i);
      PositionOfElement(ordered, j);
      assert after[a].order == i && after[b].order == j;
    }
  }

  lemma {:induction false} ReorderedIsChild(nodes: seq<Node>, ordered: seq<BlockID>, parent: BlockID)
    ensures forall id :: IsChild(Reordered(nodes, ordered), id, parent) <==> IsChild(nodes, id, parent)
  {
    var after := Reordered(nodes, ordered);
    forall id ensures IsChild(after, id, parent) <==> IsChild(nodes, id, parent) {
      if IsChild(after, id, parent) {
        var i :| 0 <= i < |after| && after[i].id == id && after[i].parent == parent;
        assert nodes[i].id == id && nodes[i].parent == parent;
      }
      if IsChild(nodes, id, parent) {
        var i :| 0 <= i < |nodes| && nodes[i].id == id && nodes[i].parent == parent;
        assert after[i].id == id && after[i].parent == parent;
      }
    }
  }

  lemma {:induction false} ReparentedIsChild(nodes: seq<Node>, block: BlockID, parent: BlockID, id: BlockID, q: BlockID)
    requires exists i :: 0 <= i < |nodes| && nodes[i].id == block
    ensures IsChild(Reparented(nodes, block, parent), id, q) <==>
              if id == block then q == parent else IsChild(nodes, id, q)
  {
    var after := Reparented(nodes, block, parent);
    if IsChild(after, id, q) {
      var i :| 0 <= i < |after| && after[i].id == id && after[i].parent == q;
      assert nodes[i].id == id && (id != block ==> nodes[i].parent == q);
    }
    if id == block && q == parent {
      var i :| 0 <= i < |nodes| && nodes[i].id == block;
      assert after[i].id == block && after[i].parent == parent;
    }
    if id != block && IsChild(nodes, id, q) {
      var i :| 0 <= i < |nodes| && nodes[i].id == id && nodes[i].parent == q;
      assert after[i] == nodes[i];
    }
  }

  /** Blocks that are not renumbered and not moved keep their relative order. */
  lemma {:induction false} BeforeUnmoved(nodes: seq<Node>, after: seq<Node>, a: BlockID, b: BlockID)
    requires |after| == |nodes| && Before(nodes, a, b)
    requires forall i :: 0 <= i < |nodes| && (nodes[i].id == a || nodes[i].id == b) ==> after[i].id == nodes[i].id && after[i].order == nodes[i].order
    ensures Before(after, a, b)
  {
    var i, j :| 0 <= i < |nodes| && 0 <= j < |nodes| && nodes[i].id == a && nodes[j].id == b
      && Less(SiblingKey(nodes[i]), SiblingKey(nodes[j]));
    assert after[i].id == a && after[j].id == b;
  }

  /** The siblings the block is placed among are the parent's children without it. */
  lemma {:induction false} SiblingsOfMoved(nodes: seq<Node>, block: BlockID, parent: BlockID)
    requires GoodNodes(nodes) && block != NONE && exists i :: 0 <= i < |nodes| && nodes[i].id == block
    ensures Ids(Siblings(Reparented(nodes, block, parent), parent, block)) == Without(ChildOrder(nodes, parent), {block})
  {
    var moved := Reparented(nodes, block, parent);
    var s := Without(ChildOrder(nodes, parent), {block});
    ChildOrderIff(nodes, parent, ChildOrder(nodes, parent));
    WithoutMembers(ChildOrder(nodes, parent), {block});
    WithoutInOrder(nodes, ChildOrder(nodes, parent), {block});
    SiblingsInOrder(moved, parent, block);
    SiblingMembers(moved, parent, block);
    forall i, j | 0 <= i < j < |s| ensures Before(moved, s[i], s[j]) {
      assert s[i] in s && s[j] in s;
      BeforeUnmoved(nodes, moved, s[i], s[j]);
    }
    forall id ensures id in s <==> id in Ids(Siblings(moved, parent, block)) {
      ReparentedIsChild(nodes, block, parent, id, parent);
    }
    ListingIsUnique(moved, s, Ids(Siblings(moved, parent, block)));
  }

  /** Placing a block: it leaves the list it was in, and goes first or right after
      its anchor among the new siblings. Every other list, and the relative order of
      all other blocks, stays as it was. */
  lemma {:induction false} PlacedOrder(nodes: seq<Node>, block: BlockID, parent: BlockID, after: BlockID, q: BlockID)
    requires GoodNodes(nodes) && block != NONE && exists i :: 0 <= i < |nodes| && nodes[i].id == block
    ensures ChildOrder(PlacedBlock(nodes, block, parent, after), q) ==
              if q == parent then InsertAfter(Without(ChildOrder(nodes, parent), {block}), block, after)
              else Without(ChildOrder(nodes, q), {block})
  {
    SiblingsOfMoved(nodes, block, parent);
    PlacedKeeps(nodes, block, parent, after);
    if q == parent {
      PlacedAmongSiblings(nodes, block, parent, after);
    } else {
      PlacedElsewhere(nodes, block, parent, after, q);
    }
  }

  lemma {:induction false} PlacedAmongSiblings(nodes: seq<Node>, block: BlockID, parent: BlockID, after: BlockID)
    requires GoodNodes(nodes) && block != NONE && exists i :: 0 <= i < |nodes| && nodes[i].id == block
    ensures ChildOrder(PlacedBlock(nodes, block, parent, after), parent)
         == InsertAfter(Ids(Siblings(Reparented(nodes, block, parent), parent, block)), block, after)
  {
    var moved := Reparented(nodes, block, parent);
    var siblings := Ids(Siblings(moved, parent, block));
    var ordered := InsertAfter(siblings, block, after);
    ReparentedGood(nodes, block, parent);
    SiblingsInOrder(moved, parent, block);
    InOrderNoDuplicates(moved, siblings);
    SiblingMembers(moved, parent, block);
    InsertAfterMembers(siblings, block, after);
    ReparentedIsChild(nodes, block, parent, block, parent);
    ReorderedAsListed(moved, ordered, parent);
  }

  lemma {:induction false} ReorderedAsListed(nodes: seq<Node>, ordered: seq<BlockID>, parent: BlockID)
    requires GoodNodes(nodes) && NoDuplicates(ordered) && forall id :: id in ordered <==> IsChild(nodes, id, parent)
    ensures ChildOrder(Reordered(nodes, ordered), parent) == ordered
  {
    forall id | id in ordered ensures exists i :: 0 <= i < |nodes| && nodes[i].id == id {
      assert IsChild(nodes, id, parent);
    }
    ReorderedInOrder(nodes, ordered);
    ReorderedIsChild(nodes, ordered, parent);
    ReorderedGood(nodes, ordered);
    ChildOrderIff(Reordered(nodes, ordered), parent, ordered);
  }

  lemma {:induction false} ReparentedGood(nodes: seq<Node>, block: BlockID, parent: BlockID)
    requires GoodNodes(nodes)
    ensures GoodNodes(Reparented(nodes, block, parent))
  {
    forall i | 0 <= i < |nodes| ensures GoodNode(Reparented(nodes, block, parent)[i]) {
      assert GoodNode(nodes[i]);
    }
  }

  lemma {:induction false} ReorderedGood(nodes: seq<Node>, ordered: seq<BlockID>)
    requires GoodNodes(nodes)
    ensures GoodNodes(Reordered(nodes, ordered))
  {
    forall i | 0 <= i < |nodes| ensures GoodNode(Reordered(nodes, ordered)[i]) {
      assert GoodNode(nodes[i]);
    }
  }

  lemma {:induction false} ReparentedOrder(nodes: seq<Node>, block: BlockID, parent: BlockID, q: BlockID)
    requires GoodNodes(nodes) && q != parent && exists i :: 0 <= i < |nodes| && nodes[i].id == block
    ensures ChildOrder(Reparented(nodes, block, parent), q) == Without(ChildOrder(nodes, q), {block})
  {
    var moved := Reparented(nodes, block, parent);
    var s := Without(ChildOrder(nodes, q), {block});
    ChildOrderIff(nodes, q, ChildOrder(nodes, q));
    WithoutMembers(ChildOrder(nodes, q), {block});
    WithoutInOrder(nodes, ChildOrder(nodes, q), {block});
    forall id ensures id in s <==> IsChild(moved, id, q) {
      ReparentedIsChild(nodes, block, parent, id, q);
    }
    forall i, j | 0 <= i < j < |s| ensures Before(moved, s[i], s[j]) {
      assert s[i] in s && s[j] in s;
      BeforeUnmoved(nodes, moved, s[i], s[j]);
    }
    ReparentedGood(nodes, block, parent);
    ChildOrderIff(moved, q, s);
  }

  /** Sibling order is kept when the children and their order are. */
  lemma {:induction false} SameListing(a: seq<Node>, b: seq<Node>, q: BlockID)
    requires Named(a) && Named(b) && SameChildren(a, b, q) && KeepsBefore(a, b, q)
    ensures ChildOrder(b, q) == ChildOrder(a, q)
  {
    var s := ChildOrder(a, q);
    ChildOrderIff(a, q, s);
    OrderKept(a, b, q, s);
    ListingKept(a, b, q, s);
    ChildOrderIff(b, q, s);
  }

  lemma {:induction false} OrderKept(a: seq<Node>, b: seq<Node>, q: BlockID, s: seq<BlockID>)
    requires Listing(a, q, s) && KeepsBefore(a, b, q)
    ensures InOrder(b, s)
  {
    forall i, j | 0 <= i < j < |s| ensures Before(b, s[i], s[j]) {
      assert Before(a, s[i], s[j]) && s[i] in s && s[j] in s;
    }
  }

  lemma {:induction false} ListingKept(a: seq<Node>, b: seq<Node>, q: BlockID, s: seq<BlockID>)
    requires Listing(a, q, s) && SameChildren(a, b, q) && InOrder(b, s)
    ensures Listing(b, q, s)
  {
    forall id ensures id in s <==> IsChild(b, id, q) {
      assert IsChild(b, id, q) <==> IsChild(a, id, q);
    }
  }

  ghost predicate SameChildren(a: seq<Node>, b: seq<Node>, q: BlockID) {
    forall id :: IsChild(b, id, q) <==> IsChild(a, id, q)
  }

  /** Children in order in one list are in order in the other. */
  ghost predicate KeepsBefore(a: seq<Node>, b: seq<Node>, q: BlockID) {
    forall x, y {:trigger Before(a, x, y)} :: Before(a, x, y) && IsChild(a, x, q) && IsChild(a, y, q) ==> Before(b, x, y)
  }

  lemma {:induction false} ReorderedElsewhere(nodes: seq<Node>, ordered: seq<BlockID>, q: BlockID)
    requires GoodNodes(nodes) && forall id :: id in ordered ==> !IsChild(nodes, id, q)
    ensures ChildOrder(Reordered(nodes, ordered), q) == ChildOrder(nodes, q)
  {
    ReorderedIsChild(nodes, ordered, q);
    ReorderedGood(nodes, ordered);
    var after := Reordered(nodes, ordered);
    forall x, y | IsChild(nodes, x, q) && IsChild(nodes, y, q) && Before(nodes, x, y) ensures Before(after, x, y) {
      BeforeUnmoved(nodes, after, x, y);
    }
    SameListing(nodes, after, q);
  }

  lemma {:induction false} ChildOfOne(nodes: seq<Node>, id: BlockID, p: BlockID, q: BlockID)
    requires Unique(nodes, NodeId) && IsChild(nodes, id, p) && IsChild(nodes, id, q)
    ensures p == q
  {
  }

  lemma {:induction false} PlacedElsewhere(nodes: seq<Node>, block: BlockID, parent: BlockID, after: BlockID, q: BlockID)
    requires GoodNodes(nodes) && block != NONE && q != parent && exists i :: 0 <= i < |nodes| && nodes[i].id == block
    ensures ChildOrder(PlacedBlock(nodes, block, parent, after), q) == Without(ChildOrder(nodes, q), {block})
  {
    var moved := Reparented(nodes, block, parent);
    var siblings := Ids(Siblings(moved, parent, block));
    var ordered := InsertAfter(siblings, block, after);
    ReparentedOrder(nodes, block, parent, q);
    ReparentedGood(nodes, block, parent);
    forall id | id in ordered ensures !IsChild(moved, id, q) {
      InsertAfterMembers(siblings, block, after);
      SiblingMembers(moved, parent, block);
      ReparentedIsChild(nodes, block, parent, block, parent);
      assert IsChild(moved, id, parent);
      if IsChild(moved, id, q) {
        ChildOfOne(moved, id, parent, q);
      }
    }
    ReorderedElsewhere(moved, ordered, q);
  }

  // ----- deleting a subtree -----

  lemma {:induction false} CountParentGrows(nodes: seq<Node>, i: nat, j: nat)
    requires i < j < |nodes|
    ensures CountParent(nodes[..i], nodes[i].parent) < CountParent(nodes[..j], nodes[i].parent)
  {
    assert nodes[..j] == nodes[..i] + nodes[i..j];
    CountParentConcat(nodes[..i], nodes[i..j], nodes[i].parent);
    assert nodes[i..j][0] == nodes[i];
  }

  lemma {:induction false} CountParentConcat(a: seq<Node>, b: seq<Node>, parent: BlockID)
    ensures CountParent(a + b, parent) == CountParent(a, parent) + CountParent(b, parent)
  {
    if a == [] {
      assert a + b == b;
    } else {
      assert (a + b)[1..] == a[1..] + b;
      CountParentConcat(a[1..], b, parent);
    }
  }

  lemma {:induction false} SortedPositions(nodes: seq<Node>, x: Node, y: Node) returns (p: nat, q: nat)
    requires x in nodes && y in nodes && Less(ListingKey(x), ListingKey(y))
    ensures p < q < |SortBy(nodes, ListingKey)|
    ensures SortBy(nodes, ListingKey)[p] == x && SortBy(nodes, ListingKey)[q] == y
  {
    var sorted := SortBy(nodes, ListingKey);
    SortElements(nodes, ListingKey, x);
    SortElements(nodes, ListingKey, y);
    p :| 0 <= p < |sorted| && sorted[p] == x;
    q :| 0 <= q < |sorted| && sorted[q] == y;
  }

  /** Renumbering keeps the order of siblings. */
  lemma {:induction false} RenumberedBefore(nodes: seq<Node>, a: BlockID, b: BlockID, parent: BlockID)
    requires Unique(nodes, NodeId) && Before(nodes, a, b) && IsChild(nodes, a, parent) && IsChild(nodes, b, parent)
    ensures Before(Renumbered(nodes), a, b)
  {
    var i, j :| 0 <= i < |nodes| && 0 <= j < |nodes| && nodes[i].id == a && nodes[j].id == b
      && Less(SiblingKey(nodes[i]), SiblingKey(nodes[j]));
    var p, q := SortedPositions(nodes, nodes[i], nodes[j]);
    CountParentGrows(SortBy(nodes, ListingKey), p, q);
    var after := Renumbered(nodes);
    assert after[p].id == a && after[q].id == b && after[p].order < after[q].order;
  }

  lemma {:induction false} RenumberedIsChild(nodes: seq<Node>, parent: BlockID)
    ensures forall id :: IsChild(Renumbered(nodes), id, parent) <==> IsChild(nodes, id, parent)
  {
    var sorted, after := SortBy(nodes, ListingKey), Renumbered(nodes);
    forall id ensures IsChild(after, id, parent) <==> IsChild(nodes, id, parent) {
      if IsChild(after, id, parent) {
        var i :| 0 <= i < |after| && after[i].id == id && after[i].parent == parent;
        SortElements(nodes, ListingKey, sorted[i]);
        assert sorted[i] in nodes;
      }
      if IsChild(nodes, id, parent) {
        var i :| 0 <= i < |nodes| && nodes[i].id == id && nodes[i].parent == parent;
        SortElements(nodes, ListingKey, nodes[i]);
        var p :| 0 <= p < |sorted| && sorted[p] == nodes[i];
        assert after[p].id == id && after[p].parent == parent;
      }
    }
  }

  lemma {:induction false} RenumberedOrder(nodes: seq<Node>, q: BlockID)
    requires GoodNodes(nodes)
    ensures ChildOrder(Renumbered(nodes), q) == ChildOrder(nodes, q)
  {
    RenumberKeeps(nodes);
    RenumberedIsChild(nodes, q);
    forall x, y | IsChild(nodes, x, q) && IsChild(nodes, y, q) && Before(nodes, x, y) ensures Before(Renumbered(nodes), x, y) {
      RenumberedBefore(nodes, x, y, q);
    }
    SameListing(nodes, Renumbered(nodes), q);
  }

  lemma {:induction false} KeptOrder(nodes: seq<Node>, kept: seq<Node>, gone: set<BlockID>, q: BlockID)
    requires GoodNodes(nodes) && GoodNodes(kept) && forall n :: n in kept <==> n in nodes && n.id !in gone
    ensures ChildOrder(kept, q) == Without(ChildOrder(nodes, q), gone)
  {
    var s := Without(ChildOrder(nodes, q), gone);
    ChildOrderIff(nodes, q, ChildOrder(nodes, q));
    WithoutMembers(ChildOrder(nodes, q), gone);
    WithoutInOrder(nodes, ChildOrder(nodes, q), gone);
    forall id ensures id in s <==> IsChild(kept, id, q) {
      KeptIsChild(nodes, kept, gone, id, q);
    }
    forall i, j | 0 <= i < j < |s| ensures Before(kept, s[i], s[j]) {
      assert s[i] in s && s[j] in s;
      KeptBefore(nodes, kept, gone, s[i], s[j]);
    }
    ChildOrderIff(kept, q, s);
  }

  lemma {:induction false} KeptGood(nodes: seq<Node>, keep: Node -> bool)
    requires GoodNodes(nodes)
    ensures GoodNodes(Filter(nodes, keep))
  {
    FilterUnique(nodes, NodeId, keep);
    var kept := Filter(nodes, keep);
    forall i | 0 <= i < |kept| ensures GoodNode(kept[i]) {
      assert kept[i] in kept;
      assert kept[i] in nodes;
    }
  }

  /** Deleting a subtree drops exactly its blocks from every list. */
  lemma {:induction false} DeletedOrder(nodes: seq<Node>, block: BlockID, q: BlockID)
    requires GoodNodes(nodes)
    ensures ChildOrder(WithoutSubtree(nodes, block), q) == Without(ChildOrder(nodes, q), Removed(GraphOf(nodes), block))
  {
    var gone := Removed(GraphOf(nodes), block);
    var keep := (n: Node) => n.id !in gone;
    KeptGood(nodes, keep);
    KeptOrder(nodes, Filter(nodes, keep), gone, q);
    RenumberedOrder(Filter(nodes, keep), q);
  }

  lemma {:induction false} KeptIsChild(nodes: seq<Node>, kept: seq<Node>, gone: set<BlockID>, id: BlockID, q: BlockID)
    requires forall n :: n in kept <==> n in nodes && n.id !in gone
    ensures IsChild(kept, id, q) <==> IsChild(nodes, id, q) && id !in gone
  {
    if IsChild(kept, id, q) {
      var i :| 0 <= i < |kept| && kept[i].id == id && kept[i].parent == q;
      assert kept[i] in kept;
      assert kept[i] in nodes;
    }
    if IsChild(nodes, id, q) && id !in gone {
      var i :| 0 <= i < |nodes| && nodes[i].id == id && nodes[i].parent == q;
      assert nodes[i] in kept;
    }
  }

  lemma {:induction false} KeptBefore(nodes: seq<Node>, kept: seq<Node>, gone: set<BlockID>, a: BlockID, b: BlockID)
    requires (forall n :: n in kept <==> n in nodes && n.id !in gone) && Before(nodes, a, b) && a !in gone && b !in gone
    ensures Before(kept, a, b)
  {
    var i, j :| 0 <= i < |nodes| && 0 <= j < |nodes| && nodes[i].id == a && nodes[j].id == b
      && Less(SiblingKey(nodes[i]), SiblingKey(nodes[j]));
    assert nodes[i] in kept && nodes[j] in kept;
  }

  // ----- the list model -----

  /** What an operation does to `list`, the children of `q`, as plain lists. `gone`
      is the deleted subtree. */
  function ListStep(list: seq<BlockID>, gone: set<BlockID>, op: Operation, q: BlockID): seq<BlockID> {
    match op
    case InsertBlock(block, _, parent, after) => if q == parent then InsertAfter(list, block, after) else list
    case MoveBlock(block, parent, after) =>
      var rest := Without(list, {block});
      if q == parent then InsertAfter(rest, block, after) else rest
    case DeleteBlock(_) => Without(list, gone)
    case _ => list
  }

  ghost function GoneBy(g: Graph, op: Operation): set<BlockID> {
    if op.DeleteBlock? then Removed(g, op.block) else {}
  }

  lemma {:induction false} SameShapeIsChild(a: seq<Node>, b: seq<Node>, q: BlockID)
    requires SameShape(a, b)
    ensures forall id :: IsChild(b, id, q) ==> IsChild(a, id, q)
  {
    forall id | IsChild(b, id, q) ensures IsChild(a, id, q) {
      var i :| 0 <= i < |b| && b[i].id == id && b[i].parent == q;
      assert a[i].id == id && a[i].parent == q;
    }
  }

  lemma {:induction false} SameShapeOrder(a: seq<Node>, b: seq<Node>, q: BlockID)
    requires Named(a) && Named(b) && SameShape(a, b)
    ensures ChildOrder(a, q) == ChildOrder(b, q)
  {
    SameShapeIsChild(a, b, q);
    SameShapeIsChild(b, a, q);
    forall x, y | IsChild(a, x, q) && IsChild(a, y, q) && Before(a, x, y) ensures Before(b, x, y) {
      BeforeUnmoved(a, b, x, y);
    }
    SameListing(a, b, q);
  }

  lemma {:induction false} InsertedOrder(nodes: seq<Node>, block: BlockID, kind: BlockKind, parent: BlockID, after: BlockID, q: BlockID)
    requires GoodNodes(nodes) && block !in GraphOf(nodes) && block != NONE
    ensures ChildOrder(PlacedBlock(nodes + [Node(block, kind, parent, 0, [], [], [], [])], block, parent, after), q)
         == if q == parent then InsertAfter(ChildOrder(nodes, q), block, after) else ChildOrder(nodes, q)
  {
    var n := Node(block, kind, parent, 0, [], [], [], []);
    var added := nodes + [n];
    AppendedGood(nodes, n);
    assert added[|nodes|].id == block;
    PlacedOrder(added, block, parent, after, q);
    AppendedOrder(nodes, n, q);
    AppendedOrder(nodes, n, parent);
  }

  /** Without the appended block, the children are those there were. */
  lemma {:induction false} AppendedOrder(nodes: seq<Node>, n: Node, q: BlockID)
    requires GoodNodes(nodes) && GoodNodes(nodes + [n])
    ensures Without(ChildOrder(nodes + [n], q), {n.id}) == ChildOrder(nodes, q)
  {
    var added := nodes + [n];
    assert added[|nodes|] == n;
    forall m ensures m in nodes <==> m in added && m.id !in {n.id} {
      if m in nodes {
        var i :| 0 <= i < |nodes| && nodes[i] == m;
        assert added[i] == m;
      }
    }
    KeptOrder(added, nodes, {n.id}, q);
  }

  /** Operations that touch no block's place leave the shape of the node list. */
  lemma {:induction false} OtherShape(tree: Tree, op: Operation)
    requires AppliedNodes(tree, op).Some? && !op.InsertBlock? && !op.MoveBlock? && !op.DeleteBlock?
    ensures SameShape(tree.nodes, AppliedNodes(tree, op).value)
  {
    var nodes := tree.nodes;
    match op
    case SetField(t, value) => FieldShape(tree, t, Value(Set(value)));
    case UnsetField(t) => FieldShape(tree, t, Value(Unset));
    case AttachFile(t, file) => FieldShape(tree, t, File(Some(file)));
    case DetachFile(t) => FieldShape(tree, t, File(None));
    case MoveRelationItem(block, relation, item, targetBlock, targetRelation, after) =>
      assert SameShape(nodes, DeletedItem(nodes, block, relation, item).value);
    case _ =>
  }

  /** The same blocks in the same places. */
  ghost predicate SameShape(a: seq<Node>, b: seq<Node>) {
    |a| == |b| && forall i :: 0 <= i < |a| ==> a[i].id == b[i].id && a[i].parent == b[i].parent && a[i].order == b[i].order
  }

  lemma {:induction false} FieldShape(tree: Tree, t: Target, change: Change)
    requires ChangedField(tree, t, change).Some?
    ensures SameShape(tree.nodes, ChangedField(tree, t, change).value)
  {
    var i := Find(tree.nodes, NodeId, t.block);
    ChangedShape(tree.catalog, tree.nodes[i], t, change);
  }

  lemma {:induction false} ChangedShape(c: Catalog, n: Node, t: Target, change: Change)
    requires ChangedNode(c, n, t, change).Some?
    ensures var m := ChangedNode(c, n, t, change).value; m.id == n.id && m.parent == n.parent && m.order == n.order
  {
  }

  lemma {:induction false} MovedOrder(nodes: seq<Node>, block: BlockID, parent: BlockID, after: BlockID, q: BlockID)
    requires GoodNodes(nodes) && block != NONE && block in GraphOf(nodes)
    ensures ChildOrder(PlacedBlock(nodes, block, parent, after), q) ==
              if q == parent then InsertAfter(Without(ChildOrder(nodes, parent), {block}), block, after)
              else Without(ChildOrder(nodes, q), {block})
  {
    GraphHas(nodes, block);
    assert nodes[Find(nodes, NodeId, block)].id == block;
    PlacedOrder(nodes, block, parent, after, q);
  }

  /** Any accepted operation that applies changes sibling order as the list model says. */
  lemma {:induction false} StepOrder(tree: Tree, v: Validator, op: Operation, q: BlockID)
    requires GoodNodes(tree.nodes) && Forest(v.graph) && Covers(GraphOf(tree.nodes), v.graph) && Validate(v, op).None?
    requires Applied(tree, op).Some?
    ensures ChildOrder(Applied(tree, op).value.nodes, q) == ListStep(ChildOrder(tree.nodes, q), GoneBy(v.graph, op), op, q)
  {
    StepCovered(tree, v, op);
    if op.InsertBlock? || op.MoveBlock? || op.DeleteBlock? {
      BlockOrder(tree, v, op, q);
    } else {
      OtherShape(tree, op);
      SameShapeOrder(tree.nodes, Applied(tree, op).value.nodes, q);
    }
  }

  lemma {:induction false} InsertStepOrder(tree: Tree, v: Validator, op: Operation, q: BlockID)
    requires GoodNodes(tree.nodes) && Forest(v.graph) && Covers(GraphOf(tree.nodes), v.graph) && Validate(v, op).None?
    requires op.InsertBlock?
    ensures ChildOrder(AppliedNodes(tree, op).value, q) == ListStep(ChildOrder(tree.nodes, q), GoneBy(v.graph, op), op, q)
  {
    InsertedOrder(tree.nodes, op.block, op.kind, op.parent, op.after, q);
  }

  lemma {:induction false} MoveStepOrder(tree: Tree, v: Validator, op: Operation, q: BlockID)
    requires GoodNodes(tree.nodes) && Forest(v.graph) && Covers(GraphOf(tree.nodes), v.graph) && Validate(v, op).None?
    requires op.MoveBlock?
    ensures ChildOrder(AppliedNodes(tree, op).value, q) == ListStep(ChildOrder(tree.nodes, q), GoneBy(v.graph, op), op, q)
  {
    MovedOrder(tree.nodes, op.block, op.parent, op.after, q);
  }

  lemma {:induction false} DeleteStepOrder(tree: Tree, v: Validator, op: Operation, q: BlockID)
    requires GoodNodes(tree.nodes) && Forest(v.graph) && Covers(GraphOf(tree.nodes), v.graph) && Validate(v, op).None?
    requires op.DeleteBlock?
    ensures ChildOrder(AppliedNodes(tree, op).value, q) == ListStep(ChildOrder(tree.nodes, q), GoneBy(v.graph, op), op, q)
  {
    RemovedAlike(GraphOf(tree.nodes), v.graph, op.block);
    DeletedOrder(tree.nodes, op.block, q);
  }

  lemma {:induction false} BlockOrder(tree: Tree, v: Validator, op: Operation, q: BlockID)
    requires GoodNodes(tree.nodes) && Forest(v.graph) && Covers(GraphOf(tree.nodes), v.graph) && Validate(v, op).None?
    requires op.InsertBlock? || op.MoveBlock? || op.DeleteBlock?
    ensures ChildOrder(AppliedNodes(tree, op).value, q) == ListStep(ChildOrder(tree.nodes, q), GoneBy(v.graph, op), op, q)
  {
    if op.InsertBlock? {
      InsertStepOrder(tree, v, op, q);
    } else if op.MoveBlock? {
      MoveStepOrder(tree, v, op, q);
    } else {
      DeleteStepOrder(tree, v, op, q);
    }
  }

  /** The anchor of an accepted placement is one of the new siblings, so the block
      goes right after it and never to the end for want of it. */
  lemma {:induction false} AcceptedAnchor(tree: Tree, v: Validator, op: Operation)
    requires GoodNodes(tree.nodes) && Forest(v.graph) && Covers(GraphOf(tree.nodes), v.graph) && Validate(v, op).None?
    requires (op.InsertBlock? || op.MoveBlock?) && op.after != NONE
    ensures op.after in Without(ChildOrder(tree.nodes, op.parent), {op.block})
  {
    GraphHas(tree.nodes, op.after);
    var i := Find(tree.nodes, NodeId, op.after);
    assert CoversBlock(GraphOf(tree.nodes)[op.after], v.graph[op.after]);
    assert tree.nodes[i].id == op.after && tree.nodes[i].parent == op.parent;
    ChildOrderIff(tree.nodes, op.parent, ChildOrder(tree.nodes, op.parent));
    assert IsChild(tree.nodes, op.after, op.parent);
    WithoutMembers(ChildOrder(tree.nodes, op.parent), {op.block});
  }

  /** The list model over a batch. */
  ghost function ListRun(list: seq<BlockID>, v: Validator, ops: seq<Operation>, q: BlockID): seq<BlockID>
    requires Forest(v.graph) && AcceptedAll(v, ops)
    decreases |ops|
  {
    if ops == [] then list
    else
      AcceptedKeepsForest(v, ops[0]);
      ListRun(ListStep(list, GoneBy(v.graph, ops[0]), ops[0], q), Accepted(v, ops[0]), ops[1..], q)
  }

  /** Over any accepted batch that applies, the children of every block are what the
      plain list model makes of them. */
  lemma {:induction false} BatchOrder(tree: Tree, v: Validator, ops: seq<Operation>, q: BlockID)
    requires GoodNodes(tree.nodes) && Forest(v.graph) && Covers(GraphOf(tree.nodes), v.graph) && AcceptedAll(v, ops)
    requires AppliedAll(tree, ops).Some?
    ensures ChildOrder(AppliedAll(tree, ops).value.nodes, q) == ListRun(ChildOrder(tree.nodes, q), v, ops, q)
    decreases |ops|
  {
    if ops != [] {
      AcceptedKeepsForest(v, ops[0]);
      StepCovered(tree, v, ops[0]);
      StepOrder(tree, v, ops[0], q);
      BatchOrder(Applied(tree, ops[0]).value, Accepted(v, ops[0]), ops[1..], q);
    }
  }
}
