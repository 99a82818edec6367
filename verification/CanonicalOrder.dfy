/** The canonical listing of a node list: every block's content sorted, and the
    blocks in pre-order, siblings by order number and identifier. A parent that is
    not among the nodes makes a root, so projections of a document list too. */
module CanonicalOrder {
  import opened Lists
  import opened Values
  import opened Documents
  import opened BlockGraph
  import opened Mutation

  // ----- content of one block -----

  function EntryKey(e: Entry): Key { Key(0, 0, e.id) }
  function RelationKey(r: Relation): Key { Key(0, 0, r.id) }

  function CanonicalItem(i: RelationItem): RelationItem {
    i.(shared := SortBy(i.shared, EntryKey), localized := SortBy(i.localized, EntryKey))
  }

  function CanonicalRelation(r: Relation): Relation {
    r.(items := SortBy(Map(r.items, CanonicalItem), ItemKey))
  }

  function CanonicalNode(n: Node): Node {
    n.(shared := SortBy(n.shared, EntryKey), localized := SortBy(n.localized, EntryKey),
       relations := SortBy(Map(n.relations, CanonicalRelation), RelationKey))
  }

  // ----- roots and children -----

  function IdSet(nodes: seq<Node>): set<BlockID> {
    set i | 0 <= i < |nodes| :: nodes[i].id
  }

  predicate IsRoot(n: Node, ids: set<BlockID>) {
    n.parent == NONE || n.parent !in ids
  }

  function Roots(nodes: seq<Node>): seq<Node> {
    var ids := IdSet(nodes);
    SortBy(Filter(nodes, (n: Node) => IsRoot(n, ids)), ListingKey)
  }

  function Kids(nodes: seq<Node>, parent: BlockID): seq<Node> {
    SortBy(Filter(nodes, (n: Node) => n.parent == parent), ListingKey)
  }

  lemma KidsMembers(nodes: seq<Node>, parent: BlockID)
    ensures forall n :: n in Kids(nodes, parent) <==> n in nodes && n.parent == parent
  {
    forall n ensures n in Kids(nodes, parent) <==> n in nodes && n.parent == parent {
      SortElements(Filter(nodes, (n: Node) => n.parent == parent), ListingKey, n);
    }
  }

  lemma RootsMembers(nodes: seq<Node>)
    ensures forall n :: n in Roots(nodes) <==> n in nodes && IsRoot(n, IdSet(nodes))
  {
    var ids := IdSet(nodes);
    forall n ensures n in Roots(nodes) <==> n in nodes && IsRoot(n, ids) {
      SortElements(Filter(nodes, (n: Node) => IsRoot(n, ids)), ListingKey, n);
    }
  }

  // ----- depth -----

  type Parents = map<BlockID, BlockID>

  function ParentOf(n: Node): BlockID { n.parent }

  function ParentsOf(nodes: seq<Node>): Parents {
    Index(nodes, NodeId, ParentOf)
  }

  predicate EndsAt(p: Parents, parent: BlockID) {
    parent == NONE || parent !in p
  }

  /** `id` is `d` steps below a root. */
  ghost predicate AtDepth(p: Parents, id: BlockID, d: nat)
    decreases d
  {
    id in p && if EndsAt(p, p[id]) then d == 0 else d > 0 && AtDepth(p, p[id], d - 1)
  }

  ghost predicate HasDepth(p: Parents, id: BlockID) {
    exists d: nat :: AtDepth(p, id, d)
  }

  /** No parent link among the nodes lies on a cycle. */
  ghost predicate Acyclic(p: Parents) {
    forall id :: id in p ==> HasDepth(p, id)
  }

  lemma {:induction false} DepthIsUnique(p: Parents, id: BlockID, d: nat, e: nat)
    requires AtDepth(p, id, d) && AtDepth(p, id, e)
    ensures d == e
    decreases d
  {
    if d > 0 && e > 0 {
      DepthIsUnique(p, p[id], d - 1, e - 1);
    }
  }

  ghost predicate DepthUpTo(p: Parents, id: BlockID, d: nat) {
    exists e: nat :: e <= d && AtDepth(p, id, e)
  }

  /** The chain of a block at depth `d` has `d + 1` distinct members. */
  lemma {:induction false} Chain(p: Parents, id: BlockID, d: nat) returns (chain: set<BlockID>)
    requires AtDepth(p, id, d)
    ensures |chain| == d + 1 && chain <= p.Keys
    ensures forall x :: x in chain ==> DepthUpTo(p, x, d)
    decreases d
  {
    if d == 0 {
      chain := {id};
    } else {
      var above := Chain(p, p[id], d - 1);
      if id in above {
        var e: nat :| e <= d - 1 && AtDepth(p, id, e);
        DepthIsUnique(p, id, d, e);
      }
      chain := above + {id};
      forall x | x in chain ensures DepthUpTo(p, x, d) {
        if x != id {
          var e: nat :| e <= d - 1 && AtDepth(p, x, e);
          assert e <= d;
        }
      }
    }
  }

  lemma {:induction false} DepthBound(p: Parents, id: BlockID, d: nat)
    requires AtDepth(p, id, d)
    ensures d < |p|
  {
    var chain := Chain(p, id, d);
    SubsetSize(chain, p.Keys);
  }

  lemma {:induction false} ParentsHas(nodes: seq<Node>, n: Node)
    requires Named(nodes) && n in nodes
    ensures n.id in ParentsOf(nodes) && ParentsOf(nodes)[n.id] == n.parent
  {
    var i :| 0 <= i < |nodes| && nodes[i] == n;
    IndexHas(nodes, NodeId, ParentOf, i);
  }

  lemma {:induction false} ParentsKeys(nodes: seq<Node>)
    requires Named(nodes)
    ensures ParentsOf(nodes).Keys == IdSet(nodes)
  {
    IndexIndexes(nodes, NodeId, ParentOf);
  }

  lemma {:induction false} KidDepth(nodes: seq<Node>, kid: Node, d: nat)
    requires Named(nodes) && kid in nodes && AtDepth(ParentsOf(nodes), kid.parent, d)
    ensures AtDepth(ParentsOf(nodes), kid.id, d + 1)
  {
    ParentsHas(nodes, kid);
    ParentsKeys(nodes);
    assert kid.parent != NONE;
  }

  lemma {:induction false} SubsetSize(a: set<BlockID>, b: set<BlockID>)
    requires a <= b
    ensures |a| <= |b|
  {
    assert b == a + (b - a);
  }

  // ----- pre-order -----

  /** A block followed by the listings of its children, in order. */
  function Subtree(nodes: seq<Node>, n: Node, ghost d: nat): seq<Node>
    requires Named(nodes) && n in nodes && AtDepth(ParentsOf(nodes), n.id, d)
    decreases |ParentsOf(nodes)| - d, 1, 0
  {
    KidsBelow(nodes, n, d);
    [n] + Subtrees(nodes, Kids(nodes, n.id), d + 1)
  }

  ghost predicate AllAtDepth(nodes: seq<Node>, some: seq<Node>, d: nat) {
    forall i :: 0 <= i < |some| ==> some[i] in nodes && AtDepth(ParentsOf(nodes), some[i].id, d)
  }

  function Subtrees(nodes: seq<Node>, some: seq<Node>, ghost d: nat): seq<Node>
    requires Named(nodes) && AllAtDepth(nodes, some, d)
    decreases |ParentsOf(nodes)| - d, 2, |some|
  {
    if some == [] then []
    else
      DepthBound(ParentsOf(nodes), some[0].id, d);
      Subtree(nodes, some[0], d) + Subtrees(nodes, some[1..], d)
  }

  lemma {:induction false} SubtreeCons(nodes: seq<Node>, n: Node, d: nat)
    requires Named(nodes) && n in nodes && AtDepth(ParentsOf(nodes), n.id, d)
    ensures d < |ParentsOf(nodes)| && AllAtDepth(nodes, Kids(nodes, n.id), d + 1)
    ensures Subtree(nodes, n, d) == [n] + Subtrees(nodes, Kids(nodes, n.id), d + 1)
  {
    KidsBelow(nodes, n, d);
  }

  lemma {:induction false} SubtreesCons(nodes: seq<Node>, some: seq<Node>, d: nat)
    requires Named(nodes) && AllAtDepth(nodes, some, d) && some != []
    ensures d < |ParentsOf(nodes)| && AllAtDepth(nodes, some[1..], d)
    ensures some[0] in nodes && AtDepth(ParentsOf(nodes), some[0].id, d)
    ensures Subtrees(nodes, some, d) == Subtree(nodes, some[0], d) + Subtrees(nodes, some[1..], d)
  {
    DepthBound(ParentsOf(nodes), some[0].id, d);
  }

  lemma {:induction false} KidsBelow(nodes: seq<Node>, n: Node, d: nat)
    requires Named(nodes) && n in nodes && AtDepth(ParentsOf(nodes), n.id, d)
    ensures d < |ParentsOf(nodes)| && AllAtDepth(nodes, Kids(nodes, n.id), d + 1)
  {
    DepthBound(ParentsOf(nodes), n.id, d);
    KidsMembers(nodes, n.id);
    var kids := Kids(nodes, n.id);
    forall i | 0 <= i < |kids| ensures kids[i] in nodes && AtDepth(ParentsOf(nodes), kids[i].id, d + 1) {
      assert kids[i] in kids;
      KidDepth(nodes, kids[i], d);
    }
  }

  lemma {:induction false} RootsAtTop(nodes: seq<Node>)
    requires Named(nodes)
    ensures AllAtDepth(nodes, Roots(nodes), 0)
  {
    var roots := Roots(nodes);
    RootsMembers(nodes);
    ParentsKeys(nodes);
    forall i | 0 <= i < |roots| ensures roots[i] in nodes && AtDepth(ParentsOf(nodes), roots[i].id, 0) {
      assert roots[i] in roots;
      ParentsHas(nodes, roots[i]);
    }
  }

  /** The blocks in pre-order. */
  function Preorder(nodes: seq<Node>): seq<Node>
    requires Named(nodes)
  {
    RootsAtTop(nodes);
    Subtrees(nodes, Roots(nodes), 0)
  }

  // ----- who is listed -----

  /** `x` is `k` steps below `n`. */
  ghost predicate ClimbsTo(p: Parents, x: BlockID, k: nat, top: BlockID)
    decreases k
  {
    x in p && if k == 0 then x == top else ClimbsTo(p, p[x], k - 1, top)
  }

  ghost predicate Under(p: Parents, x: BlockID, top: BlockID) {
    exists k: nat :: ClimbsTo(p, x, k, top)
  }

  lemma {:induction false} ClimbDepth(p: Parents, x: BlockID, k: nat, top: BlockID, d: nat)
    requires NONE !in p && ClimbsTo(p, x, k, top) && AtDepth(p, top, d)
    ensures AtDepth(p, x, d + k)
    decreases k
  {
    if k > 0 {
      ClimbDepth(p, p[x], k - 1, top, d);
    }
  }

  lemma {:induction false} ClimbIsFunction(p: Parents, x: BlockID, k: nat, a: BlockID, b: BlockID)
    requires ClimbsTo(p, x, k, a) && ClimbsTo(p, x, k, b)
    ensures a == b
    decreases k
  {
    if k > 0 {
      ClimbIsFunction(p, p[x], k - 1, a, b);
    }
  }

  /** A block lies under at most one block of each depth. */
  lemma {:induction false} UnderOne(p: Parents, x: BlockID, a: BlockID, b: BlockID, d: nat)
    requires NONE !in p && Under(p, x, a) && Under(p, x, b) && AtDepth(p, a, d) && AtDepth(p, b, d)
    ensures a == b
  {
    var i: nat :| ClimbsTo(p, x, i, a);
    var j: nat :| ClimbsTo(p, x, j, b);
    ClimbDepth(p, x, i, a, d);
    ClimbDepth(p, x, j, b, d);
    DepthIsUnique(p, x, d + i, d + j);
    ClimbIsFunction(p, x, i, a, b);
  }

  /** To be under `n` is to be `n`, or under one of its children. */
  lemma {:induction false} UnderByKid(p: Parents, x: BlockID, top: BlockID)
    requires top in p
    ensures Under(p, x, top) <==> x == top || exists kid :: kid in p && p[kid] == top && Under(p, x, kid)
  {
    if Under(p, x, top) && x != top {
      var k: nat :| ClimbsTo(p, x, k, top);
      var kid := LastStep(p, x, k, top);
      assert ClimbsTo(p, x, k - 1, kid);
    }
    if x == top {
      assert ClimbsTo(p, x, 0, top);
    }
    if exists kid :: kid in p && p[kid] == top && Under(p, x, kid) {
      var kid :| kid in p && p[kid] == top && Under(p, x, kid);
      var k: nat :| ClimbsTo(p, x, k, kid);
      OneMore(p, x, k, kid);
    }
  }

  lemma {:induction false} LastStep(p: Parents, x: BlockID, k: nat, top: BlockID) returns (kid: BlockID)
    requires k > 0 && ClimbsTo(p, x, k, top)
    ensures kid in p && p[kid] == top && ClimbsTo(p, x, k - 1, kid)
    decreases k
  {
    if k == 1 {
      kid := x;
    } else {
      kid := LastStep(p, p[x], k - 1, top);
    }
  }

  lemma {:induction false} OneMore(p: Parents, x: BlockID, k: nat, kid: BlockID)
    requires ClimbsTo(p, x, k, kid) && kid in p && p[kid] in p
    ensures ClimbsTo(p, x, k + 1, p[kid])
    decreases k
  {
    if k > 0 {
      OneMore(p, p[x], k - 1, kid);
    }
  }

  ghost predicate UnderSome(p: Parents, x: BlockID, some: seq<Node>) {
    exists i :: 0 <= i < |some| && Under(p, x, some[i].id)
  }

  lemma {:induction false} UnderKids(nodes: seq<Node>, n: Node, x: BlockID)
    requires Named(nodes) && n in nodes
    ensures Under(ParentsOf(nodes), x, n.id) <==> x == n.id || UnderSome(ParentsOf(nodes), x, Kids(nodes, n.id))
  {
    var p, kids := ParentsOf(nodes), Kids(nodes, n.id);
    ParentsHas(nodes, n);
    ParentsKeys(nodes);
    UnderByKid(p, x, n.id);
    KidsMembers(nodes, n.id);
    if kid :| kid in p && p[kid] == n.id && Under(p, x, kid) {
      var i :| 0 <= i < |nodes| && nodes[i].id == kid;
      assert nodes[i] in nodes;
      ParentsHas(nodes, nodes[i]);
      assert nodes[i] in kids;
      var j :| 0 <= j < |kids| && kids[j] == nodes[i];
      assert Under(p, x, kids[j].id);
    }
    if UnderSome(p, x, kids) {
      var i :| 0 <= i < |kids| && Under(p, x, kids[i].id);
      assert kids[i] in kids;
      ParentsHas(nodes, kids[i]);
    }
  }

  /** A subtree lists exactly the nodes under its top. */
  lemma {:induction false} SubtreeMembers(nodes: seq<Node>, n: Node, d: nat, x: Node)
    requires Named(nodes) && n in nodes && AtDepth(ParentsOf(nodes), n.id, d)
    ensures x in Subtree(nodes, n, d) <==> x in nodes && Under(ParentsOf(nodes), x.id, n.id)
    decreases |ParentsOf(nodes)| - d, 1, 0
  {
    KidsBelow(nodes, n, d);
    SubtreesMembers(nodes, Kids(nodes, n.id), d + 1, x);
    UnderKids(nodes, n, x.id);
    if x in nodes && x.id == n.id {
      SameIdSameNode(nodes, x, n);
    }
  }

  lemma {:induction false} SameIdSameNode(nodes: seq<Node>, a: Node, b: Node)
    requires Named(nodes) && a in nodes && b in nodes && a.id == b.id
    ensures a == b
  {
    var i :| 0 <= i < |nodes| && nodes[i] == a;
    var j :| 0 <= j < |nodes| && nodes[j] == b;
  }

  lemma {:induction false} SubtreesMembers(nodes: seq<Node>, some: seq<Node>, d: nat, x: Node)
    requires Named(nodes) && AllAtDepth(nodes, some, d)
    ensures x in Subtrees(nodes, some, d) <==> x in nodes && UnderSome(ParentsOf(nodes), x.id, some)
    decreases |ParentsOf(nodes)| - d, 2, |some|
  {
    if some != [] {
      DepthBound(ParentsOf(nodes), some[0].id, d);
      SubtreeMembers(nodes, some[0], d, x);
      SubtreesMembers(nodes, some[1..], d, x);
      UnderSomeCons(ParentsOf(nodes), x.id, some);
    }
  }

  lemma {:induction false} UnderSomeCons(p: Parents, x: BlockID, some: seq<Node>)
    requires some != []
    ensures UnderSome(p, x, some) <==> Under(p, x, some[0].id) || UnderSome(p, x, some[1..])
  {
    if UnderSome(p, x, some[1..]) {
      var i :| 0 <= i < |some[1..]| && Under(p, x, some[1..][i].id);
      assert Under(p, x, some[i + 1].id);
    }
    if UnderSome(p, x, some) {
      var i :| 0 <= i < |some| && Under(p, x, some[i].id);
      assert i > 0 ==> Under(p, x, some[1..][i - 1].id);
    }
  }

  // ----- every node exactly once -----

  lemma {:induction false} DepthUnderRoot(p: Parents, x: BlockID, d: nat) returns (root: BlockID)
    requires AtDepth(p, x, d)
    ensures root in p && EndsAt(p, p[root]) && ClimbsTo(p, x, d, root)
    decreases d
  {
    if d == 0 {
      root := x;
    } else {
      root := DepthUnderRoot(p, p[x], d - 1);
    }
  }

  /** The listing holds exactly the nodes that are not cut off by a cycle. */
  lemma {:induction false} PreorderMembers(nodes: seq<Node>, x: Node)
    requires Named(nodes)
    ensures x in Preorder(nodes) <==> x in nodes && HasDepth(ParentsOf(nodes), x.id)
  {
    var p, roots := ParentsOf(nodes), Roots(nodes);
    RootsAtTop(nodes);
    SubtreesMembers(nodes, roots, 0, x);
    if x in nodes && HasDepth(p, x.id) {
      HasRoot(nodes, x);
    }
    if UnderSome(p, x.id, roots) {
      RootedHasDepth(nodes, x.id);
    }
  }

  lemma {:induction false} RootedHasDepth(nodes: seq<Node>, id: BlockID)
    requires Named(nodes) && UnderSome(ParentsOf(nodes), id, Roots(nodes))
    ensures HasDepth(ParentsOf(nodes), id)
  {
    var p, roots := ParentsOf(nodes), Roots(nodes);
    RootsAtTop(nodes);
    ParentsKeys(nodes);
    var j :| 0 <= j < |roots| && Under(p, id, roots[j].id);
    var k: nat :| ClimbsTo(p, id, k, roots[j].id);
    ClimbDepth(p, id, k, roots[j].id, 0);
  }

  lemma {:induction false} HasRoot(nodes: seq<Node>, x: Node)
    requires Named(nodes) && HasDepth(ParentsOf(nodes), x.id)
    ensures UnderSome(ParentsOf(nodes), x.id, Roots(nodes))
  {
    var p, roots := ParentsOf(nodes), Roots(nodes);
    RootsMembers(nodes);
    ParentsKeys(nodes);
    var d: nat :| AtDepth(p, x.id, d);
    var root := DepthUnderRoot(p, x.id, d);
    var i :| 0 <= i < |nodes| && nodes[i].id == root;
    assert nodes[i] in nodes;
    ParentsHas(nodes, nodes[i]);
    assert nodes[i] in roots;
    var j :| 0 <= j < |roots| && roots[j] == nodes[i];
    assert Under(p, x.id, roots[j].id);
  }

  lemma {:induction false} UniqueConcat(a: seq<Node>, b: seq<Node>)
    requires Unique(a, NodeId) && Unique(b, NodeId) && forall x, y :: x in a && y in b ==> x.id != y.id
    ensures Unique(a + b, NodeId)
  {
    forall i, j | 0 <= i < j < |a + b| ensures (a + b)[i].id != (a + b)[j].id {
      if i < |a| && j >= |a| {
        assert a[i] in a && b[j - |a|] in b;
      }
    }
  }

  lemma {:induction false} SubtreeUnique(nodes: seq<Node>, n: Node, d: nat)
    requires Named(nodes) && n in nodes && AtDepth(ParentsOf(nodes), n.id, d)
    ensures Unique(Subtree(nodes, n, d), NodeId)
    decreases |ParentsOf(nodes)| - d, 1, 0
  {
    KidsBelow(nodes, n, d);
    var kids := Kids(nodes, n.id);
    KidsUnique(nodes, n.id);
    SubtreesUnique(nodes, kids, d + 1);
    forall x, y | x in [n] && y in Subtrees(nodes, kids, d + 1) ensures x.id != y.id {
      DeeperThan(nodes, kids, d + 1, y);
      if y.id == n.id {
        var e: nat :| e > d && AtDepth(ParentsOf(nodes), y.id, e);
        DepthIsUnique(ParentsOf(nodes), n.id, d, e);
      }
    }
    UniqueConcat([n], Subtrees(nodes, kids, d + 1));
  }

  lemma {:induction false} DeeperThan(nodes: seq<Node>, some: seq<Node>, d: nat, y: Node)
    requires Named(nodes) && AllAtDepth(nodes, some, d) && y in Subtrees(nodes, some, d)
    ensures exists e: nat :: e >= d && AtDepth(ParentsOf(nodes), y.id, e)
  {
    var p := ParentsOf(nodes);
    SubtreesMembers(nodes, some, d, y);
    var i :| 0 <= i < |some| && Under(p, y.id, some[i].id);
    var k: nat :| ClimbsTo(p, y.id, k, some[i].id);
    ParentsKeys(nodes);
    ClimbDepth(p, y.id, k, some[i].id, d);
    assert d + k >= d;
  }

  lemma {:induction false} SortedUnique(nodes: seq<Node>, keep: Node -> bool)
    requires Unique(nodes, NodeId)
    ensures Unique(SortBy(Filter(nodes, keep), ListingKey), NodeId)
    ensures Increasing(SortBy(Filter(nodes, keep), ListingKey), ListingKey)
  {
    FilterUnique(nodes, NodeId, keep);
    UniquePermutation(Filter(nodes, keep), SortBy(Filter(nodes, keep), ListingKey), NodeId);
    SortedDistinctIncreasing(SortBy(Filter(nodes, keep), ListingKey), ListingKey, NodeId);
  }

  lemma {:induction false} KidsUnique(nodes: seq<Node>, parent: BlockID)
    requires Unique(nodes, NodeId)
    ensures Unique(Kids(nodes, parent), NodeId) && Increasing(Kids(nodes, parent), ListingKey)
  {
    SortedUnique(nodes, (n: Node) => n.parent == parent);
  }

  lemma {:induction false} RootsUnique(nodes: seq<Node>)
    requires Unique(nodes, NodeId)
    ensures Unique(Roots(nodes), NodeId) && Increasing(Roots(nodes), ListingKey)
  {
    var ids := IdSet(nodes);
    SortedUnique(nodes, (n: Node) => IsRoot(n, ids));
  }

  lemma {:induction false} SubtreesUnique(nodes: seq<Node>, some: seq<Node>, d: nat)
    requires Named(nodes) && AllAtDepth(nodes, some, d) && Unique(some, NodeId)
    ensures Unique(Subtrees(nodes, some, d), NodeId)
    decreases |ParentsOf(nodes)| - d, 2, |some|
  {
    if some != [] {
      SubtreesCons(nodes, some, d);
      var head, tail := Subtree(nodes, some[0], d), Subtrees(nodes, some[1..], d);
      SubtreeUnique(nodes, some[0], d);
      SubtreesUnique(nodes, some[1..], d);
      forall x, y | x in head && y in tail ensures x.id != y.id {
        SubtreesDisjoint(nodes, some, d, x, y);
      }
      UniqueConcat(head, tail);
    }
  }

  lemma {:induction false} SubtreesDisjoint(nodes: seq<Node>, some: seq<Node>, d: nat, x: Node, y: Node)
    requires Named(nodes) && AllAtDepth(nodes, some, d) && Unique(some, NodeId) && some != []
    requires x in Subtree(nodes, some[0], d) && y in Subtrees(nodes, some[1..], d)
    ensures x.id != y.id
  {
    var p := ParentsOf(nodes);
    SubtreeMembers(nodes, some[0], d, x);
    SubtreesMembers(nodes, some[1..], d, y);
    var i :| 0 <= i < |some[1..]| && Under(p, y.id, some[1..][i].id);
    assert some[1..][i] == some[i + 1];
    ParentsKeys(nodes);
    if x.id == y.id {
      UnderOne(p, x.id, some[0].id, some[i + 1].id, d);
    }
  }

  lemma {:induction false} PreorderUnique(nodes: seq<Node>)
    requires Named(nodes)
    ensures Unique(Preorder(nodes), NodeId)
  {
    RootsAtTop(nodes);
    RootsUnique(nodes);
    SubtreesUnique(nodes, Roots(nodes), 0);
  }

  /** Every node is listed exactly once if and only if no parent cycle exists. */
  lemma {:induction false} PreorderCompleteIff(nodes: seq<Node>)
    requires Named(nodes)
    ensures Unique(Preorder(nodes), NodeId)
    ensures multiset(Preorder(nodes)) == multiset(nodes) <==> Acyclic(ParentsOf(nodes))
  {
    var p, listed := ParentsOf(nodes), Preorder(nodes);
    PreorderUnique(nodes);
    ParentsKeys(nodes);
    if Acyclic(p) {
      forall x ensures x in listed <==> x in nodes {
        PreorderMembers(nodes, x);
        if x in nodes {
          ParentsHas(nodes, x);
        }
      }
      SameMembersPermutation(listed, nodes, NodeId);
    }
    if multiset(listed) == multiset(nodes) {
      SameMultisetMembers(listed, nodes);
      forall id | id in p ensures HasDepth(p, id) {
        var i :| 0 <= i < |nodes| && nodes[i].id == id;
        assert nodes[i] in nodes;
        PreorderMembers(nodes, nodes[i]);
      }
    }
  }

  // ----- the shape of the listing -----

  /** The listing `s` is the subtree of `x` between `a` and `c`. */
  ghost predicate SplitsAt(nodes: seq<Node>, s: seq<Node>, x: Node, a: seq<Node>, e: nat, c: seq<Node>)
    requires Named(nodes)
  {
    x in nodes && AtDepth(ParentsOf(nodes), x.id, e) && s == a + Subtree(nodes, x, e) + c
  }

  lemma {:induction false} SplitsWithin(
    nodes: seq<Node>, before: seq<Node>, s: seq<Node>, after: seq<Node>, x: Node, a: seq<Node>, e: nat, c: seq<Node>)
    requires Named(nodes) && SplitsAt(nodes, s, x, a, e, c)
    ensures SplitsAt(nodes, before + s + after, x, before + a, e, c + after)
  {
    Regroup(a, Subtree(nodes, x, e), c, before, after);
  }

  lemma Regroup(a: seq<Node>, b: seq<Node>, c: seq<Node>, before: seq<Node>, after: seq<Node>)
    ensures before + (a + b + c) + after == (before + a) + b + (c + after)
  {
  }

  lemma NoEnds(s: seq<Node>)
    ensures [] + s == s && s + [] == s
  {
  }

  lemma NotHead(n: Node, rest: seq<Node>, x: Node)
    requires x in [n] + rest && x != n
    ensures x in rest
  {
  }

  /** A subtree lists each subtree in it contiguously. */
  lemma {:induction false} SubtreeSplits(nodes: seq<Node>, n: Node, d: nat, x: Node)
      returns (a: seq<Node>, e: nat, c: seq<Node>)
    requires Named(nodes) && n in nodes && AtDepth(ParentsOf(nodes), n.id, d) && x in Subtree(nodes, n, d)
    ensures SplitsAt(nodes, Subtree(nodes, n, d), x, a, e, c)
    decreases |ParentsOf(nodes)| - d, 1, 0
  {
    if x == n {
      a, e, c := [], d, [];
      NoEnds(Subtree(nodes, n, d));
    } else {
      a, e, c := BelowSplits(nodes, n, d, x);
    }
  }

  lemma {:induction false} BelowSplits(nodes: seq<Node>, n: Node, d: nat, x: Node)
      returns (a: seq<Node>, e: nat, c: seq<Node>)
    requires Named(nodes) && n in nodes && AtDepth(ParentsOf(nodes), n.id, d) && x in Subtree(nodes, n, d) && x != n
    ensures SplitsAt(nodes, Subtree(nodes, n, d), x, a, e, c)
    decreases |ParentsOf(nodes)| - d, 0, 0
  {
    SubtreeCons(nodes, n, d);
    var rest := Subtrees(nodes, Kids(nodes, n.id), d + 1);
    NotHead(n, rest, x);
    a, e, c := SubtreesSplit(nodes, Kids(nodes, n.id), d + 1, x);
    SplitsWithin(nodes, [n], rest, [], x, a, e, c);
    NoEnds([n] + rest);
    a, c := [n] + a, c + [];
  }

  lemma {:induction false} SubtreesSplit(nodes: seq<Node>, some: seq<Node>, d: nat, x: Node)
      returns (a: seq<Node>, e: nat, c: seq<Node>)
    requires Named(nodes) && AllAtDepth(nodes, some, d) && x in Subtrees(nodes, some, d)
    ensures SplitsAt(nodes, Subtrees(nodes, some, d), x, a, e, c)
    decreases |ParentsOf(nodes)| - d, 2, |some|
  {
    SubtreesCons(nodes, some, d);
    var head, tail := Subtree(nodes, some[0], d), Subtrees(nodes, some[1..], d);
    if x in head {
      a, e, c := SubtreeSplits(nodes, some[0], d, x);
      SplitsWithin(nodes, [], head, tail, x, a, e, c);
      NoEnds(head);
      a, c := [] + a, c + tail;
    } else {
      a, e, c := SubtreesSplit(nodes, some[1..], d, x);
      SplitsWithin(nodes, head, tail, [], x, a, e, c);
      NoEnds(head + tail);
      a, c := head + a, c + [];
    }
  }

  /** Every block heads a contiguous listing of exactly the blocks under it. */
  lemma {:induction false} SubtreesAreContiguous(nodes: seq<Node>, x: Node)
      returns (a: seq<Node>, block: seq<Node>, c: seq<Node>)
    requires Named(nodes) && x in Preorder(nodes)
    ensures Preorder(nodes) == a + block + c && block != [] && block[0] == x
    ensures forall y :: y in block <==> y in nodes && Under(ParentsOf(nodes), y.id, x.id)
  {
    RootsAtTop(nodes);
    var e: nat;
    a, e, c := SubtreesSplit(nodes, Roots(nodes), 0, x);
    block := Subtree(nodes, x, e);
    forall y ensures y in block <==> y in nodes && Under(ParentsOf(nodes), y.id, x.id) {
      SubtreeMembers(nodes, x, e, y);
    }
  }

  lemma {:induction false} KidIsBelow(nodes: seq<Node>, parent: Node, kid: Node)
    requires Named(nodes) && parent in nodes && HasDepth(ParentsOf(nodes), parent.id) && kid in nodes && kid.parent == parent.id
    ensures kid != parent && Under(ParentsOf(nodes), kid.id, parent.id)
  {
    var p := ParentsOf(nodes);
    ParentsHas(nodes, kid);
    ParentsHas(nodes, parent);
    assert ClimbsTo(p, kid.id, 1, parent.id);
    var d: nat :| AtDepth(p, parent.id, d);
    KidDepth(nodes, kid, d);
    if kid == parent {
      DepthIsUnique(p, kid.id, d, d + 1);
    }
  }

  /** A block comes after its parent. */
  lemma {:induction false} ParentsFirst(nodes: seq<Node>, parent: Node, kid: Node) returns (a: seq<Node>, b: seq<Node>)
    requires Named(nodes) && parent in Preorder(nodes) && kid in nodes && kid.parent == parent.id
    ensures Preorder(nodes) == a + [parent] + b && kid in b
  {
    PreorderMembers(nodes, parent);
    KidIsBelow(nodes, parent, kid);
    var block, c;
    a, block, c := SubtreesAreContiguous(nodes, parent);
    b := SplitHead(a, block, c, parent, kid);
  }

  lemma SplitHead(a: seq<Node>, block: seq<Node>, c: seq<Node>, head: Node, x: Node) returns (b: seq<Node>)
    requires block != [] && block[0] == head && x in block && x != head
    ensures a + block + c == a + [head] + b && x in b
  {
    b := block[1..] + c;
    assert block == [head] + block[1..];
  }

  /** A filter that the blocks given pass, and nothing deeper does, finds them in order. */
  lemma {:induction false} SubtreesTops(nodes: seq<Node>, some: seq<Node>, d: nat, keep: Node -> bool)
    requires Named(nodes) && AllAtDepth(nodes, some, d)
    requires forall n :: n in some ==> keep(n)
    requires forall n, e: nat :: n in nodes && e > d && AtDepth(ParentsOf(nodes), n.id, e) ==> !keep(n)
    ensures Filter(Subtrees(nodes, some, d), keep) == some
    decreases |some|
  {
    if some != [] {
      SubtreesCons(nodes, some, d);
      SubtreesTops(nodes, some[1..], d, keep);
      SubtreeTop(nodes, some[0], d, keep);
      FilterConcat(Subtree(nodes, some[0], d), Subtrees(nodes, some[1..], d), keep);
    }
  }

  lemma {:induction false} SubtreeTop(nodes: seq<Node>, n: Node, d: nat, keep: Node -> bool)
    requires Named(nodes) && n in nodes && AtDepth(ParentsOf(nodes), n.id, d) && keep(n)
    requires forall n, e: nat :: n in nodes && e > d && AtDepth(ParentsOf(nodes), n.id, e) ==> !keep(n)
    ensures Filter(Subtree(nodes, n, d), keep) == [n]
  {
    KidsBelow(nodes, n, d);
    var kids := Kids(nodes, n.id);
    var rest := Subtrees(nodes, kids, d + 1);
    forall x | x in rest ensures !keep(x) {
      DeeperThan(nodes, kids, d + 1, x);
      SubtreesMembers(nodes, kids, d + 1, x);
    }
    FilterNone(rest, keep);
    FilterConcat([n], rest, keep);
  }

  lemma FilterNone(s: seq<Node>, keep: Node -> bool)
    requires forall x :: x in s ==> !keep(x)
    ensures Filter(s, keep) == []
  {
  }

  /** By parent, then by order, then by identifier. */
  ghost predicate InListingOrder(s: seq<Node>) {
    forall i, j :: 0 <= i < j < |s| ==>
      if s[i].parent != s[j].parent then s[i].parent < s[j].parent
      else if s[i].order != s[j].order then s[i].order < s[j].order
      else s[i].id < s[j].id
  }

  lemma {:induction false} IncreasingIff(s: seq<Node>)
    ensures Increasing(s, ListingKey) <==> InListingOrder(s)
  {
  }

  /** The roots are listed by their keys, and so are the children of every block. */

  lemma {:induction false} RootsInOrder(nodes: seq<Node>)
    requires Named(nodes)
    ensures Filter(Preorder(nodes), (n: Node) => IsRoot(n, IdSet(nodes))) == Roots(nodes)
    ensures Increasing(Roots(nodes), ListingKey)
    ensures InListingOrder(Roots(nodes))
  {
    var keep := (n: Node) => IsRoot(n, IdSet(nodes));
    RootsAtTop(nodes);
    RootsMembers(nodes);
    RootsUnique(nodes);
    ParentsKeys(nodes);
    forall n, e: nat | n in nodes && e > 0 && AtDepth(ParentsOf(nodes), n.id, e) ensures !keep(n) {
      ParentsHas(nodes, n);
    }
    SubtreesTops(nodes, Roots(nodes), 0, keep);
    IncreasingIff(Roots(nodes));
  }

  lemma {:induction false} KidsInOrder(nodes: seq<Node>, parent: Node)
    requires Named(nodes) && parent in Preorder(nodes)
    ensures Filter(Preorder(nodes), (n: Node) => n.parent == parent.id) == Kids(nodes, parent.id)
    ensures Increasing(Kids(nodes, parent.id), ListingKey)
    ensures InListingOrder(Kids(nodes, parent.id))
  {
    var keep := (n: Node) => n.parent == parent.id;
    RootsAtTop(nodes);
    var a, e, c := SubtreesSplit(nodes, Roots(nodes), 0, parent);
    var block := Subtree(nodes, parent, e);
    SubtreeKids(nodes, parent, e);
    PreorderUnique(nodes);
    forall x | x in a + c ensures !keep(x) {
      KeptInBlock(nodes, parent, e, a, block, c, x);
    }
    FilterNone(a, keep);
    FilterNone(c, keep);
    FilterConcat(a + block, c, keep);
    FilterConcat(a, block, keep);
    KidsUnique(nodes, parent.id);
    IncreasingIff(Kids(nodes, parent.id));
  }

  /** A child of `n` is listed in the subtree of `n`, so nowhere else. */
  lemma {:induction false} KeptInBlock(nodes: seq<Node>, n: Node, d: nat, a: seq<Node>, block: seq<Node>, c: seq<Node>, x: Node)
    requires Named(nodes) && n in nodes && AtDepth(ParentsOf(nodes), n.id, d) && block == Subtree(nodes, n, d)
    requires Preorder(nodes) == a + block + c && Unique(a + block + c, NodeId) && x in a + c
    ensures x.parent != n.id
  {
    PreorderMembers(nodes, x);
    if x.parent == n.id {
      ParentsHas(nodes, x);
      ParentsHas(nodes, n);
      assert ClimbsTo(ParentsOf(nodes), x.id, 1, n.id);
      SubtreeMembers(nodes, n, d, x);
      OnlyOnce(a, block, c, x);
    }
  }

  lemma OnlyOnce(a: seq<Node>, block: seq<Node>, c: seq<Node>, x: Node)
    requires Unique(a + block + c, NodeId) && x in block
    ensures x !in a + c
  {
    var s := a + block + c;
    var i :| 0 <= i < |block| && block[i] == x;
    assert s[|a| + i] == x;
    forall y | y in a ensures y.id != x.id {
      var j :| 0 <= j < |a| && a[j] == y;
      assert s[j] == y;
    }
    forall y | y in c ensures y.id != x.id {
      var j :| 0 <= j < |c| && c[j] == y;
      assert s[|a| + |block| + j] == y;
    }
  }

  lemma {:induction false} SubtreeKids(nodes: seq<Node>, n: Node, d: nat)
    requires Named(nodes) && n in nodes && AtDepth(ParentsOf(nodes), n.id, d)
    ensures Filter(Subtree(nodes, n, d), (x: Node) => x.parent == n.id) == Kids(nodes, n.id)
  {
    var keep := (x: Node) => x.parent == n.id;
    KidsBelow(nodes, n, d);
    KidsMembers(nodes, n.id);
    forall x, e: nat | x in nodes && e > d + 1 && AtDepth(ParentsOf(nodes), x.id, e) ensures !keep(x) {
      if keep(x) {
        KidDepth(nodes, x, d);
        DepthIsUnique(ParentsOf(nodes), x.id, e, d + 1);
      }
    }
    SubtreesTops(nodes, Kids(nodes, n.id), d + 1, keep);
    FilterConcat([n], Subtrees(nodes, Kids(nodes, n.id), d + 1), keep);
    if keep(n) {
      KidDepth(nodes, n, d);
      DepthIsUnique(ParentsOf(nodes), n.id, d, d + 1);
    }
  }

  // ----- independence of the input order -----

  /** `b` holds at least what `a` lists, with the same children. */
  ghost predicate SameFamilies(a: seq<Node>, b: seq<Node>) {
    && (forall id, d: nat :: AtDepth(ParentsOf(a), id, d) ==> AtDepth(ParentsOf(b), id, d))
    && (forall id :: HasDepth(ParentsOf(a), id) ==> Kids(a, id) == Kids(b, id))
  }

  lemma {:induction false} SubtreeAgrees(a: seq<Node>, b: seq<Node>, n: Node, d: nat)
    requires Named(a) && Named(b) && SameFamilies(a, b) && n in a && n in b && AtDepth(ParentsOf(a), n.id, d)
    ensures Subtree(a, n, d) == Subtree(b, n, d)
    decreases |ParentsOf(a)| - d, 1, 0
  {
    KidsBelow(a, n, d);
    KidsBelow(b, n, d);
    assert HasDepth(ParentsOf(a), n.id);
    SubtreesAgree(a, b, Kids(a, n.id), d + 1);
  }

  lemma {:induction false} SubtreesAgree(a: seq<Node>, b: seq<Node>, some: seq<Node>, d: nat)
    requires Named(a) && Named(b) && SameFamilies(a, b) && AllAtDepth(a, some, d) && AllAtDepth(b, some, d)
    ensures Subtrees(a, some, d) == Subtrees(b, some, d)
    decreases |ParentsOf(a)| - d, 2, |some|
  {
    if some != [] {
      DepthBound(ParentsOf(a), some[0].id, d);
      SubtreeAgrees(a, b, some[0], d);
      SubtreesAgree(a, b, some[1..], d);
    }
  }

  lemma {:induction false} SameElementsSameSort(a: seq<Node>, b: seq<Node>, keep: Node -> bool)
    requires Unique(a, NodeId) && multiset(a) == multiset(b)
    ensures SortBy(Filter(a, keep), ListingKey) == SortBy(Filter(b, keep), ListingKey)
  {
    FilterPermutation(a, b, keep);
    SortedUnique(a, keep);
    SortedIsUnique(SortBy(Filter(a, keep), ListingKey), SortBy(Filter(b, keep), ListingKey), ListingKey);
  }

  lemma {:induction false} SameElementsSameIds(a: seq<Node>, b: seq<Node>)
    requires Named(a) && multiset(a) == multiset(b)
    ensures Named(b) && IdSet(a) == IdSet(b) && ParentsOf(a) == ParentsOf(b)
  {
    SameMultisetMembers(a, b);
    UniquePermutation(a, b, NodeId);
    forall i | 0 <= i < |b| ensures b[i].id != NONE {
      assert b[i] in a;
    }
    IndexSameElements(a, b, NodeId, ParentOf);
    ParentsKeys(a);
    ParentsKeys(b);
  }

  /** The listing depends only on which nodes there are. */
  lemma {:induction false} PreorderOfPermutation(a: seq<Node>, b: seq<Node>)
    requires Named(a) && multiset(a) == multiset(b)
    ensures Named(b) && Preorder(a) == Preorder(b)
  {
    SameElementsSameIds(a, b);
    forall id | HasDepth(ParentsOf(a), id) ensures Kids(a, id) == Kids(b, id) {
      SameElementsSameSort(a, b, (n: Node) => n.parent == id);
    }
    var ids := IdSet(a);
    SameElementsSameSort(a, b, (n: Node) => IsRoot(n, ids));
    RootsAtTop(a);
    RootsAtTop(b);
    SubtreesAgree(a, b, Roots(a), 0);
  }

  // ----- idempotence -----

  lemma {:induction false} ListedNamed(nodes: seq<Node>)
    requires Named(nodes)
    ensures Named(Preorder(nodes))
  {
    PreorderUnique(nodes);
    var listed := Preorder(nodes);
    forall i | 0 <= i < |listed| ensures listed[i].id != NONE {
      PreorderMembers(nodes, listed[i]);
    }
  }

  /** A listed block has its parent listed, when the parent is among the nodes. */
  lemma {:induction false} ListedParent(nodes: seq<Node>, listed: seq<Node>, x: Node)
    requires Named(nodes) && listed == Preorder(nodes) && x in listed
    ensures x.parent in IdSet(listed) <==> x.parent in IdSet(nodes)
  {
    PreorderMembers(nodes, x);
    if x.parent in IdSet(nodes) {
      var i :| 0 <= i < |nodes| && nodes[i].id == x.parent;
      ParentsHas(nodes, x);
      ParentsHas(nodes, nodes[i]);
      PreorderMembers(nodes, nodes[i]);
      var d: nat :| AtDepth(ParentsOf(nodes), x.id, d);
      assert AtDepth(ParentsOf(nodes), nodes[i].id, d - 1);
      var j :| 0 <= j < |listed| && listed[j] == nodes[i];
      assert listed[j].id == x.parent;
    }
    if x.parent in IdSet(listed) {
      var j :| 0 <= j < |listed| && listed[j].id == x.parent;
      PreorderMembers(nodes, listed[j]);
      var i :| 0 <= i < |nodes| && nodes[i] == listed[j];
      assert nodes[i].id == x.parent;
    }
  }

  /** Two named lists with the same nodes passing a filter sort them alike. */
  lemma {:induction false} SameKeptSameSort(a: seq<Node>, b: seq<Node>, keep: Node -> bool)
    requires Unique(a, NodeId) && Unique(b, NodeId)
    requires forall n :: keep(n) ==> (n in a <==> n in b)
    ensures SortBy(Filter(a, keep), ListingKey) == SortBy(Filter(b, keep), ListingKey)
  {
    FilterUnique(a, NodeId, keep);
    FilterUnique(b, NodeId, keep);
    SameMembersPermutation(Filter(a, keep), Filter(b, keep), NodeId);
    SortedUnique(a, keep);
    SortedIsUnique(SortBy(Filter(a, keep), ListingKey), SortBy(Filter(b, keep), ListingKey), ListingKey);
  }

  lemma {:induction false} ListedDepth(nodes: seq<Node>, listed: seq<Node>, id: BlockID, d: nat)
    requires Named(nodes) && Named(listed) && listed == Preorder(nodes) && AtDepth(ParentsOf(listed), id, d)
    ensures AtDepth(ParentsOf(nodes), id, d)
    decreases d
  {
    ParentsKeys(listed);
    ParentsKeys(nodes);
    var i :| 0 <= i < |listed| && listed[i].id == id;
    assert listed[i] in listed;
    PreorderMembers(nodes, listed[i]);
    ParentsHas(listed, listed[i]);
    ParentsHas(nodes, listed[i]);
    ListedParent(nodes, listed, listed[i]);
    if d > 0 {
      ListedDepth(nodes, listed, listed[i].parent, d - 1);
    }
  }

  lemma {:induction false} ListedKids(nodes: seq<Node>, listed: seq<Node>, id: BlockID)
    requires Named(nodes) && Named(listed) && listed == Preorder(nodes) && HasDepth(ParentsOf(listed), id)
    ensures Kids(listed, id) == Kids(nodes, id)
  {
    var keep := (n: Node) => n.parent == id;
    var d: nat :| AtDepth(ParentsOf(listed), id, d);
    ListedDepth(nodes, listed, id, d);
    forall n | keep(n) ensures n in nodes <==> n in listed {
      PreorderMembers(nodes, n);
      if n in nodes {
        KidDepth(nodes, n, d);
      }
    }
    SameKeptSameSort(listed, nodes, keep);
  }

  lemma {:induction false} ListedRoots(nodes: seq<Node>, listed: seq<Node>)
    requires Named(nodes) && Named(listed) && listed == Preorder(nodes)
    ensures Roots(listed) == Roots(nodes)
  {
    var all, some := IdSet(nodes), IdSet(listed);
    var keep := (n: Node) => IsRoot(n, all);
    var kept := (n: Node) => IsRoot(n, some);
    RootsAtTop(nodes);
    RootsMembers(nodes);
    forall n | keep(n) ensures n in nodes <==> n in listed {
      PreorderMembers(nodes, n);
      if n in nodes {
        var i :| 0 <= i < |Roots(nodes)| && Roots(nodes)[i] == n;
      }
    }
    SameKeptSameSort(listed, nodes, keep);
    forall n | n in listed ensures keep(n) == kept(n) {
      ListedParent(nodes, listed, n);
    }
    FilterAlike(listed, keep, kept);
  }

  lemma {:induction false} FilterAlike(s: seq<Node>, f: Node -> bool, g: Node -> bool)
    requires forall n :: n in s ==> f(n) == g(n)
    ensures Filter(s, f) == Filter(s, g)
  {
    if s != [] {
      assert s[0] in s;
      FilterAlike(s[1..], f, g);
    }
  }

  /** Listing a listing changes nothing, whether or not nodes were cut off. */
  lemma {:induction false} PreorderIdempotent(nodes: seq<Node>)
    requires Named(nodes)
    ensures Named(Preorder(nodes)) && Preorder(Preorder(nodes)) == Preorder(nodes)
  {
    var listed := Preorder(nodes);
    ListedNamed(nodes);
    forall id, d: nat | AtDepth(ParentsOf(listed), id, d) ensures AtDepth(ParentsOf(nodes), id, d) {
      ListedDepth(nodes, listed, id, d);
    }
    forall id | HasDepth(ParentsOf(listed), id) ensures Kids(listed, id) == Kids(nodes, id) {
      ListedKids(nodes, listed, id);
    }
    ListedRoots(nodes, listed);
    RootsAtTop(nodes);
    RootsAtTop(listed);
    SubtreesAgree(listed, nodes, Roots(listed), 0);
  }

  // ----- the canonical nodes -----

  lemma {:induction false} CanonicalNamed(nodes: seq<Node>)
    requires Named(nodes)
    ensures Named(Map(nodes, CanonicalNode)) && ParentsOf(Map(nodes, CanonicalNode)) == ParentsOf(nodes)
  {
    var clones := Map(nodes, CanonicalNode);
    assert forall i :: 0 <= i < |nodes| ==> clones[i].id == nodes[i].id && clones[i].parent == nodes[i].parent;
    IndexPointwise(nodes, clones, NodeId, ParentOf);
  }

  /** What `canonicalNodes` returns. */
  function Canonical(nodes: seq<Node>): seq<Node>
    requires Named(nodes)
  {
    CanonicalNamed(nodes);
    Preorder(Map(nodes, CanonicalNode))
  }

  lemma {:induction false} CanonicalItemStable(i: RelationItem)
    ensures CanonicalItem(CanonicalItem(i)) == CanonicalItem(i)
  {
    SortOfSorted(SortBy(i.shared, EntryKey), EntryKey);
    SortOfSorted(SortBy(i.localized, EntryKey), EntryKey);
  }

  lemma {:induction false} CanonicalRelationStable(r: Relation)
    ensures CanonicalRelation(CanonicalRelation(r)) == CanonicalRelation(r)
  {
    var items := Map(r.items, CanonicalItem);
    var sorted := SortBy(items, ItemKey);
    forall k | 0 <= k < |sorted| ensures CanonicalItem(sorted[k]) == sorted[k] {
      SortElements(items, ItemKey, sorted[k]);
      var j :| 0 <= j < |items| && items[j] == sorted[k];
      CanonicalItemStable(r.items[j]);
    }
    MapIdentity(sorted, CanonicalItem);
    SortOfSorted(sorted, ItemKey);
  }

  lemma {:induction false} CanonicalRelationsStable(relations: seq<Relation>)
    ensures var sorted := SortBy(Map(relations, CanonicalRelation), RelationKey);
            SortBy(Map(sorted, CanonicalRelation), RelationKey) == sorted
  {
    var clones := Map(relations, CanonicalRelation);
    var sorted := SortBy(clones, RelationKey);
    forall k | 0 <= k < |sorted| ensures CanonicalRelation(sorted[k]) == sorted[k] {
      SortElements(clones, RelationKey, sorted[k]);
      var j :| 0 <= j < |clones| && clones[j] == sorted[k];
      CanonicalRelationStable(relations[j]);
    }
    MapIdentity(sorted, CanonicalRelation);
    SortOfSorted(sorted, RelationKey);
  }

  lemma {:induction false} CanonicalNodeStable(n: Node)
    ensures CanonicalNode(CanonicalNode(n)) == CanonicalNode(n)
  {
    SortOfSorted(SortBy(n.shared, EntryKey), EntryKey);
    SortOfSorted(SortBy(n.localized, EntryKey), EntryKey);
    CanonicalRelationsStable(n.relations);
  }

  /** Canonical nodes are their own canonical form. */
  lemma {:induction false} CanonicalIdempotent(nodes: seq<Node>)
    requires Named(nodes)
    ensures Named(Canonical(nodes)) && Canonical(Canonical(nodes)) == Canonical(nodes)
  {
    CanonicalNamed(nodes);
    var clones, listed := Map(nodes, CanonicalNode), Canonical(nodes);
    PreorderIdempotent(clones);
    forall k | 0 <= k < |listed| ensures CanonicalNode(listed[k]) == listed[k] {
      PreorderMembers(clones, listed[k]);
      var j :| 0 <= j < |clones| && clones[j] == listed[k];
      CanonicalNodeStable(nodes[j]);
    }
    MapIdentity(listed, CanonicalNode);
  }

  /** The canonical nodes do not depend on the order the nodes are given in. */
  lemma {:induction false} CanonicalOfPermutation(a: seq<Node>, b: seq<Node>)
    requires Named(a) && multiset(a) == multiset(b)
    ensures Named(b) && Canonical(a) == Canonical(b)
  {
    SameElementsSameIds(a, b);
    CanonicalNamed(a);
    CanonicalNamed(b);
    SameMultisetMembers(a, b);
    MapMembers(a, b, CanonicalNode);
    MapMembers(b, a, CanonicalNode);
    SameMembersPermutation(Map(a, CanonicalNode), Map(b, CanonicalNode), NodeId);
    PreorderOfPermutation(Map(a, CanonicalNode), Map(b, CanonicalNode));
  }

  lemma {:induction false} MapMembers(a: seq<Node>, b: seq<Node>, f: Node -> Node)
    requires forall x :: x in a ==> x in b
    ensures forall y :: y in Map(a, f) ==> y in Map(b, f)
  {
    forall y | y in Map(a, f) ensures y in Map(b, f) {
      var i :| 0 <= i < |a| && Map(a, f)[i] == y;
      assert a[i] in b;
      var j :| 0 <= j < |b| && b[j] == a[i];
      assert Map(b, f)[j] == y;
    }
  }

  /** Every node is in the canonical nodes exactly once if and only if no cycle exists. */
  lemma {:induction false} CanonicalCompleteIff(nodes: seq<Node>)
    requires Named(nodes)
    ensures Unique(Canonical(nodes), NodeId)
    ensures multiset(Canonical(nodes)) == multiset(Map(nodes, CanonicalNode)) <==> Acyclic(ParentsOf(nodes))
  {
    CanonicalNamed(nodes);
    PreorderCompleteIff(Map(nodes, CanonicalNode));
  }

  // ----- cycle detection -----

  /** Blocks whose parents are all among themselves never reach a root. */
  lemma {:induction false} ClosedHasNoDepth(p: Parents, loop: set<BlockID>, id: BlockID, d: nat)
    requires id in loop && forall x :: x in loop ==> x in p && !EndsAt(p, p[x]) && p[x] in loop
    ensures !AtDepth(p, id, d)
    decreases d
  {
    if d > 0 {
      ClosedHasNoDepth(p, loop, p[id], d - 1);
    }
  }

  method DetectParentCycles(nodes: seq<Node>, parents: Parents) returns (ok: bool)
    requires Named(nodes) && parents == ParentsOf(nodes)
    ensures ok <==> Acyclic(parents)
  {
    ParentsKeys(nodes);
    for k := 0 to |nodes|
      invariant forall j :: 0 <= j < k ==> HasDepth(parents, nodes[j].id)
    {
      ok := ReachesRoot(nodes, parents, nodes[k]);
      if !ok {
        return false;
      }
    }
    return true;
  }

  /** The inner walk: up the parents of one node, remembering who was visited. */
  method ReachesRoot(nodes: seq<Node>, parents: Parents, node: Node) returns (ok: bool)
    requires Named(nodes) && parents == ParentsOf(nodes) && node in nodes
    ensures ok <==> HasDepth(parents, node.id)
  {
    ParentsKeys(nodes);
    ParentsHas(nodes, node);
    var visited, parent := {node.id}, node.parent;
    ghost var last, steps: nat := node.id, 0;
    while parent != NONE && parent in parents
      invariant node.id in visited && visited <= parents.Keys
      invariant last in parents && parents[last] == parent && ClimbsTo(parents, node.id, steps, last)
      invariant forall x :: x in visited && x != last ==> !EndsAt(parents, parents[x]) && parents[x] in visited
      decreases parents.Keys - visited
    {
      if parent in visited {
        forall d: nat ensures !AtDepth(parents, node.id, d) {
          ClosedHasNoDepth(parents, visited, node.id, d);
        }
        return false;
      }
      OneMore(parents, node.id, steps, last);
      last, steps := parent, steps + 1;
      visited := visited + {parent};
      parent := parents[parent];
    }
    ClimbDepth(parents, node.id, steps, last, 0);
    return true;
  }

  // ----- the listing loops -----

  function Bucket(children: map<BlockID, seq<Node>>, id: BlockID): seq<Node> {
    if id in children then children[id] else []
  }

  ghost predicate Buckets(nodes: seq<Node>, ids: set<BlockID>, children: map<BlockID, seq<Node>>) {
    forall id :: id in ids && id != NONE ==> Bucket(children, id) == Filter(nodes, (n: Node) => n.parent == id)
  }

  method CanonicalNodes(nodes: seq<Node>) returns (result: seq<Node>)
    requires Named(nodes)
    ensures result == Canonical(nodes)
  {
    var clones, ids := CloneNodes(nodes, CanonicalNode);
    CanonicalNamed(nodes);
    var roots, children := GroupByParent(clones, ids);
    roots := SortBy(roots, ListingKey);
    children := SortBuckets(clones, ids, children);
    RootsAtTop(clones);
    result := AppendSubtrees(clones, children, roots, 0, []);
  }

  /** Every node replaced by its clone, which keeps the identifier. */
  method CloneNodes(nodes: seq<Node>, clone: Node -> Node) returns (clones: seq<Node>, ids: set<BlockID>)
    requires forall n :: clone(n).id == n.id
    ensures clones == Map(nodes, clone) && ids == IdSet(clones)
  {
    clones, ids := nodes, {};
    for k := 0 to |clones|
      invariant |clones| == |nodes|
      invariant forall j :: 0 <= j < |nodes| ==> clones[j] == if j < k then clone(nodes[j]) else nodes[j]
      invariant ids == IdSet(nodes[..k])
    {
      IdSetStep(nodes, k);
      ids := ids + {clones[k].id};
      clones := clones[k := clone(clones[k])];
    }
    assert nodes[..|nodes|] == nodes;
    assert forall j :: 0 <= j < |nodes| ==> clones[j].id == nodes[j].id;
  }

  lemma IdSetStep(nodes: seq<Node>, k: nat)
    requires k < |nodes|
    ensures IdSet(nodes[..k + 1]) == IdSet(nodes[..k]) + {nodes[k].id}
  {
    assert nodes[..k + 1] == nodes[..k] + [nodes[k]];
    forall id | id in IdSet(nodes[..k]) ensures id in IdSet(nodes[..k + 1]) {
      var i :| 0 <= i < k && nodes[..k][i].id == id;
      assert nodes[..k + 1][i].id == id;
    }
    assert nodes[..k + 1][k].id in IdSet(nodes[..k + 1]);
    forall id | id in IdSet(nodes[..k + 1]) && id != nodes[k].id ensures id in IdSet(nodes[..k]) {
      var i :| 0 <= i < k + 1 && nodes[..k + 1][i].id == id;
      assert nodes[..k][i].id == id;
    }
  }

  method GroupByParent(clones: seq<Node>, ids: set<BlockID>) returns (roots: seq<Node>, children: map<BlockID, seq<Node>>)
    ensures roots == Filter(clones, (n: Node) => IsRoot(n, ids))
    ensures Buckets(clones, ids, children)
  {
    ghost var root := (n: Node) => IsRoot(n, ids);
    roots, children := [], map[];
    for k := 0 to |clones|
      invariant roots == Filter(clones[..k], root)
      invariant Buckets(clones[..k], ids, children)
    {
      var node := clones[k];
      ghost var before := children;
      if node.parent == NONE || node.parent !in ids {
        roots := roots + [node];
      } else {
        children := children[node.parent := Bucket(children, node.parent) + [node]];
      }
      FilterStep(clones, k, root);
      forall id | id in ids && id != NONE
        ensures Bucket(children, id) == Filter(clones[..k + 1], (n: Node) => n.parent == id)
      {
        FilterStep(clones, k, (n: Node) => n.parent == id);
        assert Bucket(before, id) == Filter(clones[..k], (n: Node) => n.parent == id);
      }
    }
    assert clones[..|clones|] == clones;
  }

  ghost predicate SortedBuckets(nodes: seq<Node>, children: map<BlockID, seq<Node>>) {
    forall id :: HasDepth(ParentsOf(nodes), id) ==> Bucket(children, id) == Kids(nodes, id)
  }

  method SortBuckets(clones: seq<Node>, ids: set<BlockID>, children: map<BlockID, seq<Node>>) returns (sorted: map<BlockID, seq<Node>>)
    requires Named(clones) && ids == IdSet(clones) && Buckets(clones, ids, children)
    ensures SortedBuckets(clones, sorted)
  {
    sorted := children;
    var pending := children.Keys;
    while pending != {}
      invariant pending <= children.Keys && sorted.Keys == children.Keys
      invariant forall id :: id in children ==>
                  sorted[id] == if id in pending then children[id] else SortBy(children[id], ListingKey)
      decreases pending
    {
      var parent :| parent in pending;
      sorted := sorted[parent := SortBy(sorted[parent], ListingKey)];
      pending := pending - {parent};
    }
    ParentsKeys(clones);
  }

  method AppendSubtrees(clones: seq<Node>, children: map<BlockID, seq<Node>>, some: seq<Node>, ghost d: nat, result: seq<Node>)
      returns (r: seq<Node>)
    requires Named(clones) && SortedBuckets(clones, children) && AllAtDepth(clones, some, d)
    ensures r == result + Subtrees(clones, some, d)
    decreases |ParentsOf(clones)| - d, 2, |some|
  {
    r := result;
    if some != [] {
      SubtreesCons(clones, some, d);
      r := AppendSubtree(clones, children, some[0], d, result);
      r := AppendSubtrees(clones, children, some[1..], d, r);
      Associative(result, Subtree(clones, some[0], d), Subtrees(clones, some[1..], d));
    }
  }

  /** The recursive closure: the node, then each of its children's subtrees. */
  method AppendSubtree(clones: seq<Node>, children: map<BlockID, seq<Node>>, node: Node, ghost d: nat, result: seq<Node>)
      returns (r: seq<Node>)
    requires Named(clones) && SortedBuckets(clones, children)
    requires node in clones && AtDepth(ParentsOf(clones), node.id, d)
    ensures r == result + Subtree(clones, node, d)
    decreases |ParentsOf(clones)| - d, 1, 0
  {
    SubtreeCons(clones, node, d);
    assert HasDepth(ParentsOf(clones), node.id);
    r := AppendSubtrees(clones, children, Bucket(children, node.id), d + 1, result + [node]);
    Associative(result, [node], Subtrees(clones, Kids(clones, node.id), d + 1));
  }
}
