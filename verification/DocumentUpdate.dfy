/** A whole update: the document is listed canonically, the batch is applied, and
    the result is listed canonically again. Neither listing loses, adds or reorders
    anything the batch placed. */
module DocumentUpdate {
  import opened Lists
  import opened Values
  import opened Schemas
  import opened Documents
  import opened BlockGraph
  import opened Validation
  import opened Mutation
  import opened GraphSoundness
  import opened ValueSoundness
  import opened BatchSoundness
  import opened GraphCover
  import opened BatchApplication
  import opened SiblingOrder
  import opened CanonicalOrder
  import opened Editing

  // ----- loaded documents: any order of nodes, relations, items and fields -----

  ghost predicate LoadedRelation(r: Relation) {
    Unique(r.items, ItemId) && ItemsNamed(r.items)
  }

  ghost predicate LoadedNode(n: Node) {
    && n.id != NONE && Unique(n.relations, RelationId)
    && forall i :: 0 <= i < |n.relations| ==> LoadedRelation(n.relations[i])
  }

  ghost predicate LoadedNodes(nodes: seq<Node>) {
    Named(nodes) && forall i :: 0 <= i < |nodes| ==> LoadedNode(nodes[i])
  }

  /** What validation of a document and its catalog establishes. */
  ghost predicate Loaded(tree: Tree) {
    && ValidCatalog(tree.catalog)
    && LoadedNodes(tree.nodes) && NodesFit(tree.nodes, tree.catalog)
    && Forest(GraphOf(tree.nodes)) && ItemsUnique(GraphOf(tree.nodes))
  }

  lemma {:induction false} GoodIsLoaded(nodes: seq<Node>)
    requires GoodNodes(nodes)
    ensures LoadedNodes(nodes)
  {
    forall i | 0 <= i < |nodes| ensures LoadedNode(nodes[i]) {
      assert GoodNode(nodes[i]);
      forall r | 0 <= r < |nodes[i].relations| ensures LoadedRelation(nodes[i].relations[r]) {
        assert GoodRelation(nodes[i].relations[r]);
      }
    }
  }

  // ----- a forest has no cycle to lose nodes to -----

  lemma {:induction false} ClimbIsDepth(nodes: seq<Node>, id: BlockID, k: nat)
    requires Named(nodes) && id in GraphOf(nodes) && Climbs(GraphOf(nodes), id, k, NONE)
    ensures k > 0 && AtDepth(ParentsOf(nodes), id, k - 1)
    decreases k
  {
    var g, p := GraphOf(nodes), ParentsOf(nodes);
    FindIndexed(nodes, NodeId, BlockOf, id);
    FindIndexed(nodes, NodeId, ParentOf, id);
    ParentsKeys(nodes);
    var parent := g[id].parent;
    if k > 1 {
      FindIndexed(nodes, NodeId, BlockOf, parent);
      FindIndexed(nodes, NodeId, ParentOf, parent);
      assert parent in g;
      ClimbIsDepth(nodes, parent, k - 1);
    }
  }

  lemma {:induction false} ForestIsAcyclic(nodes: seq<Node>)
    requires Named(nodes) && Forest(GraphOf(nodes))
    ensures Acyclic(ParentsOf(nodes))
  {
    forall id | id in ParentsOf(nodes) ensures HasDepth(ParentsOf(nodes), id) {
      FindIndexed(nodes, NodeId, BlockOf, id);
      FindIndexed(nodes, NodeId, ParentOf, id);
      var k: nat :| Climbs(GraphOf(nodes), id, k, NONE);
      ClimbIsDepth(nodes, id, k);
    }
  }

  // ----- listing content canonically -----

  lemma {:induction false} SortKeepsFit(values: seq<Entry>, localized: bool, c: Catalog, kind: BlockKind, relation: RelationID, itemKind: ItemKind)
    requires ValuesFit(values, localized, c, kind, relation, itemKind)
    ensures ValuesFit(SortBy(values, EntryKey), localized, c, kind, relation, itemKind)
  {
    var sorted := SortBy(values, EntryKey);
    forall i | 0 <= i < |sorted|
      ensures var rule := RuleOf(c, kind, relation, itemKind, sorted[i].id);
              rule.Some? && FieldFits(sorted[i].value, rule.value) && (localized <==> rule.value.ownership == Locale)
    {
      SortElements(values, EntryKey, sorted[i]);
      var j :| 0 <= j < |values| && values[j] == sorted[i];
    }
  }

  lemma {:induction false} CanonicalItemFits(item: RelationItem, c: Catalog, kind: BlockKind, relation: RelationID)
    requires HolderFits(ItemHolder(item), c, kind, relation, item.kind)
    ensures HolderFits(ItemHolder(CanonicalItem(item)), c, kind, relation, item.kind)
  {
    SortKeepsFit(item.shared, false, c, kind, relation, item.kind);
    SortKeepsFit(item.localized, true, c, kind, relation, item.kind);
  }

  lemma {:induction false} CanonicalRelationGood(r: Relation)
    requires LoadedRelation(r)
    ensures GoodRelation(CanonicalRelation(r)) && ItemsOf(CanonicalRelation(r)) == ItemsOf(r)
  {
    var items := Map(r.items, CanonicalItem);
    assert forall i :: 0 <= i < |items| ==> items[i].id == r.items[i].id && items[i].kind == r.items[i].kind;
    SortedItemsGood(items, SortBy(items, ItemKey));
    IndexPointwise(items, r.items, ItemId, KindOfItem);
  }

  lemma {:induction false} SortedItemsGood(items: seq<RelationItem>, sorted: seq<RelationItem>)
    requires Unique(items, ItemId) && ItemsNamed(items) && multiset(sorted) == multiset(items) && Sorted(sorted, ItemKey)
    ensures Unique(sorted, ItemId) && Increasing(sorted, ItemKey) && ItemsNamed(sorted)
    ensures Index(sorted, ItemId, KindOfItem) == Index(items, ItemId, KindOfItem)
  {
    UniquePermutation(items, sorted, ItemId);
    SortedDistinctIncreasing(sorted, ItemKey, ItemId);
    SameMultisetMembers(sorted, items);
    IndexSameElements(sorted, items, ItemId, KindOfItem);
    forall i | 0 <= i < |sorted| ensures sorted[i].id != NONE {
      assert sorted[i] in items;
    }
  }

  lemma {:induction false} CanonicalRelationFits(r: Relation, c: Catalog, kind: BlockKind)
    requires RelationFits(r.items, c, kind, r.id)
    ensures RelationFits(CanonicalRelation(r).items, c, kind, r.id)
  {
    var items := Map(r.items, CanonicalItem);
    var sorted := SortBy(items, ItemKey);
    forall k | 0 <= k < |sorted| ensures HolderFits(ItemHolder(sorted[k]), c, kind, r.id, sorted[k].kind) {
      SortElements(items, ItemKey, sorted[k]);
      var j :| 0 <= j < |items| && items[j] == sorted[k];
      CanonicalItemFits(r.items[j], c, kind, r.id);
    }
  }

  lemma {:induction false} CanonicalRelationsGood(relations: seq<Relation>)
    requires Unique(relations, RelationId) && forall i :: 0 <= i < |relations| ==> LoadedRelation(relations[i])
    ensures var sorted := SortBy(Map(relations, CanonicalRelation), RelationKey);
            Unique(sorted, RelationId) && (forall i :: 0 <= i < |sorted| ==> GoodRelation(sorted[i])) &&
            Index(sorted, RelationId, ItemsOf) == Index(relations, RelationId, ItemsOf)
  {
    var clones := Map(relations, CanonicalRelation);
    var sorted := SortBy(clones, RelationKey);
    forall i | 0 <= i < |relations|
      ensures clones[i].id == relations[i].id && GoodRelation(clones[i]) && ItemsOf(clones[i]) == ItemsOf(relations[i])
    {
      CanonicalRelationGood(relations[i]);
    }
    UniquePermutation(clones, sorted, RelationId);
    forall x ensures x in sorted <==> x in clones {
      SortElements(clones, RelationKey, x);
    }
    IndexSameElements(sorted, clones, RelationId, ItemsOf);
    IndexPointwise(clones, relations, RelationId, ItemsOf);
    forall i | 0 <= i < |sorted| ensures GoodRelation(sorted[i]) {
      assert sorted[i] in clones;
    }
  }

  lemma {:induction false} CanonicalNodeGood(n: Node)
    requires LoadedNode(n)
    ensures GoodNode(CanonicalNode(n)) && BlockOf(CanonicalNode(n)) == BlockOf(n)
  {
    CanonicalRelationsGood(n.relations);
  }

  lemma {:induction false} CanonicalNodeFits(n: Node, c: Catalog)
    requires NodeFits(n, c)
    ensures NodeFits(CanonicalNode(n), c)
  {
    SortKeepsFit(n.shared, false, c, n.kind, NONE, NONE);
    SortKeepsFit(n.localized, true, c, n.kind, NONE, NONE);
    var clones := Map(n.relations, CanonicalRelation);
    CanonicalRelationsFit(n, clones, SortBy(clones, RelationKey), c);
    FitsByParts(CanonicalNode(n), c);
  }

  ghost predicate RelationsFit(kind: BlockKind, relations: seq<Relation>, c: Catalog) {
    forall r :: 0 <= r < |relations| ==> relations[r].id != NONE && RelationFits(relations[r].items, c, kind, relations[r].id)
  }

  lemma {:induction false} FitsByParts(n: Node, c: Catalog)
    requires ValuesFit(n.shared, false, c, n.kind, NONE, NONE) && ValuesFit(n.localized, true, c, n.kind, NONE, NONE)
    requires RelationsFit(n.kind, n.relations, c)
    ensures NodeFits(n, c)
  {
  }

  lemma {:induction false} CanonicalRelationsFit(n: Node, clones: seq<Relation>, sorted: seq<Relation>, c: Catalog)
    requires NodeFits(n, c) && clones == Map(n.relations, CanonicalRelation) && multiset(sorted) == multiset(clones)
    ensures RelationsFit(n.kind, sorted, c)
  {
    SameMultisetMembers(sorted, clones);
    forall r | 0 <= r < |sorted| ensures sorted[r].id != NONE && RelationFits(sorted[r].items, c, n.kind, sorted[r].id) {
      assert sorted[r] in clones;
      var j :| 0 <= j < |clones| && clones[j] == sorted[r];
      CanonicalRelationFits(n.relations[j], c, n.kind);
    }
  }

  /** The final sort never undoes a placement: items already in order stay where they are. */
  lemma {:induction false} CanonicalKeepsItemOrder(r: Relation)
    requires GoodRelation(r)
    ensures CanonicalRelation(r).items == Map(r.items, CanonicalItem)
  {
    var items := Map(r.items, CanonicalItem);
    assert forall i :: 0 <= i < |items| ==> ItemKey(items[i]) == ItemKey(r.items[i]);
    SortOfSorted(items, ItemKey);
  }

  // ----- listing the document canonically -----

  /** The clones of the nodes, before they are put in pre-order. */
  lemma {:induction false} ClonesGood(nodes: seq<Node>, clones: seq<Node>)
    requires LoadedNodes(nodes) && clones == Map(nodes, CanonicalNode)
    ensures GoodNodes(clones) && GraphOf(clones) == GraphOf(nodes)
  {
    forall i | 0 <= i < |clones| ensures CloneGood(nodes[i], clones[i]) {
      CanonicalNodeGood(nodes[i]);
    }
    PointwiseGood(nodes, clones);
  }

  ghost predicate CloneGood(n: Node, m: Node) {
    m.id == n.id && GoodNode(m) && BlockOf(m) == BlockOf(n)
  }

  lemma {:induction false} PointwiseGood(nodes: seq<Node>, clones: seq<Node>)
    requires Named(nodes) && |clones| == |nodes| && forall i :: 0 <= i < |nodes| ==> CloneGood(nodes[i], clones[i])
    ensures GoodNodes(clones) && GraphOf(clones) == GraphOf(nodes)
  {
    IndexPointwise(clones, nodes, NodeId, BlockOf);
  }

  /** The canonical listing of loaded nodes that are a forest: the same graph, and
      every node. */
  lemma {:induction false} ListingKeeps(nodes: seq<Node>)
    requires LoadedNodes(nodes) && Forest(GraphOf(nodes))
    ensures GoodNodes(Canonical(nodes)) && GraphOf(Canonical(nodes)) == GraphOf(nodes)
    ensures multiset(Canonical(nodes)) == multiset(Map(nodes, CanonicalNode))
  {
    ForestIsAcyclic(nodes);
    CanonicalCompleteIff(nodes);
    ClonesGood(nodes, Map(nodes, CanonicalNode));
    PermutedGood(Map(nodes, CanonicalNode), Canonical(nodes));
  }

  lemma {:induction false} ListingFits(nodes: seq<Node>, c: Catalog)
    requires Named(nodes) && NodesFit(nodes, c) && multiset(Canonical(nodes)) == multiset(Map(nodes, CanonicalNode))
    ensures NodesFit(Canonical(nodes), c)
  {
    var clones, listed := Map(nodes, CanonicalNode), Canonical(nodes);
    SameMultisetMembers(listed, clones);
    forall i | 0 <= i < |listed| ensures NodeFits(listed[i], c) {
      assert listed[i] in clones;
      var j :| 0 <= j < |clones| && clones[j] == listed[i];
      CanonicalNodeFits(nodes[j], c);
    }
  }

  /** Opening a document gives the canonical one with the same graph and values. */
  lemma {:induction false} OpenedKeeps(tree: Tree)
    requires Loaded(tree)
    ensures Loaded(Opened(tree)) && GoodNodes(Opened(tree).nodes) && GraphOf(Opened(tree).nodes) == GraphOf(tree.nodes)
    ensures multiset(Opened(tree).nodes) == multiset(Map(tree.nodes, CanonicalNode))
  {
    ListingKeeps(tree.nodes);
    ListingFits(tree.nodes, tree.catalog);
    GoodIsLoaded(Opened(tree).nodes);
  }

  lemma {:induction false} ClonesOrder(nodes: seq<Node>, clones: seq<Node>, q: BlockID)
    requires Named(nodes) && clones == Map(nodes, CanonicalNode)
    ensures ChildOrder(clones, q) == ChildOrder(nodes, q)
  {
    CanonicalNamed(nodes);
    SameShapeOrder(clones, nodes, q);
  }

  lemma {:induction false} ListingOrder(nodes: seq<Node>, q: BlockID)
    requires LoadedNodes(nodes) && Forest(GraphOf(nodes))
    ensures ChildOrder(Canonical(nodes), q) == ChildOrder(nodes, q)
  {
    ListingKeeps(nodes);
    var clones := Map(nodes, CanonicalNode);
    ClonesGood(nodes, clones);
    SameMultisetMembers(Canonical(nodes), clones);
    ChildOrderSameNodes(Canonical(nodes), clones, q);
    ClonesOrder(nodes, clones, q);
  }

  // ----- the listing shows the sibling order -----

  lemma {:induction false} KidsAreSiblings(nodes: seq<Node>, q: BlockID)
    requires Unique(nodes, NodeId) && forall i :: 0 <= i < |nodes| ==> nodes[i].id != NONE
    ensures Kids(nodes, q) == Siblings(nodes, q, NONE)
  {
    var kid := (n: Node) => n.parent == q;
    var sibling := (n: Node) => IsSibling(n, q, NONE);
    FilterAlike(nodes, kid, sibling);
    var kept := Filter(nodes, kid);
    var kids, siblings := SortBy(kept, ListingKey), SortBy(kept, SiblingKey);
    KidsUnique(nodes, q);
    forall i, j | 0 <= i < j < |siblings| ensures !Less(ListingKey(siblings[j]), ListingKey(siblings[i])) {
      SortElements(kept, SiblingKey, siblings[i]);
      SortElements(kept, SiblingKey, siblings[j]);
      assert siblings[i] in kept && siblings[j] in kept;
    }
    SortedIsUnique(kids, siblings, ListingKey);
  }

  /** The blocks of a parent, as the listing shows them from top to bottom. */
  function ListedChildren(nodes: seq<Node>, q: BlockID): seq<BlockID> {
    Ids(Filter(nodes, (n: Node) => n.parent == q))
  }

  lemma {:induction false} ListingShowsOrder(nodes: seq<Node>, q: BlockID)
    requires LoadedNodes(nodes) && Forest(GraphOf(nodes)) && (q == NONE || q in GraphOf(nodes))
    ensures ListedChildren(Canonical(nodes), q) == ChildOrder(nodes, q)
  {
    ListingKeeps(nodes);
    CanonicalNamed(nodes);
    var clones := Map(nodes, CanonicalNode);
    ClonesGood(nodes, clones);
    if q == NONE {
      ClonesShowRoots(clones, Canonical(nodes));
    } else {
      ClonesShowOrder(clones, Canonical(nodes), q);
    }
    ClonesOrder(nodes, clones, q);
  }

  /** In a forest the roots are the blocks without a parent. */
  lemma {:induction false} ForestRoot(nodes: seq<Node>, n: Node)
    requires Named(nodes) && Forest(GraphOf(nodes)) && n in nodes
    ensures IsRoot(n, IdSet(nodes)) <==> n.parent == NONE
  {
    var g := GraphOf(nodes);
    var i :| 0 <= i < |nodes| && nodes[i] == n;
    IndexHas(nodes, NodeId, BlockOf, i);
    if n.parent != NONE {
      var k: nat :| Climbs(g, n.id, k, NONE);
      assert g[n.id].parent == n.parent && Climbs(g, n.parent, k - 1, NONE);
      GraphHas(nodes, n.parent);
      assert nodes[Find(nodes, NodeId, n.parent)].id in IdSet(nodes);
    }
  }

  lemma {:induction false} ClonesShowRoots(clones: seq<Node>, listed: seq<Node>)
    requires Named(clones) && Forest(GraphOf(clones)) && listed == Preorder(clones) && multiset(listed) == multiset(clones)
    ensures ListedChildren(listed, NONE) == ChildOrder(clones, NONE)
  {
    SameMultisetMembers(listed, clones);
    var root := (n: Node) => IsRoot(n, IdSet(clones));
    var top := (n: Node) => n.parent == NONE;
    forall n | n in clones ensures root(n) == top(n) {
      ForestRoot(clones, n);
    }
    FilterAlike(listed, root, top);
    FilterAlike(clones, root, top);
    RootsInOrder(clones);
    KidsAreSiblings(clones, NONE);
  }

  lemma {:induction false} ClonesShowOrder(clones: seq<Node>, listed: seq<Node>, q: BlockID)
    requires Named(clones) && listed == Preorder(clones) && multiset(listed) == multiset(clones) && q in GraphOf(clones)
    ensures ListedChildren(listed, q) == ChildOrder(clones, q)
  {
    SameMultisetMembers(listed, clones);
    GraphHas(clones, q);
    var parent := clones[Find(clones, NodeId, q)];
    assert parent in listed;
    KidsInOrder(clones, parent);
    KidsAreSiblings(clones, q);
  }

  // ----- the theorems -----

  lemma {:induction false} AgreesCovers(g: Graph)
    ensures Covers(g, g)
  {
  }

  /** Blocks and parents of the tree are the graph's, so a forest in one is one in the other. */
  lemma {:induction false} CoveredForest(g: Graph, h: Graph)
    requires Covers(g, h) && Forest(h)
    ensures Forest(g)
  {
    ForestSameParents(h, g);
  }

  /** Any accepted batch on any loaded document, as far as blocks go: if it applies, the
      result has the blocks, kinds and parents that validation ended with, and lists
      the children of every block, and the blocks at the top, as the list model has
      them. */
  lemma {:induction false} UpdateOrder(document: Tree, v: Validator, ops: seq<Operation>, q: BlockID)
    requires LoadedNodes(document.nodes) && Forest(GraphOf(document.nodes)) && Agrees(document, v) && AcceptedAll(v, ops)
    requires AppliedAll(Opened(document), ops).Some?
    ensures var last := AppliedAll(Opened(document), ops).value;
            && GoodNodes(last.nodes) && Covers(GraphOf(Opened(last).nodes), AcceptedThrough(v, ops).graph)
            && (q == NONE || q in AcceptedThrough(v, ops).graph ==>
                  ListedChildren(Opened(last).nodes, q) == ListRun(ChildOrder(document.nodes, q), v, ops, q))
  {
    ListingKeeps(document.nodes);
    AgreesCovers(v.graph);
    var first := Opened(document);
    BatchCovered(first, v, ops);
    BatchOrder(first, v, ops, q);
    ListingOrder(document.nodes, q);
    var last := AppliedAll(first, ops).value;
    AcceptedThroughKeeps(v, ops);
    CoveredForest(GraphOf(last.nodes), AcceptedThrough(v, ops).graph);
    GoodIsLoaded(last.nodes);
    ListingKeeps(last.nodes);
    if q == NONE || q in AcceptedThrough(v, ops).graph {
      ListingShowsOrder(last.nodes, q);
    }
  }

  /** If no kind of a block holding relations is replaced, the graph of the result is
      exactly the one validation ended with. */
  lemma {:induction false} UpdateAgrees(document: Tree, v: Validator, ops: seq<Operation>)
    requires LoadedNodes(document.nodes) && Forest(GraphOf(document.nodes)) && Agrees(document, v) && AcceptedAll(v, ops)
    requires NeverDrops(v, ops) && AppliedAll(Opened(document), ops).Some?
    ensures GoodNodes(AppliedAll(Opened(document), ops).value.nodes)
    ensures Agrees(AppliedAll(Opened(document), ops).value, AcceptedThrough(v, ops))
    ensures Agrees(Opened(AppliedAll(Opened(document), ops).value), AcceptedThrough(v, ops))
  {
    ListingKeeps(document.nodes);
    BatchAgrees(Opened(document), v, ops);
    AcceptedThroughKeeps(v, ops);
    var last := AppliedAll(Opened(document), ops).value;
    GoodIsLoaded(last.nodes);
    ListingKeeps(last.nodes);
  }

  /** If moved items fit where they land, an accepted batch applies exactly when what it
      addresses is in the tree at its turn, and then every stored value still fits its
      rule. */
  lemma {:induction false} UpdateFits(document: Tree, v: Validator, ops: seq<Operation>)
    requires Loaded(document) && Agrees(document, v) && AcceptedAll(v, ops) && AlwaysLandsFit(Opened(document), ops)
    ensures AppliedAll(Opened(document), ops).Some? <==> AlwaysInTree(Opened(document), ops)
    ensures AppliedAll(Opened(document), ops).Some? ==>
              GoodNodes(AppliedAll(Opened(document), ops).value.nodes) &&
              NodesFit(Opened(AppliedAll(Opened(document), ops).value).nodes, document.catalog)
  {
    OpenedKeeps(document);
    AgreesCovers(v.graph);
    var first := Opened(document);
    BatchAppliesIff(first, v, ops);
    if AppliedAll(first, ops).Some? {
      BatchFits(first, v, ops);
      BatchCovered(first, v, ops);
      AcceptedThroughKeeps(v, ops);
      var last := AppliedAll(first, ops).value;
      CoveredForest(GraphOf(last.nodes), AcceptedThrough(v, ops).graph);
      GoodIsLoaded(last.nodes);
      ListingKeeps(last.nodes);
      ListingFits(last.nodes, document.catalog);
    }
  }

  lemma {:induction false} AppliedKeepsCatalog(tree: Tree, ops: seq<Operation>)
    requires AppliedAll(tree, ops).Some?
    ensures AppliedAll(tree, ops).value.catalog == tree.catalog
    decreases |ops|
  {
    if ops != [] {
      AppliedKeepsCatalog(Applied(tree, ops[0]).value, ops[1..]);
    }
  }

  /** Under both conditions an accepted batch succeeds on any loaded document, and its
      result is a loaded document again. */
  lemma {:induction false} UpdateSound(document: Tree, v: Validator, ops: seq<Operation>)
    requires Loaded(document) && Agrees(document, v) && AcceptedAll(v, ops)
    requires NeverDrops(v, ops) && AlwaysLandsFit(Opened(document), ops)
    ensures AppliedAll(Opened(document), ops).Some?
    ensures var last := AppliedAll(Opened(document), ops).value;
            GoodNodes(last.nodes) && Loaded(Opened(last)) && Agrees(Opened(last), AcceptedThrough(v, ops))
  {
    OpenedKeeps(document);
    AgreeingBatchApplies(Opened(document), v, ops);
    UpdateAgrees(document, v, ops);
    UpdateFits(document, v, ops);
    AppliedKeepsCatalog(Opened(document), ops);
    AcceptedThroughKeeps(v, ops);
    ResultLoaded(AppliedAll(Opened(document), ops).value, AcceptedThrough(v, ops).graph);
  }

  lemma {:induction false} ResultLoaded(last: Tree, g: Graph)
    requires ValidCatalog(last.catalog) && GoodNodes(last.nodes) && GraphOf(Opened(last).nodes) == g
    requires Forest(g) && ItemsUnique(g) && NodesFit(Opened(last).nodes, last.catalog)
    requires Covers(GraphOf(last.nodes), g)
    ensures Loaded(Opened(last))
  {
    CoveredForest(GraphOf(last.nodes), g);
    GoodIsLoaded(last.nodes);
    ListingKeeps(last.nodes);
    GoodIsLoaded(Opened(last).nodes);
  }
}
