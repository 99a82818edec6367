/** The canonical listing keeps what the document says: every block and item is there
    with its kind, place, values and files, and everything reads as before. */
module CanonicalContent {
  import opened Lists
  import opened Values
  import opened Schemas
  import opened Documents
  import opened BlockGraph
  import opened Validation
  import opened Mutation
  import opened GraphSoundness
  import opened BatchSoundness
  import opened GraphCover
  import opened LocaleAuthority
  import opened SiblingOrder
  import opened CanonicalOrder
  import opened Editing
  import opened DocumentUpdate
  import opened DocumentReads
  import opened StructureReads

  // ----- finding in a sorted list -----

  lemma {:induction false} InsertFinds(x: Entry, s: seq<Entry>, id: nat)
    ensures var r := Insert(x, s, EntryKey);
            var i, j := Find(r, EntryId, id), Find(s, EntryId, id);
            if x.id == id then i < |r| && r[i] == x
            else if j == |s| then i == |r| else i < |r| && r[i] == s[j]
  {
    if s != [] && Less(EntryKey(s[0]), EntryKey(x)) {
      InsertFinds(x, s[1..], id);
      var rest := Insert(x, s[1..], EntryKey);
      assert ([s[0]] + rest)[1..] == rest;
    } else {
      assert ([x] + s)[1..] == s;
    }
  }

  /** Sorting by name keeps the entry that each name finds. */
  lemma {:induction false} SortFinds(s: seq<Entry>, id: nat)
    ensures var r := SortBy(s, EntryKey);
            var i, j := Find(r, EntryId, id), Find(s, EntryId, id);
            if j == |s| then i == |r| else i < |r| && r[i] == s[j]
  {
    if s != [] {
      SortFinds(s[1..], id);
      InsertFinds(s[0], SortBy(s[1..], EntryKey), id);
    }
  }

  lemma {:induction false} SortReads(s: seq<Entry>, field: FieldID, path: seq<Segment>)
    ensures ReadEntries(SortBy(s, EntryKey), field, path) == ReadEntries(s, field, path)
  {
    SortFinds(s, field);
  }

  /** Named elements are found in any order of them. */
  lemma {:induction false} FindInPermutation<T>(a: seq<T>, b: seq<T>, id: T -> nat, k: nat)
    requires Unique(a, id) && multiset(a) == multiset(b)
    ensures var i, j := Find(a, id, k), Find(b, id, k);
            if i == |a| then j == |b| else i < |a| && j < |b| && b[j] == a[i]
  {
    SameMultisetMembers(a, b);
    var i, j := Find(a, id, k), Find(b, id, k);
    if j < |b| {
      assert b[j] in a;
      var p :| 0 <= p < |a| && a[p] == b[j];
      assert i < |a|;
    }
    if i < |a| {
      assert a[i] in b;
      var p :| 0 <= p < |b| && b[p] == a[i];
      assert j < |b|;
    }
  }

  // ----- one block -----

  /** The same entries and files, with the entries in the order of their names. */
  ghost predicate Arranged(before: Holder, after: Holder) {
    && multiset(after.shared) == multiset(before.shared) && multiset(after.localized) == multiset(before.localized)
    && (forall i, j :: 0 <= i < j < |after.shared| ==> after.shared[i].id <= after.shared[j].id)
    && (forall i, j :: 0 <= i < j < |after.localized| ==> after.localized[i].id <= after.localized[j].id)
    && after.files == before.files
  }

  /** Both holders read alike everywhere. */
  ghost predicate ReadsAlike(a: Holder, b: Holder) {
    && (forall localized, field, path :: ReadHolder(b, localized, field, path) == ReadHolder(a, localized, field, path))
    && b.files == a.files
  }

  lemma {:induction false} SortedHolder(before: Holder, after: Holder)
    requires after == Holder(SortBy(before.shared, EntryKey), SortBy(before.localized, EntryKey), before.files)
    ensures Arranged(before, after) && ReadsAlike(before, after)
  {
    forall localized, field, path ensures ReadHolder(after, localized, field, path) == ReadHolder(before, localized, field, path) {
      SortReads(if localized then before.localized else before.shared, field, path);
    }
    forall i, j | 0 <= i < j < |after.shared| ensures after.shared[i].id <= after.shared[j].id {
      assert !Less(EntryKey(after.shared[j]), EntryKey(after.shared[i]));
    }
    forall i, j | 0 <= i < j < |after.localized| ensures after.localized[i].id <= after.localized[j].id {
      assert !Less(EntryKey(after.localized[j]), EntryKey(after.localized[i]));
    }
  }

  /** The same kind, the same entries and files in order, the same reads. */
  ghost predicate KeepsContent(before: Option<Content>, after: Option<Content>) {
    after.Some? == before.Some? &&
    (before.Some? ==>
       after.value.kind == before.value.kind && Arranged(before.value.holder, after.value.holder)
       && ReadsAlike(before.value.holder, after.value.holder))
  }

  lemma {:induction false} ItemKeepsContent(items: seq<RelationItem>, id: ItemID)
    requires Unique(items, ItemId)
    ensures KeepsContent(ItemIn(items, id), ItemIn(SortBy(Map(items, CanonicalItem), ItemKey), id))
  {
    var clones := Map(items, CanonicalItem);
    FindSameIds(clones, items, ItemId, id);
    FindInPermutation(clones, SortBy(clones, ItemKey), ItemId, id);
    var k := Find(items, ItemId, id);
    if k < |items| {
      SortedHolder(ItemHolder(items[k]), ItemHolder(clones[k]));
    }
  }

  lemma {:induction false} RelationsKeepContent(relations: seq<Relation>, relation: RelationID)
    requires Unique(relations, RelationId)
    ensures var sorted := SortBy(Map(relations, CanonicalRelation), RelationKey);
            var r, k := Find(relations, RelationId, relation), Find(sorted, RelationId, relation);
            if r == |relations| then k == |sorted| else k < |sorted| && sorted[k] == CanonicalRelation(relations[r])
  {
    var clones := Map(relations, CanonicalRelation);
    FindSameIds(clones, relations, RelationId, relation);
    FindInPermutation(clones, SortBy(clones, RelationKey), RelationId, relation);
  }

  lemma {:induction false} NodeKeepsContent(n: Node, place: Place)
    requires LoadedNode(n)
    ensures KeepsContent(ContentIn(n, place), ContentIn(CanonicalNode(n), place))
  {
    if place.relation == NONE && place.item == NONE {
      SortedHolder(BlockHolder(n), BlockHolder(CanonicalNode(n)));
    } else {
      RelationsKeepContent(n.relations, place.relation);
      var r := Find(n.relations, RelationId, place.relation);
      if r < |n.relations| {
        assert LoadedRelation(n.relations[r]);
        ItemKeepsContent(n.relations[r].items, place.item);
      }
    }
  }

  // ----- the document -----

  lemma {:induction false} ClonesKeepContent(nodes: seq<Node>, listed: seq<Node>, place: Place)
    requires LoadedNodes(nodes) && multiset(listed) == multiset(Map(nodes, CanonicalNode))
    ensures KeepsContent(ContentAt(nodes, place), ContentAt(listed, place))
  {
    var clones := Map(nodes, CanonicalNode);
    FindSameIds(clones, nodes, NodeId, place.block);
    FindInPermutation(clones, listed, NodeId, place.block);
    var i := Find(nodes, NodeId, place.block);
    if i < |nodes| {
      assert LoadedNode(nodes[i]);
      NodeKeepsContent(nodes[i], place);
    }
  }

  /** Listing a loaded document keeps every block and item, with its kind, its entries
      and its files; entries are listed in the order of their names. */
  lemma {:induction false} CanonicalKeepsContent(nodes: seq<Node>, place: Place)
    requires LoadedNodes(nodes) && Forest(GraphOf(nodes))
    ensures KeepsContent(ContentAt(nodes, place), ContentAt(Canonical(nodes), place))
  {
    ListingKeeps(nodes);
    ClonesKeepContent(nodes, Canonical(nodes), place);
  }

  /** Every value and file reads the same before and after the listing. */
  lemma {:induction false} CanonicalReads(nodes: seq<Node>, place: Place, localized: bool, field: FieldID, path: seq<Segment>)
    requires LoadedNodes(nodes) && Forest(GraphOf(nodes))
    ensures ReadAt(Canonical(nodes), place, localized, field, path) == ReadAt(nodes, place, localized, field, path)
    ensures FileAt(Canonical(nodes), place, field, path) == FileAt(nodes, place, field, path)
  {
    CanonicalKeepsContent(nodes, place);
    ContentIsRead(nodes, place);
    ContentIsRead(Canonical(nodes), place);
  }

  // ----- where things are -----

  /** A block's identifier, kind, parent and order number. */
  function Frame(n: Node): (BlockID, BlockKind, BlockID, int) { (n.id, n.kind, n.parent, n.order) }

  /** An item's identifier, kind and order number. */
  function ItemFrame(i: RelationItem): (ItemID, ItemKind, int) { (i.id, i.kind, i.order) }

  lemma {:induction false} TakeAt<T>(s: seq<T>, k: nat)
    requires k < |s|
    ensures multiset(s) == multiset{s[k]} + multiset(s[..k] + s[k + 1..])
  {
    assert s == s[..k] + [s[k]] + s[k + 1..];
  }

  lemma {:induction false} MapTake<T, U>(s: seq<T>, k: nat, f: T -> U)
    requires k < |s|
    ensures multiset(Map(s, f)) == multiset{f(s[k])} + multiset(Map(s[..k] + s[k + 1..], f))
  {
    var m, rest := Map(s, f), s[..k] + s[k + 1..];
    TakeAt(m, k);
    assert Map(rest, f) == m[..k] + m[k + 1..];
  }

  lemma TakeOne<T>(a: seq<T>, b: seq<T>) returns (k: nat)
    requires multiset(a) == multiset(b) && a != []
    ensures k < |b| && b[k] == a[0]
    ensures multiset(a[1..]) == multiset(b[..k] + b[k + 1..])
  {
    assert a[0] in multiset(b);
    k :| 0 <= k < |b| && b[k] == a[0];
    TakeAt(b, k);
    TakeAt(a, 0);
    assert a[..0] + a[1..] == a[1..];
    SameRest(multiset{a[0]}, multiset(a[1..]), multiset(b[..k] + b[k + 1..]));
  }

  lemma SameRest<T>(x: multiset<T>, a: multiset<T>, b: multiset<T>)
    requires x + a == x + b
    ensures a == b
  {
    assert (x + a) - x == a && (x + b) - x == b;
  }

  lemma {:induction false} MapMultiset<T, U>(a: seq<T>, b: seq<T>, f: T -> U)
    requires multiset(a) == multiset(b)
    ensures multiset(Map(a, f)) == multiset(Map(b, f))
    decreases |a|
  {
    if a == [] {
      assert |multiset(b)| == |b|;
    } else {
      var k := TakeOne(a, b);
      var rest := b[..k] + b[k + 1..];
      MapMultiset(a[1..], rest, f);
      MapTake(b, k, f);
      MapHead(a, f);
    }
  }

  lemma MapHead<T, U>(a: seq<T>, f: T -> U)
    requires a != []
    ensures multiset(Map(a, f)) == multiset{f(a[0])} + multiset(Map(a[1..], f))
  {
    assert Map(a, f) == [f(a[0])] + Map(a[1..], f);
  }

  lemma {:induction false} RelationKeepsFrames(r: Relation)
    ensures CanonicalRelation(r).id == r.id
    ensures multiset(Map(CanonicalRelation(r).items, ItemFrame)) == multiset(Map(r.items, ItemFrame))
  {
    var clones := Map(r.items, CanonicalItem);
    MapMultiset(CanonicalRelation(r).items, clones, ItemFrame);
    assert Map(clones, ItemFrame) == Map(r.items, ItemFrame);
  }

  /** Listing keeps every block's kind, parent and order number, and every relation's
      items with their kinds and order numbers, listed in that order. */
  lemma {:induction false} CanonicalKeepsFrames(nodes: seq<Node>, block: BlockID, relation: RelationID)
    requires LoadedNodes(nodes) && Forest(GraphOf(nodes))
    ensures multiset(Map(Canonical(nodes), Frame)) == multiset(Map(nodes, Frame))
    ensures var before, after := ItemsAt(nodes, block, relation), ItemsAt(Canonical(nodes), block, relation);
            && multiset(Map(after, ItemFrame)) == multiset(Map(before, ItemFrame))
            && forall i, j :: 0 <= i < j < |after| ==>
                 after[i].order < after[j].order || (after[i].order == after[j].order && after[i].id < after[j].id)
  {
    ListingKeeps(nodes);
    var clones := Map(nodes, CanonicalNode);
    MapMultiset(Canonical(nodes), clones, Frame);
    assert Map(clones, Frame) == Map(nodes, Frame);
    ItemsKeepFrames(nodes, Canonical(nodes), block, relation);
  }

  lemma {:induction false} ItemsKeepFrames(nodes: seq<Node>, listed: seq<Node>, block: BlockID, relation: RelationID)
    requires LoadedNodes(nodes) && multiset(listed) == multiset(Map(nodes, CanonicalNode))
    ensures var before, after := ItemsAt(nodes, block, relation), ItemsAt(listed, block, relation);
            multiset(Map(after, ItemFrame)) == multiset(Map(before, ItemFrame)) && Increasing(after, ItemKey)
  {
    var clones := Map(nodes, CanonicalNode);
    FindSameIds(clones, nodes, NodeId, block);
    FindInPermutation(clones, listed, NodeId, block);
    var i := Find(nodes, NodeId, block);
    if i < |nodes| {
      assert LoadedNode(nodes[i]);
      var n := nodes[i];
      RelationsKeepContent(n.relations, relation);
      var r := Find(n.relations, RelationId, relation);
      if r < |n.relations| {
        RelationKeepsFrames(n.relations[r]);
        CanonicalRelationGood(n.relations[r]);
      }
    }
  }

  lemma {:induction false} RelationsInOrder(relations: seq<Relation>)
    ensures var sorted := SortBy(relations, RelationKey);
            forall i, j :: 0 <= i < j < |sorted| ==> sorted[i].id <= sorted[j].id
  {
    var sorted := SortBy(relations, RelationKey);
    forall i, j | 0 <= i < j < |sorted| ensures sorted[i].id <= sorted[j].id {
      assert !Less(RelationKey(sorted[j]), RelationKey(sorted[i]));
    }
  }

  /** Every block of the listing is one of the document with its relations in the order
      of their names. */
  lemma {:induction false} CanonicalRelationsInOrder(nodes: seq<Node>, n: Node)
    requires Named(nodes) && n in Canonical(nodes)
    ensures forall i, j :: 0 <= i < j < |n.relations| ==> n.relations[i].id <= n.relations[j].id
  {
    var clones := Map(nodes, CanonicalNode);
    CanonicalNamed(nodes);
    PreorderMembers(clones, n);
    var k :| 0 <= k < |clones| && clones[k] == n;
    RelationsInOrder(Map(nodes[k].relations, CanonicalRelation));
  }

  // ----- a whole update -----

  /** Everything a whole update leaves to read is what the batch leaves to read, applied
      to the document as it was listed: neither listing changes a read. */
  lemma {:induction false} UpdateReads(document: Tree, v: Validator, ops: seq<Operation>, place: Place, localized: bool, field: FieldID, path: seq<Segment>)
    requires LoadedNodes(document.nodes) && Forest(GraphOf(document.nodes)) && Agrees(document, v) && AcceptedAll(v, ops)
    requires AppliedAll(Opened(document), ops).Some?
    ensures ReadAt(Opened(document).nodes, place, localized, field, path) == ReadAt(document.nodes, place, localized, field, path)
    ensures FileAt(Opened(document).nodes, place, field, path) == FileAt(document.nodes, place, field, path)
    ensures var last := AppliedAll(Opened(document), ops).value;
            && GoodNodes(last.nodes)
            && ReadAt(Opened(last).nodes, place, localized, field, path) == ReadAt(last.nodes, place, localized, field, path)
            && FileAt(Opened(last).nodes, place, field, path) == FileAt(last.nodes, place, field, path)
            && KeepsContent(ContentAt(last.nodes, place), ContentAt(Opened(last).nodes, place))
  {
    CanonicalReads(document.nodes, place, localized, field, path);
    ListingKeeps(document.nodes);
    AgreesCovers(v.graph);
    BatchCovered(Opened(document), v, ops);
    AcceptedThroughKeeps(v, ops);
    var last := AppliedAll(Opened(document), ops).value;
    CoveredForest(GraphOf(last.nodes), AcceptedThrough(v, ops).graph);
    GoodIsLoaded(last.nodes);
    CanonicalReads(last.nodes, place, localized, field, path);
    CanonicalKeepsContent(last.nodes, place);
  }
}
