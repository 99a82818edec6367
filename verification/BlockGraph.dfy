/** The block graph that validation keeps of a document: for every block its kind,
    its parent and the kinds of its relation items. */
module BlockGraph {
  import opened Lists
  import opened Values
  import opened Documents

  datatype GraphBlock = GraphBlock(kind: BlockKind, parent: BlockID, relations: map<RelationID, map<ItemID, ItemKind>>)

  type Graph = map<BlockID, GraphBlock>

  // ----- the graph of a node list -----

  function KindOfItem(item: RelationItem): ItemKind { item.kind }

  function ItemsOf(relation: Relation): map<ItemID, ItemKind> {
    Index(relation.items, ItemId, KindOfItem)
  }

  function BlockOf(node: Node): GraphBlock {
    GraphBlock(node.kind, node.parent, Index(node.relations, RelationId, ItemsOf))
  }

  function GraphOf(nodes: seq<Node>): Graph {
    Index(nodes, NodeId, BlockOf)
  }

  lemma IndexPrefix<T, V>(s: seq<T>, id: T -> nat, val: T -> V, k: nat)
    requires k < |s|
    ensures Index(s[..k + 1], id, val) == Index(s[..k], id, val)[id(s[k]) := val(s[k])]
  {
    assert s[..k + 1][..k] == s[..k];
  }

  method NewOperationGraph(nodes: seq<Node>) returns (graph: Graph)
    ensures graph == GraphOf(nodes)
  {
    graph := map[];
    for n := 0 to |nodes|
      invariant graph == Index(nodes[..n], NodeId, BlockOf)
    {
      var relations: map<RelationID, map<ItemID, ItemKind>> := map[];
      for r := 0 to |nodes[n].relations|
        invariant relations == Index(nodes[n].relations[..r], RelationId, ItemsOf)
      {
        var relation := nodes[n].relations[r];
        var items: map<ItemID, ItemKind> := map[];
        for i := 0 to |relation.items|
          invariant items == Index(relation.items[..i], ItemId, KindOfItem)
        {
          IndexPrefix(relation.items, ItemId, KindOfItem, i);
          items := items[relation.items[i].id := relation.items[i].kind];
        }
        assert relation.items[..|relation.items|] == relation.items;
        IndexPrefix(nodes[n].relations, RelationId, ItemsOf, r);
        relations := relations[relation.id := items];
      }
      assert nodes[n].relations[..|nodes[n].relations|] == nodes[n].relations;
      IndexPrefix(nodes, NodeId, BlockOf, n);
      graph := graph[nodes[n].id := GraphBlock(nodes[n].kind, nodes[n].parent, relations)];
    }
    assert nodes[..|nodes|] == nodes;
  }

  // ----- ancestry -----

  /** `to` is the ancestor `k` steps above `id`. */
  ghost predicate Climbs(g: Graph, id: BlockID, k: nat, to: BlockID)
    decreases k
  {
    if k == 0 then id == to else id in g && Climbs(g, g[id].parent, k - 1, to)
  }

  /** `id` is `top` or one of its descendants. */
  ghost predicate Below(g: Graph, id: BlockID, top: BlockID) {
    exists k: nat :: Climbs(g, id, k, top)
  }

  /** Every block has its parent present and is free of cycles: climbing from it
      ends above a root. */
  ghost predicate Forest(g: Graph) {
    NONE !in g && forall id :: id in g ==> Below(g, id, NONE)
  }

  lemma {:induction false} ClimbsFurther(g: Graph, a: BlockID, i: nat, b: BlockID, j: nat, c: BlockID)
    requires Climbs(g, a, i, b) && Climbs(g, b, j, c)
    ensures Climbs(g, a, i + j, c)
    decreases i
  {
    if i > 0 {
      ClimbsFurther(g, g[a].parent, i - 1, b, j, c);
    }
  }

  lemma {:induction false} ClimbsToRootOnce(g: Graph, id: BlockID, i: nat, j: nat)
    requires NONE !in g && Climbs(g, id, i, NONE) && Climbs(g, id, j, NONE)
    ensures i == j
    decreases i
  {
    if i > 0 && j > 0 {
      ClimbsToRootOnce(g, g[id].parent, i - 1, j - 1);
    }
  }

  /** Blocks that climb the same way in a graph that agrees with `g` away from `except`. */
  lemma {:induction false} ClimbsElsewhere(g: Graph, h: Graph, id: BlockID, k: nat, to: BlockID, except: BlockID)
    requires Climbs(g, id, k, to) && !Below(g, id, except)
    requires forall b :: b in g && b != except ==> b in h && h[b].parent == g[b].parent
    ensures Climbs(h, id, k, to)
    decreases k
  {
    assert Climbs(g, except, 0, except);
    if k > 0 {
      var parent := g[id].parent;
      if Below(g, parent, except) {
        var j: nat :| Climbs(g, parent, j, except);
        assert Climbs(g, id, j + 1, except);
      }
      ClimbsElsewhere(g, h, parent, k - 1, to, except);
    }
  }

  lemma {:induction false} ClimbsSameParents(g: Graph, h: Graph, id: BlockID, k: nat, to: BlockID)
    requires Climbs(g, id, k, to)
    requires forall b :: b in g ==> b in h && h[b].parent == g[b].parent
    ensures Climbs(h, id, k, to)
    decreases k
  {
    if k > 0 {
      ClimbsSameParents(g, h, g[id].parent, k - 1, to);
    }
  }

  // ----- the ancestor walk -----

  ghost function Depth(g: Graph, id: BlockID): nat
    requires Forest(g)
  {
    if id in g then
      var k: nat :| Climbs(g, id, k, NONE);
      k
    else 0
  }

  lemma DepthOfParent(g: Graph, id: BlockID)
    requires Forest(g) && id in g
    ensures Depth(g, g[id].parent) < Depth(g, id)
  {
    var k := Depth(g, id);
    assert Climbs(g, id, k, NONE);
    var parent := g[id].parent;
    if parent in g {
      ClimbsToRootOnce(g, parent, Depth(g, parent), k - 1);
    }
  }

  function IsDescendant(g: Graph, candidate: BlockID, ancestor: BlockID): bool
    requires Forest(g)
    decreases Depth(g, candidate)
  {
    if candidate == NONE then false
    else if candidate == ancestor then true
    else if candidate !in g then false
    else
      DepthOfParent(g, candidate);
      IsDescendant(g, g[candidate].parent, ancestor)
  }

  lemma {:induction false} IsDescendantIffBelow(g: Graph, candidate: BlockID, ancestor: BlockID)
    requires Forest(g) && ancestor != NONE
    ensures IsDescendant(g, candidate, ancestor) <==> Below(g, candidate, ancestor)
    decreases Depth(g, candidate)
  {
    if candidate == ancestor {
      assert Climbs(g, candidate, 0, ancestor);
    } else if candidate in g {
      DepthOfParent(g, candidate);
      var parent := g[candidate].parent;
      IsDescendantIffBelow(g, parent, ancestor);
      if Below(g, parent, ancestor) {
        var k: nat :| Climbs(g, parent, k, ancestor);
        assert Climbs(g, candidate, k + 1, ancestor);
      }
      if Below(g, candidate, ancestor) {
        var k: nat :| Climbs(g, candidate, k, ancestor);
        assert Climbs(g, parent, k - 1, ancestor);
      }
    }
  }

  /** The ancestor walk ends because the blocks are a forest. */
  method IsDescendantWalk(g: Graph, start: BlockID, ancestor: BlockID) returns (found: bool)
    requires Forest(g)
    ensures found == IsDescendant(g, start, ancestor)
  {
    var candidate := start;
    while candidate != NONE
      invariant IsDescendant(g, candidate, ancestor) == IsDescendant(g, start, ancestor)
      decreases Depth(g, candidate), candidate != NONE
    {
      if candidate == ancestor {
        return true;
      }
      if candidate !in g {
        return false;
      }
      DepthOfParent(g, candidate);
      candidate := g[candidate].parent;
    }
    return false;
  }

  // ----- deletion -----

  /** The block and all its descendants. */
  ghost function Removed(g: Graph, block: BlockID): set<BlockID> {
    {block} + set id | id in g && Below(g, id, block)
  }

  ghost predicate ClosedBelow(g: Graph, removed: set<BlockID>) {
    forall id :: id in g && g[id].parent in removed ==> id in removed
  }

  lemma {:induction false} ClosedHoldsClimber(g: Graph, removed: set<BlockID>, id: BlockID, k: nat, block: BlockID)
    requires ClosedBelow(g, removed) && block in removed && Climbs(g, id, k, block)
    ensures id in removed
    decreases k
  {
    if k > 0 {
      ClosedHoldsClimber(g, removed, g[id].parent, k - 1, block);
    }
  }

  /** A set that holds the block, only descendants, and every child of a member is
      exactly the subtree. */
  lemma ClosedIsRemoved(g: Graph, removed: set<BlockID>, block: BlockID)
    requires block in removed && removed <= Removed(g, block) && ClosedBelow(g, removed)
    ensures removed == Removed(g, block)
  {
    forall id | id in Removed(g, block) ensures id in removed {
      if id != block {
        var k: nat :| Climbs(g, id, k, block);
        ClosedHoldsClimber(g, removed, id, k, block);
      }
    }
  }

  lemma ChildIsRemoved(g: Graph, id: BlockID, block: BlockID)
    requires id in g && g[id].parent in Removed(g, block)
    ensures id in Removed(g, block)
  {
    var parent := g[id].parent;
    if parent == block {
      assert Climbs(g, parent, 0, block);
    }
    var k: nat :| Climbs(g, parent, k, block);
    assert Climbs(g, id, k + 1, block);
  }

  /** One pass over the blocks, in any order, of the deletion fixpoint. */
  method RemovalPass(g: Graph, block: BlockID, remove: set<BlockID>) returns (more: set<BlockID>, changed: bool)
    requires block in remove && remove <= Removed(g, block)
    ensures remove <= more <= Removed(g, block)
    ensures changed <==> more != remove
    ensures !changed ==> ClosedBelow(g, remove)
  {
    more, changed := remove, false;
    var todo := g.Keys;
    while todo != {}
      invariant todo <= g.Keys
      invariant remove <= more <= Removed(g, block)
      invariant changed <==> more != remove
      invariant !changed ==> forall id :: id in g.Keys - todo && g[id].parent in remove ==> id in remove
      decreases todo
    {
      var id :| id in todo;
      todo := todo - {id};
      if g[id].parent in more && id !in more {
        ChildIsRemoved(g, id, block);
        more := more + {id};
        changed := true;
      }
    }
  }

  method RemovedBlocks(g: Graph, block: BlockID) returns (remove: set<BlockID>)
    ensures remove == Removed(g, block)
  {
    remove := {block};
    var changed := true;
    while changed
      invariant block in remove && remove <= Removed(g, block)
      invariant !changed ==> ClosedBelow(g, remove)
      decreases Removed(g, block) - remove, changed
    {
      var before := remove;
      remove, changed := RemovalPass(g, block, remove);
      assert changed ==> Removed(g, block) - remove < Removed(g, block) - before;
    }
    ClosedIsRemoved(g, remove, block);
  }

  // ----- what keeps a forest -----

  lemma ForestSameParents(g: Graph, h: Graph)
    requires Forest(g) && h.Keys == g.Keys && forall b :: b in g ==> h[b].parent == g[b].parent
    ensures Forest(h)
  {
    forall id | id in h ensures Below(h, id, NONE) {
      var k: nat :| Climbs(g, id, k, NONE);
      ClimbsSameParents(g, h, id, k, NONE);
    }
  }

  lemma ForestInsert(g: Graph, block: BlockID, added: GraphBlock)
    requires Forest(g) && block !in g && block != NONE
    requires added.parent == NONE || added.parent in g
    ensures Forest(g[block := added])
  {
    var h := g[block := added];
    forall id | id in h ensures Below(h, id, NONE) {
      var from := if id == block then added.parent else id;
      assert from == NONE ==> Climbs(g, from, 0, NONE);
      var k: nat :| Climbs(g, from, k, NONE);
      ClimbsSameParents(g, h, from, k, NONE);
      assert id == block ==> Climbs(h, id, k + 1, NONE);
    }
  }

  lemma ForestDelete(g: Graph, block: BlockID)
    requires Forest(g) && block in g
    ensures Forest(g - Removed(g, block))
  {
    var h := g - Removed(g, block);
    forall id | id in h ensures Below(h, id, NONE) {
      var k: nat :| Climbs(g, id, k, NONE);
      ClimbsOutside(g, id, k, block);
    }
  }

  lemma {:induction false} ClimbsOutside(g: Graph, id: BlockID, k: nat, block: BlockID)
    requires Climbs(g, id, k, NONE) && id !in Removed(g, block) && NONE !in g
    ensures Climbs(g - Removed(g, block), id, k, NONE)
    decreases k
  {
    if k > 0 {
      if g[id].parent in Removed(g, block) {
        ChildIsRemoved(g, id, block);
      }
      ClimbsOutside(g, g[id].parent, k - 1, block);
    }
  }

  function Moved(g: Graph, block: BlockID, parent: BlockID): Graph
    requires block in g
  {
    g[block := g[block].(parent := parent)]
  }

  lemma {:induction false} ClimbsAfterMove(g: Graph, block: BlockID, parent: BlockID, id: BlockID, k: nat)
    requires block in g && Climbs(g, id, k, NONE) && Below(Moved(g, block, parent), parent, NONE) && NONE !in g
    ensures Below(Moved(g, block, parent), id, NONE)
    decreases k
  {
    var h := Moved(g, block, parent);
    if k == 0 {
      assert Climbs(h, id, 0, NONE);
    } else {
      if id != block {
        ClimbsAfterMove(g, block, parent, g[id].parent, k - 1);
      }
      var j: nat :| Climbs(h, h[id].parent, j, NONE);
      assert Climbs(h, id, j + 1, NONE);
    }
  }

  /** A climb that reaches `block` does so without using its parent link. */
  lemma {:induction false} ClimbsToMoved(g: Graph, block: BlockID, parent: BlockID, id: BlockID, k: nat)
    requires block in g && Climbs(g, id, k, block)
    ensures Below(Moved(g, block, parent), id, block)
    decreases k
  {
    var h := Moved(g, block, parent);
    if id == block {
      assert Climbs(h, id, 0, block);
    } else {
      ClimbsToMoved(g, block, parent, g[id].parent, k - 1);
      var j: nat :| Climbs(h, h[id].parent, j, block);
      assert Climbs(h, id, j + 1, block);
    }
  }

  /** Moving a block keeps a forest exactly when the new parent is no block, or a
      block outside the moved subtree: the descendant check is neither too strict
      nor too lax. */
  lemma {:induction false} ForestMoveIff(g: Graph, block: BlockID, parent: BlockID)
    requires Forest(g) && block in g
    ensures Forest(Moved(g, block, parent)) <==> parent == NONE || (parent in g && !Below(g, parent, block))
  {
    var h := Moved(g, block, parent);
    if parent == NONE || (parent in g && !Below(g, parent, block)) {
      if parent == NONE {
        assert Climbs(h, parent, 0, NONE);
      } else {
        var k: nat :| Climbs(g, parent, k, NONE);
        ClimbsElsewhere(g, h, parent, k, NONE, block);
      }
      forall id | id in h ensures Below(h, id, NONE) {
        var k: nat :| Climbs(g, id, k, NONE);
        ClimbsAfterMove(g, block, parent, id, k);
      }
    } else if Forest(h) {
      MoveBelowItself(g, block, parent);
    }
  }

  lemma {:induction false} MoveBelowItself(g: Graph, block: BlockID, parent: BlockID)
    requires Forest(g) && block in g && Forest(Moved(g, block, parent))
    ensures parent == NONE || (parent in g && !Below(g, parent, block))
  {
    var h := Moved(g, block, parent);
    assert block in h;
    var d: nat :| Climbs(h, block, d, NONE);
    assert Climbs(h, parent, d - 1, NONE);
    if Below(g, parent, block) {
      var k: nat :| Climbs(g, parent, k, block);
      ClimbsToMoved(g, block, parent, parent, k);
      var j: nat :| Climbs(h, parent, j, block);
      ClimbsFurther(h, parent, j, block, d, NONE);
      ClimbsToRootOnce(h, parent, d - 1, j + d);
    }
  }
}
