/** Where the batch theorems need their conditions: loaded documents and operations
    that validation accepts, for which the property fails without the condition. The
    exact conditions are in `BatchApplication` and `ItemConservation`. */
module Limits {
  import opened Lists
  import opened Values
  import opened Schemas
  import opened Documents
  import opened BlockGraph
  import opened Validation
  import opened Mutation
  import opened GraphSoundness
  import opened ValueSoundness
  import opened BatchSoundness
  import opened BatchApplication
  import opened ItemConservation
  import opened DocumentUpdate

  // ----- a catalog and documents under it -----

  function TextSchema(): Schema { Schema(TextKind, Locale, true, false, None, [], Positional) }
  function ObjectSchema(): Schema { Schema(ObjectKind, Locale, true, false, None, [NestedField(2, TextSchema())], Positional) }

  function TextRule(): FieldRule { FieldRule(TextKind, Locale, true, false, None) }
  function ObjectRule(): FieldRule { FieldRule(ObjectKind, Locale, true, false, Some(ObjectSchema())) }

  /** Blocks of kind 1 have two relations of the same items: field 1 is text in one
      and an object in the other. */
  function SmallCatalog(): Catalog {
    Catalog({1, 2}, map[], map[(1, 1) := {1}, (1, 2) := {1}], map[(1, 1, 1, 1) := TextRule(), (1, 2, 1, 1) := ObjectRule()])
  }

  function Item(text: string): RelationItem { RelationItem(7, 1, 0, [], [Entry(1, TextValue(text))], []) }

  function Block(id: BlockID, kind: BlockKind, relations: seq<Relation>): Node {
    Node(id, kind, NONE, id, [], [], [], relations)
  }

  function OneItem(): Tree { Tree(SmallCatalog(), true, [Block(1, 1, [Relation(1, [Item("a")])])]) }

  function Twins(): Tree {
    Tree(SmallCatalog(), true, [Block(1, 1, [Relation(1, [Item("a")])]), Block(2, 1, [Relation(1, [Item("b")])])])
  }

  function ValidatorOf(tree: Tree, batchSize: nat, strings: Strings): Validator {
    Validator(SourceLocale, tree.localeExists, batchSize, tree.catalog, strings, GraphOf(tree.nodes))
  }

  // ----- they are loaded documents -----

  lemma SmallCatalogValid()
    ensures ValidCatalog(SmallCatalog())
  {
  }

  lemma BlockFits(id: BlockID, text: string)
    requires id != NONE
    ensures var n := Block(id, 1, [Relation(1, [Item(text)])]);
            GoodNode(n) && NodeFits(n, SmallCatalog()) && BlockOf(n) == GraphBlock(1, NONE, map[1 := map[7 := 1]])
  {
    var item, relation := Item(text), Relation(1, [Item(text)]);
    var n := Block(id, 1, [relation]);
    assert GoodRelation(relation);
    assert HolderFits(ItemHolder(item), SmallCatalog(), 1, 1, 1);
    assert RelationFits([item], SmallCatalog(), 1, 1);
    assert HolderFits(BlockHolder(n), SmallCatalog(), 1, NONE, NONE);
    IndexOne(item, ItemId, KindOfItem);
    IndexOne(relation, RelationId, ItemsOf);
  }

  lemma RootsAreForest(g: Graph)
    requires NONE !in g && forall id :: id in g ==> g[id].parent == NONE
    ensures Forest(g)
  {
    forall id | id in g ensures Below(g, id, NONE) {
      assert Climbs(g, NONE, 0, NONE);
      assert Climbs(g, id, 1, NONE);
    }
  }

  lemma OneItemLoaded()
    ensures GraphOf(OneItem().nodes) == map[1 := GraphBlock(1, NONE, map[1 := map[7 := 1]])]
    ensures Loaded(OneItem()) && GoodNodes(OneItem().nodes)
  {
    var nodes := OneItem().nodes;
    BlockFits(1, "a");
    SmallCatalogValid();
    IndexOne(nodes[0], NodeId, BlockOf);
    assert nodes == [nodes[0]];
    RootsAreForest(GraphOf(nodes));
    GoodIsLoaded(nodes);
  }

  /** Loaded, but for identifiers that two blocks share. */
  lemma TwinsLoaded()
    ensures GraphOf(Twins().nodes)
         == map[1 := GraphBlock(1, NONE, map[1 := map[7 := 1]]), 2 := GraphBlock(1, NONE, map[1 := map[7 := 1]])]
    ensures ValidCatalog(Twins().catalog) && GoodNodes(Twins().nodes) && LoadedNodes(Twins().nodes)
    ensures NodesFit(Twins().nodes, Twins().catalog) && Forest(GraphOf(Twins().nodes))
    ensures !ItemsUnique(GraphOf(Twins().nodes))
  {
    var nodes := Twins().nodes;
    BlockFits(1, "a");
    BlockFits(2, "b");
    SmallCatalogValid();
    IndexOne(nodes[0], NodeId, BlockOf);
    IndexAppend([nodes[0]], NodeId, BlockOf, nodes[1]);
    assert nodes == [nodes[0]] + [nodes[1]];
    var g := GraphOf(nodes);
    RootsAreForest(g);
    GoodIsLoaded(nodes);
    assert HeldAt(g, 1, 1, 7) && HeldAt(g, 2, 1, 7);
  }

  // ----- items that share an identifier -----

  /** Item identifiers unique within each block only, which is all that validation of a
      loaded document checks, do not suffice: the move is accepted, and the twin it
      lands on is lost. */
  lemma TwinsAreLost(strings: Strings)
    ensures var nodes, move := Twins().nodes, MoveRelationItem(1, 1, 7, 2, 1, NONE);
            && Forest(GraphOf(nodes)) && Validate(ValidatorOf(Twins(), 1, strings), move).None?
            && MovedItem(nodes, 1, 1, 7, 2, 1, NONE) == Some([Block(1, 1, [Relation(1, [])]), Block(2, 1, [Relation(1, [Item("a")])])])
            && !SameItems(nodes, MovedItem(nodes, 1, 1, 7, 2, 1, NONE).value)
  {
    TwinsLoaded();
    var nodes := Twins().nodes;
    TwinMoveAccepted(ValidatorOf(Twins(), 1, strings));
    TwinsMeet(GraphOf(nodes));
    MoveConservesIff(nodes, 1, 1, 7, 2, 1, NONE);
    TwinMove(nodes[0], nodes[1], Item("a"), Item("b"));
  }

  lemma TwinMoveAccepted(v: Validator)
    requires v.graph == map[1 := GraphBlock(1, NONE, map[1 := map[7 := 1]]), 2 := GraphBlock(1, NONE, map[1 := map[7 := 1]])]
    requires Forest(v.graph) && v.role.SourceLocale? && v.catalog == SmallCatalog()
    ensures Validate(v, MoveRelationItem(1, 1, 7, 2, 1, NONE)).None?
  {
  }

  lemma TwinsMeet(g: Graph)
    requires g == map[1 := GraphBlock(1, NONE, map[1 := map[7 := 1]]), 2 := GraphBlock(1, NONE, map[1 := map[7 := 1]])]
    ensures RequireRelationItem(g, 1, 1, 7).None? && ValidateRelationPlacement(g, 2, 1, 7, NONE).None?
    ensures HasTwin(g, 1, 1, 7, 2, 1)
  {
  }

  lemma TwinMove(a: Node, b: Node, x: RelationItem, y: RelationItem)
    requires a == Block(1, 1, [Relation(1, [x])]) && b == Block(2, 1, [Relation(1, [y])]) && x.id == 7 && y.id == 7 && x.order == 0
    ensures MovedItem([a, b], 1, 1, 7, 2, 1, NONE) == Some([Block(1, 1, [Relation(1, [])]), Block(2, 1, [Relation(1, [x])])])
  {
    var nodes := [a, b];
    assert [x][1..] == [] && [y][1..] == [];
    var emptied, filled := Block(1, 1, [Relation(1, [])]), Block(2, 1, [Relation(1, [x])]);
    assert Find(nodes, NodeId, 1) == 0;
    assert RelationWithout(a.relations[0], 7) == Relation(1, []);
    assert a.relations[0 := Relation(1, [])] == [Relation(1, [])];
    assert nodes[0 := emptied] == [emptied, b];
    assert Find([emptied, b], NodeId, 2) == 1 by {
      assert [emptied, b][1] == b;
    }
    assert RelationWith(b.relations[0], x, NONE) == Relation(1, [x]) by {
      assert NumberedItems([x]) == [x];
    }
    assert b.relations[0 := Relation(1, [x])] == [Relation(1, [x])];
    assert [emptied, b][1 := filled] == [emptied, filled];
  }

  // ----- where graph and tree part -----

  lemma AcceptedPair(v: Validator, a: Operation, b: Operation)
    requires Forest(v.graph) && Validate(v, a).None? && Forest(Accepted(v, a).graph) && Validate(Accepted(v, a), b).None?
    ensures AcceptedAll(v, [a, b])
  {
    AcceptedKeepsForest(v, a);
    AcceptedKeepsForest(Accepted(v, a), b);
    assert [a, b][1..] == [b] && [b][1..] == [];
    assert AcceptedAll(Accepted(v, a), [b]);
  }

  /** Replacing the kind of a block that holds an item and deleting the item is
      accepted for a loaded document, and fails to apply: the graph still had what the
      tree had dropped. */
  lemma KindReplacementFails(strings: Strings)
    ensures Loaded(OneItem())
    ensures var ops := [ReplaceBlockKind(1, 2), DeleteRelationItem(1, 1, 7)];
            && AcceptedAll(ValidatorOf(OneItem(), 2, strings), ops)
            && AppliedAll(OneItem(), ops).None? && !AlwaysInTree(OneItem(), ops)
  {
    OneItemLoaded();
    var tree, v := OneItem(), ValidatorOf(OneItem(), 2, strings);
    var replace, delete := ReplaceBlockKind(1, 2), DeleteRelationItem(1, 1, 7);
    AcceptedKeepsForest(v, replace);
    AcceptedPair(v, replace, delete);
    var after := Applied(tree, replace).value;
    assert after.nodes == [Block(1, 2, [])];
    IndexOne(after.nodes[0], NodeId, BlockOf);
    assert [replace, delete][1..] == [delete];
    assert Applied(after, delete).None?;
  }

  // ----- moves to other field rules -----

  /** Moving an item to a relation whose rules differ, and setting a nested field there,
      is accepted for a loaded document, and fails on the value the item brought. */
  lemma MoveMeetsOtherRules(strings: Strings)
    ensures Loaded(OneItem())
    ensures var target := Target(1, 2, 7, 1, [FieldSegment(2)]);
            var ops := [MoveRelationItem(1, 1, 7, 1, 2, NONE), SetField(target, TextValue("b"))];
            && AcceptedAll(ValidatorOf(OneItem(), 2, strings), ops)
            && AppliedAll(OneItem(), ops).None? && !AlwaysLandsFit(OneItem(), ops)
  {
    OneItemLoaded();
    var tree, v := OneItem(), ValidatorOf(OneItem(), 2, strings);
    var move, target := MoveRelationItem(1, 1, 7, 1, 2, NONE), Target(1, 2, 7, 1, [FieldSegment(2)]);
    var nested := SetField(target, TextValue("b"));
    AcceptedKeepsForest(v, move);
    NestedTextResolves();
    AcceptedPair(v, move, nested);
    MovedText(tree.nodes);
    var after := Applied(tree, move).value;
    NestedSetFails(after, target);
    assert [move, nested][1..] == [nested];
    MisfitLands(tree);
  }

  /** The moved text is no object, which is what `LandsFit` asks about. */
  lemma MisfitLands(tree: Tree)
    requires tree == OneItem()
    ensures !LandsFit(tree, MoveRelationItem(1, 1, 7, 1, 2, NONE))
  {
    OneItemLoaded();
    var n := tree.nodes[0];
    assert Find(tree.nodes, NodeId, 1) == 0 && Find(n.relations, RelationId, 1) == 0;
    assert ItemAt(tree.nodes, 1, 1, 7) == Some(Item("a"));
    assert RuleOf(SmallCatalog(), 1, 2, 1, Item("a").localized[0].id) == Some(ObjectRule());
    assert !ValuesFit(ItemHolder(Item("a")).localized, true, SmallCatalog(), 1, 2, 1);
  }

  lemma NestedTextResolves()
    ensures Resolve(ObjectRule(), [FieldSegment(2)]) == Some(Resolved(TextKind, Locale, true, false, Some(TextSchema())))
  {
    assert [FieldSegment(2)][1..] == [];
    assert SchemaAt(TextSchema(), []) == Some(TextSchema());
    assert Find(ObjectSchema().fields, NestedId, 2) == 0;
    assert SchemaStep(ObjectSchema(), FieldSegment(2)) == Some(TextSchema());
  }

  lemma MovedText(nodes: seq<Node>)
    requires nodes == OneItem().nodes
    ensures MovedItem(nodes, 1, 1, 7, 1, 2, NONE) == Some([Block(1, 1, [Relation(1, []), Relation(2, [Item("a")])])])
  {
    var x := Item("a");
    assert [x][1..] == [];
    var emptied, filled := Block(1, 1, [Relation(1, [])]), Block(1, 1, [Relation(1, []), Relation(2, [x])]);
    assert RelationWithout(nodes[0].relations[0], 7) == Relation(1, []);
    assert nodes[0].relations[0 := Relation(1, [])] == [Relation(1, [])];
    assert nodes[0 := emptied] == [emptied];
    assert [Relation(1, [])][1..] == [];
    assert Find(emptied.relations, RelationId, 2) == 1;
    assert NumberedItems([x]) == [x] && WithoutId([], 7) == [];
    assert RelationWith(Relation(2, []), x, NONE) == Relation(2, [x]);
    assert emptied.relations + [Relation(2, [x])] == filled.relations;
    assert [emptied][0 := filled] == [filled];
  }

  lemma NestedSetFails(tree: Tree, t: Target)
    requires tree.nodes == [Block(1, 1, [Relation(1, []), Relation(2, [Item("a")])])]
    requires t == Target(1, 2, 7, 1, [FieldSegment(2)]) && tree.catalog == SmallCatalog()
    ensures Applied(tree, SetField(t, TextValue("b"))).None?
  {
    var n := tree.nodes[0];
    assert n.relations[1..] == [Relation(2, [Item("a")])];
    assert Find(n.relations, RelationId, 2) == 1;
    assert Find(Item("a").localized, EntryId, 1) == 0;
    assert MutatePath(TextValue("a"), t.path, Set(TextValue("b"))).None?;
  }
}
