# Document engine and account protocols, verified

This project models two parts of the system and proves what they promise.

**The AI document engine** (`internal/aidocument`) edits a document: a flat list of
blocks linked by parent, with typed values, file bindings and relations. A batch of
operations is validated against a small graph of the blocks and then applied to the
tree. The project proves, of accepted batches: siblings behave as a plain list in every
batch that applies; the graph stays the graph of the tree exactly when no kind of a block
holding relations is replaced; stored values keep fitting their rules exactly when moved
items fit where they land, and then the batch applies exactly when what it addresses is in
the tree; and relation items are conserved exactly when a move meets no item of the same
identifier. After each operation every value, file, block and item is where the operation
puts it and everything else reads as before; accepted operations are characterized, and every
reported issue is true. The canonical listing changes no read, is complete (if there is no cycle), ordered, idempotent
and independent of input order. Rich text is specified by its annotated content: one entry
per character or atom, with the marks around it. Flattening, formatting, replacing and
nesting are proved against it, and a text edit is described at every position of a value.

**The account protocols** (`internal/account`) change two authorities, Kratos identity
state and a Postgres request row, under fences. Each flow is a machine whose steps
commit one by one; a crash or an error may end it after any step, and the user, Kratos
and the clock act in between. The theorems quantify over every run, and say for each flow
how it ends for every way its calls end.

| file | content |
|---|---|
| `Lists` | filtering, sorting by key, indexing |
| `RichText`, `RichTextFormat`, `RichTextSelection` | annotated content, nesting, formats, selections |
| `Values`, `Schemas`, `Documents` | values and writes at paths, catalog rules, documents and operations |
| `BlockGraph`, `Validation` | the graph, ancestry, deletion; the validator |
| `Mutation`, `Editing` | what operations make of a tree; the loops that do it in place |
| `AcceptanceConditions`, `ValueValidity` | when operations are accepted, what issues mean, what makes a value valid |
| `GraphSoundness`, `ValueSoundness`, `BatchSoundness`, `GraphCover`, `BatchApplication` | validation against application |
| `DocumentReads`, `StructureReads`, `RelationOrder`, `OrderNumbers` | what can be read after each operation, and in which order |
| `SiblingOrder`, `CanonicalOrder`, `CanonicalContent`, `DocumentUpdate` | child order, the canonical listing and what it keeps, whole updates |
| `ItemConservation`, `Limits`, `LocaleAuthority` | relation items, where conditions are needed, non-source locales |
| `TextReplacement`, `TextEdits`, `TextRewriting`, `TextSelecting` | text edits: the loops, what they make of each text, what they select |
| `TextEditPlan`, `PlanAcceptance`, `PlannedUpdate` | plans of text edits, when validation accepts them, plans through whole updates |
| `EmailChange`, `EmailReconciling`, `EmailOutcomes`, `ReconcileScan` | the email-change protocol, its flows, how they end, the scan |
| `AccountLifecycle`, `AccountSafety`, `AccountService` | roles, bans and deletions: the machine, its theorems, its operations |

Check everything with `dafny verify dfyconfig.toml`.

Where code and comments differ, the model follows the code. The validator's comment
(`internal/aidocument/validation.go:582-583`) takes relation item identifiers to be unique
in the document, while document validation checks them per block only; the theorems start
from document-wide uniqueness, and `Limits.TwinsAreLost` shows why. Replacing a kind clears
relations in the tree and leaves them in the graph; `BatchSoundness.AgreesThroughoutIff` says
exactly when that matters, `GraphCover.BatchCovered` what still holds, and
`BatchApplication.BatchAppliesIff` when the batch still applies. Validation does not compare the
field rules of the two relations of a move; `BatchApplication.BatchFitsIff` says exactly when
stored values keep their kinds, and `Limits.MoveMeetsOtherRules` shows what happens otherwise.
A locale-owned nested field of a shared root is stored in the shared slot, so a non-source
locale can change a shared-slot value at such a path: `LocaleAuthority.NonSourceBatch` speaks
of the rule at the path.

## Model

| member | source | states |
|---|---|---|
| `RichText.FlattenKeepsContent` | internal/aidocument/text_edit_format.go:95-112 | Flattening keeps the annotated content: every character and atom, in order, under the marks around it |
| `RichText.RebuildInline` | internal/aidocument/text_edit_format.go:233-256 | The rebuild loop computes the nesting of the leaves; its recursion ends on the remaining mark depth |
| `RichText.RebuildRun` | internal/aidocument/text_edit_format.go:247-254 | The inner loop takes the longest run that shares the mark, and nests exactly that run one mark deeper |
| `RichText.NestKeepsContent` | internal/aidocument/text_edit_format.go:233-256 | Nesting keeps the annotated content of the leaves |
| `RichText.NestIsNormal` | internal/aidocument/text_edit_format.go:233-256 | In the result no adjacent siblings share a mark kind and target and no two text items are adjacent, at any depth |
| `RichText.NestDependsOnContent` | internal/aidocument/text_edit_format.go:233-256 | Leaf lists without empty text nest as their annotated content does: how text was cut into leaves does not show |
| `RichText.NestIsCanonical` | internal/aidocument/text_edit_format.go:233-256 | The rebuilt tree is a function of annotated content alone, so equal content gives equal trees |
| `RichText.NormalIffFixedPoint` | internal/aidocument/text_edit_format.go:95-112 | A tree without empty parts is normal if and only if flattening and rebuilding returns it |
| `RichText.NormalIsCanonical` | internal/aidocument/text_edit_format.go:233-256 | Two normal trees with the same annotated content are equal |
| `RichTextFormat.ApplyFormat` | internal/aidocument/text_edit_format.go:199-229 | The loops over wrappers and added marks compute the changed mark list, whose meaning the next two rows give |
| `RichTextFormat.ApplyMeaning` | internal/aidocument/text_edit_format.go:197-229 | For every mark list: the new link alone outermost, the marks neither removed nor set anew in their order, each added kind that is then missing, in the order of the format, and the new colors innermost; an empty link or color puts nothing |
| `RichTextFormat.ApplyShows` | internal/aidocument/text_edit_format.go:197-229 | A kind shows afterwards if and only if the format adds it or sets it to something, or it was there and the format neither removes nor sets it |
| `RichTextFormat.StableIffIdempotent` | internal/aidocument/text_edit_format.go:199-229 | Applying a format twice equals applying it once on every mark list if and only if the format is stable, a condition on the format alone |
| `RichTextFormat.PlainMarksAreStable` | internal/aidocument/text_edit_format.go:199-229 | Added plain marks that are disjoint from the removed ones make a stable format |
| `RichTextSelection.OccurrencesAreLeftmost` | internal/aidocument/text_edit_format.go:144-156 | The occurrences found are the leftmost non-overlapping ones, and the only ranges that are |
| `RichTextSelection.TextRanges` | internal/aidocument/text_edit_format.go:144-156 | The search loop returns exactly the leftmost non-overlapping occurrences |
| `RichTextSelection.JoinLeaves` | internal/aidocument/text_edit_format.go:130-140 | The joined text has one symbol per content position, atoms as the replacement character |
| `RichTextSelection.FormatTextRanges` | internal/aidocument/text_edit_format.go:160-195 | Splitting leaves at selection edges changes the marks of exactly the covered text positions and keeps text and atoms |
| `RichTextSelection.FormatInline` | internal/aidocument/text_edit_format.go:61-72 | Formatting a text selection yields the canonical tree of the formatted content |
| `RichTextSelection.FormatTextMeaning` | internal/aidocument/text_edit_format.go:61-72 | Text and atoms stay in place; position by position, marks change by the format where a text position is selected and nowhere else; the result is normal |
| `RichTextSelection.FormatTextTwice` | internal/aidocument/text_edit_format.go:61-72 | Repeating a format edit with a stable format changes nothing |
| `RichTextSelection.FormatInlineLinks` | internal/aidocument/text_edit_format.go:61-70 | The loop over leaves gives every leaf inside a link to the address the formatted marks and rebuilds |
| `RichTextSelection.FormatLinksMeaning` | internal/aidocument/text_edit_format.go:89-93 | Position by position, formatting links changes the marks of everything inside them, atoms included, and nothing else; without empty text the result is normal |
| `Values.SetThenRead` | internal/aidocument/mutation.go:213-289 | A set then a read returns the value exactly when the container is there; otherwise the set changed nothing |
| `Schemas.UnsetLeavesNothing` | internal/aidocument/mutation.go:213-289 | An unset then a read finds nothing, in values that were valid when stored and whatever nested writes came since |
| `Schemas.ValidIsDistinct` | internal/aidocument/values.go:85-175 | A value that passes validation gives named entries names of their own, at every level |
| `Schemas.WriteKeepsDistinct` | internal/aidocument/mutation.go:213-289 | Nested writes keep entry names distinct at every level, whatever the depth they reach |
| `Schemas.DistinctIsUnambiguous` | internal/aidocument/mutation.go:213-289 | A path into such values names at most one entry at each step |
| `Values.WriteThenReadElsewhere` | internal/aidocument/mutation.go:213-289 | A write leaves every path that neither extends nor prefixes its own unchanged |
| `Schemas.ResolveNestedFieldRule` | internal/aidocument/validation.go:490-543 | The walk down a schema returns the rule the schema assigns at the path, or refuses |
| `ValueValidity.ResolveIff` | internal/aidocument/validation.go:490-543 | A path resolves to a rule if and only if a chain of schemas leads along it, by field name and by item identity, and the rule is that of the last one; a rule without a schema resolves for the empty path only |
| `ValueValidity.ValidValueIff` | internal/aidocument/values.go:85-173 | A value is valid if and only if every value inside it, at whatever depth, is well formed and not nested too deep |
| `ValueValidity.ValidInlineIff` | internal/aidocument/values.go:175-246 | Rich text is valid if and only if every item inside it is well formed, no mark is empty and none is nested too deep |
| `ValueValidity.FitsSchemaIff` | internal/aidocument/validate_catalog.go:349-436 | A value fits its schema if and only if every value inside it is well formed and has the kind, and as a list the item names, that the schema assigns to its place |
| `ValueValidity.NamesFitIff` | internal/aidocument/validate_catalog.go:349-436 | List items carry names exactly when the schema names them: fixed handles in order, the name of the scalar they are, or of the text in their identity field |
| `Schemas.FittingValueFitsKinds` | internal/aidocument/validate_catalog.go:349-436 | A value that passes the schema check has, at every path, the kind its schema assigns |
| `Schemas.KindsFitAtPath` | internal/aidocument/validate_catalog.go:349-436 | What is read at a path of a fitting value fits the schema at that path |
| `Schemas.NestedWriteKeepsKinds` | internal/aidocument/mutation.go:238-289 | A nested write of a fitting value meets no traversal error and keeps all kinds |
| `BlockGraph.NewOperationGraph` | internal/aidocument/validation.go:141-155 | The nested loops build the graph of the node list |
| `BlockGraph.IsDescendantWalk` | internal/aidocument/validation.go:629-641 | The ancestor walk ends because the blocks are a forest, and decides ancestry |
| `BlockGraph.IsDescendantIffBelow` | internal/aidocument/validation.go:629-641 | The walk answers yes if and only if the candidate is the block or below it |
| `BlockGraph.RemovedBlocks` | internal/aidocument/validation.go:647-662 | The deletion fixpoint over the graph yields exactly the block and its descendants |
| `BlockGraph.ForestMoveIff` | internal/aidocument/validation.go:335-347 | Moving a block keeps a forest if and only if the new parent is none, or a block outside the moved subtree |
| `Validation.AcceptedKeepsForest` | internal/aidocument/validation.go:183-214 | Every accepted operation keeps the blocks a forest |
| `Validation.MoveAcceptedIff` | internal/aidocument/validation.go:335-347 | A move in the source locale is accepted if and only if it leaves a forest and its anchor is another child of the new parent |
| `Validation.OperationValidator.Check` | internal/aidocument/validation.go:183-214 | Dispatches to the checks of the thirteen kinds, with their loops over paths, blocks, relations and ancestors; no issue means the blocks are there and stay a forest |
| `Validation.OperationValidator.ItemExists` | internal/aidocument/validation.go:584-593 | The search through all blocks and relations finds an item exactly if one of them holds it |
| `Validation.OperationValidator.Accept` | internal/aidocument/validation.go:169-177 | Advances graph and locale state by an accepted operation, and keeps a forest |
| `Validation.ValidateOperations` | internal/aidocument/validation.go:114-130 | The batch loop reports, with their positions, exactly the issues met when refused operations are skipped |
| `AcceptanceConditions.IssuesAreThose` | internal/aidocument/validation.go:114-130 | The report holds, in the order of the operations, exactly the issue each operation is refused for when it is checked after the accepted ones before it |
| `AcceptanceConditions.IssueIsTrue` | internal/aidocument/validation.go:183-214 | Every reported issue is true of its operation and is the first that is: outside the source locale structure and files are refused at once, then names must be there, then each issue says what is missing, taken, not allowed or unfit, with everything checked before it in order |
| `AcceptanceConditions.SetAcceptedIff` | internal/aidocument/validation.go:268-292 | A value is accepted if and only if the target leads to a rule that stores it and the locale may write it |
| `AcceptanceConditions.SlotAcceptedIff` | internal/aidocument/validation.go:294-306 | Unset, attach and detach are accepted if and only if the source locale asks, and the target leads to a value field or a file field respectively |
| `AcceptanceConditions.BlockAcceptedIff` | internal/aidocument/validation.go:308-361 | Block operations are accepted if and only if the source locale asks, names, kinds, parent and anchor are as required, and a move leaves a forest |
| `AcceptanceConditions.ItemAcceptedIff` | internal/aidocument/validation.go:363-436 | Item operations are accepted if and only if the source locale asks, the item is there (or nowhere, for a new one), its kind is allowed where it goes, and its anchor is another item there |
| `AcceptanceConditions.TranslationAcceptedIff` | internal/aidocument/validation.go:466-488 | A translation operation is accepted if and only if it is alone in a batch of another locale, and creates a missing translation or deletes an existing one |
| `AcceptanceConditions.LocaleFollows` | internal/aidocument/mutation.go:58-63 | Only the translation operations change whether the locale exists, in the document as in the validator |
| `GraphSoundness.MoveGraph` | internal/aidocument/mutation.go:362-405 | Placing a block changes the graph of the tree by its parent only |
| `GraphSoundness.InsertGraph` | internal/aidocument/mutation.go:38-42 | Inserting a block adds exactly it to the graph of the tree |
| `GraphSoundness.DeleteGraph` | internal/aidocument/mutation.go:69-88 | Deleting a block removes exactly its subtree from the graph of the tree |
| `GraphSoundness.InsertItemGraph` | internal/aidocument/mutation.go:100-108 | Placing an item adds it, with its kind, to the graph of the tree, where the anchor is there |
| `GraphSoundness.DeleteItemGraph` | internal/aidocument/mutation.go:110-124 | Deleting an item removes exactly it from the graph of the tree |
| `GraphSoundness.MoveItemGraph` | internal/aidocument/mutation.go:126-153 | Moving an item changes the graph of the tree as the validator changes its own |
| `ValueSoundness.FieldChangeApplies` | internal/aidocument/mutation.go:169-191 | An accepted field write applies without error and keeps every stored value fitting its rule |
| `ValueSoundness.FieldChangeGraph` | internal/aidocument/mutation.go:169-191 | A field or file write leaves the graph of the tree as it was |
| `ValueSoundness.AcceptedTarget` | internal/aidocument/validation.go:223-306 | What validation accepted about a target holds of the rule of the stored value |
| `BatchSoundness.AcceptedKeepsItemsUnique` | internal/aidocument/validation.go:584-593 | Accepted operations keep relation item identifiers unique across the document |
| `BatchSoundness.AcceptedThroughKeeps` | internal/aidocument/validation.go:643-698 | A whole accepted batch keeps the forest, and item identifiers unique if they were |
| `BatchSoundness.StepAgrees` | internal/aidocument/validation.go:643-698 | Where graph and tree agree, an accepted operation other than a field or file write applies; one that applies changes both alike if and only if it is no kind replacement of a block holding relations |
| `BatchSoundness.AcceptedAllIff` | internal/aidocument/validation.go:91-130 | A batch is accepted if and only if validation reports no issue |
| `BatchSoundness.AgreesThroughoutIff` | internal/aidocument/mutation.go:90-98 | Graph and tree agree through an accepted batch if it never replaces the kind of a block holding relations, and of a batch that applies only then |
| `BatchSoundness.BatchAgrees` | internal/aidocument/mutation.go:13-23 | The tree that such a batch leaves has the graph that the effects folded to |
| `GraphCover.StepCovered` | internal/aidocument/mutation.go:25-67 | Any accepted operation that applies, whatever it replaces or moves, keeps the blocks of the tree equal to those of the graph and its items among them |
| `GraphCover.BatchCovered` | internal/aidocument/mutation.go:13-23 | The same over any accepted batch that applies |
| `BatchApplication.StepAppliesIff` | internal/aidocument/mutation.go:25-67 | An accepted operation applies if and only if what it addresses is in the tree: the relation of an item to delete, the item to move, the item whose field or file is written |
| `BatchApplication.StepFitsIff` | internal/aidocument/validation.go:268-306 | An accepted operation that applies keeps every stored value fitting its rule if and only if it lands no item under rules that the item does not fit |
| `BatchApplication.MoveFitsIff` | internal/aidocument/mutation.go:126-153 | A move keeps values fitting if and only if the moved item fits the rules of its target, or is dropped for want of its anchor |
| `BatchApplication.BatchFitsIff` | internal/aidocument/validation.go:268-306 | Values fit throughout an accepted batch if and only if every moved item fits where it lands |
| `BatchApplication.BatchFits` | internal/aidocument/validate_catalog.go:349-436 | Every accepted batch whose moves land on equal rules keeps the kinds of stored values, whatever block kinds it replaces |
| `BatchApplication.BatchAppliesIff` | internal/aidocument/mutation.go:13-23 | An accepted batch whose moved items fit applies if and only if everything it addresses is in the tree at its turn |
| `BatchApplication.LandsAlikeThroughout` | internal/aidocument/validation.go:405-436 | Landing on equal field rules, judged on the validator's graph, is enough for moved items to fit |
| `BatchApplication.AgreeingBatchApplies` | internal/aidocument/mutation.go:13-23 | Where no relations are dropped and moved items fit, an accepted batch applies without error |
| `AcceptanceConditions.BatchAllowed` | internal/aidocument/validation.go:363-436 | An accepted batch that applies leaves every block with a kind of the catalog and every item with a kind its relation takes |
| `AcceptanceConditions.UpdateAllowed` | internal/aidocument/mutation.go:13-23 | From a stored document the catalog allows, a whole update leaves one it allows |
| `DocumentReads.ValueOperationReads` | internal/aidocument/mutation.go:169-211 | A set value reads back in the slot of its owner exactly when its container is there, an unset one is gone; the other slot, other paths and all files read as before |
| `DocumentReads.FileOperationReads` | internal/aidocument/mutation.go:291-320 | An attached file reads back at its slot, a detached slot bound once reads nothing; every other slot and every value read as before |
| `DocumentReads.FileOperationBindsOnce` | internal/aidocument/mutation.go:304-319 | Slots stay bound at most once |
| `DocumentReads.FieldOperationOutline` | internal/aidocument/mutation.go:169-211 | Field and file operations leave blocks, kinds, parents, orders and relation items as they are |
| `DocumentReads.TranslationReads` | internal/aidocument/mutation.go:155-165 | After a translation is deleted no localized value can be read, and shared values and files read as before; creating one changes no read |
| `StructureReads.InsertBlockReads` | internal/aidocument/mutation.go:38-42 | A new block has its kind and parent, holds nothing and has no items; every other block keeps kind, parent, values, files and items |
| `StructureReads.MoveBlockReads` | internal/aidocument/mutation.go:362-405 | A moved block gets the new parent; no block loses a value, a file or an item |
| `StructureReads.DeleteBlockReads` | internal/aidocument/mutation.go:69-88 | Exactly the block and those below it are gone; the others keep kind, parent, values, files and items |
| `StructureReads.ReplaceBlockReads` | internal/aidocument/mutation.go:90-98 | The block has the new kind, its old parent and order, and nothing to read; every other block is unchanged |
| `StructureReads.ItemOperationReads` | internal/aidocument/mutation.go:100-153 | An item operation adds an empty item, takes one, or moves one with its kind, values and files; every other place holds what it held |
| `RelationOrder.ItemOperationOrder` | internal/aidocument/mutation.go:425-453 | In every relation a taken item leaves its list and a placed one goes first or right after its anchor; the others keep their order, and a changed relation is numbered in order |
| `SiblingOrder.ChildOrderIff` | internal/aidocument/mutation.go:376-382 | The child order is the only listing of the children by (order, identifier) |
| `SiblingOrder.ChildrenIff` | internal/aidocument/mutation.go:376-382 | A block is in a child list if and only if it is under that parent |
| `SiblingOrder.ChildrenByOrder` | internal/aidocument/mutation.go:376-382 | In a child list one block comes before another if and only if its order is smaller, or equal with a smaller identifier |
| `RelationOrder.InsertAfterMeaning` | internal/aidocument/mutation.go:383-397 | Placing puts an element first, right behind the first occurrence of its anchor, or last when the anchor is not in the list |
| `SiblingOrder.PlacedOrder` | internal/aidocument/mutation.go:362-405 | Placing a block takes it out of its list and puts it first or right after its anchor; all other lists and relative orders stay |
| `SiblingOrder.DeletedOrder` | internal/aidocument/mutation.go:407-423 | Deletion and renumbering drop the subtree from every list and keep the order of the rest |
| `OrderNumbers.PlacedNumbers` | internal/aidocument/mutation.go:398-405 | A placed block and its new siblings are numbered by their position; every other block keeps its number |
| `OrderNumbers.DeletedNumbers` | internal/aidocument/mutation.go:407-423 | After a deletion every block is numbered by its position among its siblings |
| `SiblingOrder.AcceptedAnchor` | internal/aidocument/validation.go:545-565 | The anchor of an accepted placement is one of the new siblings |
| `SiblingOrder.StepOrder` | internal/aidocument/mutation.go:25-67 | Any accepted operation that applies changes every child list as the plain list model does |
| `SiblingOrder.BatchOrder` | internal/aidocument/mutation.go:13-23 | Over any accepted batch that applies every child list is what the plain list model makes of it |
| `CanonicalOrder.CanonicalNodes` | internal/aidocument/clone.go:5-95 | The cloning, grouping, sorting and recursive appending compute the canonical listing, whose content `CanonicalContent` and whose order the rows below describe |
| `CanonicalOrder.GroupByParent` | internal/aidocument/clone.go:55-67 | The grouping loop separates the roots and fills each parent's children in input order |
| `CanonicalOrder.AppendSubtree` | internal/aidocument/clone.go:84-90 | The recursive closure appends the subtree listing, and ends |
| `CanonicalOrder.DetectParentCycles` | internal/aidocument/validate_document.go:277-291 | Accepts if and only if no parent link among the nodes lies on a cycle |
| `CanonicalOrder.ReachesRoot` | internal/aidocument/validate_document.go:279-288 | The walk of one node succeeds if and only if the node reaches a root |
| `CanonicalOrder.PreorderMembers` | internal/aidocument/clone.go:84-94 | The listing holds exactly the nodes that reach a root |
| `CanonicalOrder.CanonicalCompleteIff` | internal/aidocument/clone.go:5-95 | Every node is listed exactly once if and only if there is no parent cycle |
| `CanonicalOrder.SubtreesAreContiguous` | internal/aidocument/clone.go:86-94 | Every block heads a contiguous listing of exactly the blocks under it |
| `CanonicalOrder.ParentsFirst` | internal/aidocument/clone.go:86-94 | A block is listed after its parent |
| `CanonicalOrder.RootsInOrder` | internal/aidocument/clone.go:68-79 | The roots appear in strictly increasing (parent, order, identifier) |
| `CanonicalOrder.KidsInOrder` | internal/aidocument/clone.go:68-82 | The children of every listed block appear as the sorted children, strictly increasing |
| `CanonicalOrder.CanonicalIdempotent` | internal/aidocument/clone.go:5-95 | The canonical listing of a canonical listing is itself, even where nodes were cut off by a cycle |
| `CanonicalOrder.CanonicalOfPermutation` | internal/aidocument/clone.go:5-95 | The canonical listing does not depend on the order of the input nodes |
| `CanonicalContent.CanonicalKeepsContent` | internal/aidocument/clone.go:9-54 | Listing keeps every block and item with its kind, the same entries and the same files; entries are listed in the order of their names |
| `CanonicalContent.CanonicalReads` | internal/aidocument/clone.go:9-54 | At every place, slot, field and path a value reads the same before and after the listing, and so does every file |
| `CanonicalContent.CanonicalKeepsFrames` | internal/aidocument/clone.go:5-95 | Listing keeps every kind, parent and order number of blocks and every kind and order number of items, which it lists by (order, identifier) |
| `CanonicalContent.CanonicalRelationsInOrder` | internal/aidocument/clone.go:51-53 | Every listed block has its relations in the order of their names |
| `Editing.PlaceAmong` | internal/aidocument/mutation.go:383-397 | Builds the sibling list with the block first, right after its anchor, or last when the anchor is absent |
| `Editing.PlaceRelationItemAfter` | internal/aidocument/mutation.go:425-453 | Lists the other items with the moved one first or after its anchor, dropped when the anchor is absent, and numbers them |
| `Editing.Editor.PlaceBlockAfter` | internal/aidocument/mutation.go:362-405 | The loops reparent the block and number its new siblings in place |
| `Editing.Editor.SubtreeToDelete` | internal/aidocument/mutation.go:70-79 | The deletion fixpoint over the node list yields exactly the block and its descendants |
| `Editing.Editor.DeleteBlockSubtree` | internal/aidocument/mutation.go:69-88 | Keeps exactly the other blocks, renumbered |
| `Editing.Editor.RenumberBlockOrders` | internal/aidocument/mutation.go:407-423 | Sorts in place and numbers each block among those of its parent |
| `Editing.Editor.ReplaceBlockKind` | internal/aidocument/mutation.go:90-98 | Changes the kind and clears values, files and relations, or reports the missing block |
| `Editing.Editor.PlaceItem` | internal/aidocument/mutation.go:331-346 | Finds or creates the relation and places the item in it |
| `Editing.Editor.RemoveItem` | internal/aidocument/mutation.go:110-124 | Takes the item out and renumbers the rest, or reports what is missing |
| `Editing.Editor.MoveRelationItem` | internal/aidocument/mutation.go:126-153 | Takes the item, renumbers its old relation and places it in the new one |
| `Editing.Editor.DeleteTranslation` | internal/aidocument/mutation.go:155-165 | Clears the localized values of every block and item |
| `Editing.MutateFieldValues` | internal/aidocument/mutation.go:213-236 | The loop over the values writes, removes or appends as the lens laws have it, or reports the traversal error |
| `Editing.MutateValuePath` | internal/aidocument/mutation.go:238-289 | The recursion down a path through objects and lists |
| `Editing.BindFile` | internal/aidocument/mutation.go:304-319 | The loop over the bindings replaces, removes or appends one; what it makes readable is `DocumentReads.FileOperationReads` |
| `Editing.Editor.ChangeField` | internal/aidocument/mutation.go:169-191 | Changes the addressed block only, leaves the graph as it was, and for a value write everything but values; an error changes nothing |
| `Editing.Editor.Apply` | internal/aidocument/mutation.go:25-67 | Applies one operation, with an error exactly when the operation has no effect to give |
| `Editing.DocumentAfterOperations` | internal/aidocument/mutation.go:13-23 | Lists canonically, applies a validated batch in place and lists canonically again; it fails exactly when an operation does |
| `DocumentUpdate.ListingKeeps` | internal/aidocument/clone.go:5-95 | Listing any loaded nodes canonically keeps their graph and loses no node |
| `DocumentUpdate.OpenedKeeps` | internal/aidocument/clone.go:5-95 | Opening any loaded document gives a loaded document with the same graph |
| `DocumentUpdate.CanonicalKeepsItemOrder` | internal/aidocument/clone.go:44-49 | The final sort never undoes a placement: items in order stay where they are |
| `DocumentUpdate.ListingShowsOrder` | internal/aidocument/clone.go:55-94 | The canonical listing shows the children of every block, and the top blocks, in child order |
| `DocumentUpdate.UpdateOrder` | internal/aidocument/mutation.go:13-23 | For every loaded document and any accepted batch that applies, the result has the blocks, kinds and parents validation ended with, and lists the children of every block, and the top blocks, as the list model has them |
| `DocumentUpdate.UpdateAgrees` | internal/aidocument/mutation.go:13-23 | If no kind of a block holding relations is replaced, the graph of the result is the one validation ended with |
| `DocumentUpdate.UpdateFits` | internal/aidocument/mutation.go:13-23 | If moved items fit where they land, the update succeeds if and only if what it addresses is in the tree at its turn, and stored values still fit |
| `DocumentUpdate.UpdateSound` | internal/aidocument/mutation.go:13-23 | Under both conditions the update succeeds and its result is a loaded document again |
| `CanonicalContent.UpdateReads` | internal/aidocument/mutation.go:13-23 | In a whole update neither listing changes a read: the batch meets what the stored document says, and the stored result says what the batch left |
| `ItemConservation.StepItems` | internal/aidocument/mutation.go:100-153 | From unique item identifiers, where graph and tree agree: an accepted insert adds exactly the new item, a delete takes exactly the named one, a move keeps every item with its payload |
| `ItemConservation.MoveConservesIff` | internal/aidocument/mutation.go:126-153 | A move conserves all items with their payload if and only if the target does not hold another item of that identifier |
| `ItemConservation.AbsentAnchorLosesItem` | internal/aidocument/mutation.go:434-445 | A placement at an anchor the relation lacks loses the item, so conservation rests on the anchor check |
| `Limits.TwinsAreLost` | internal/aidocument/validate_document.go:207-238 | Identifiers unique only within a block do not suffice: on a concrete document a move that validation accepts loses the item it lands on |
| `Limits.KindReplacementFails` | internal/aidocument/mutation.go:90-98 | A concrete loaded document and accepted batch, kind replacement then item delete, that fails to apply |
| `Limits.MoveMeetsOtherRules` | internal/aidocument/mutation.go:263-289 | A concrete loaded document and accepted batch, a move to other field rules then a nested set, that fails on the value brought along |
| `LocaleAuthority.WriteReads` | internal/aidocument/mutation.go:169-191 | A value write keeps the structure and every read that it does not reach |
| `LocaleAuthority.NonSourceOperations` | internal/aidocument/validation.go:216-221 | In a non-source locale only value sets are accepted, or one translation operation alone |
| `LocaleAuthority.NonSourceBatch` | internal/aidocument/validation.go:288-306 | An accepted batch in a non-source locale keeps blocks, kinds, parents, orders, items and files, and changes values only where a locale-owned translatable rule covers the path |
| `TextReplacement.ReplaceIsSplice` | internal/aidocument/text_edit.go:278-284 | Replacing text splices the replacement in at the leftmost non-overlapping occurrences and keeps all other text |
| `TextRewriting.ReplaceMeaning` | internal/aidocument/text_edit.go:278-284 | Replacing cuts the text at each occurrence, always the first one left, and puts the replacement into the cuts; there is one cut for each counted occurrence |
| `TextReplacement.ReplaceInlineText` | internal/aidocument/text_edit.go:310-329 | The loop rewrites text items, recurses into marks and drops what is left empty |
| `TextReplacement.ReplaceKeepsMarks` | internal/aidocument/text_edit.go:310-329 | A replacement rewrites each text leaf by itself and keeps its marks |
| `TextReplacement.ReplaceNoHollow` | internal/aidocument/text_edit.go:310-329 | The result has a mark without children if and only if the input had one |
| `TextRewriting.ReplaceLeavesMeaning` | internal/aidocument/text_edit.go:310-329 | Every leaf keeps its place and marks; a text leaf has its own text replaced and goes when nothing is left of it |
| `TextRewriting.ReplaceKeepsItems` | internal/aidocument/text_edit.go:310-329 | At every depth the items that stay keep their order and what they are: no mark is split, merged or moved, and exactly what is left empty goes |
| `TextEdits.MapValueText` | internal/aidocument/text_edit.go:288-308 | The recursion through lists and objects rewrites the texts of a value; what each text becomes is the next two rows |
| `TextRewriting.RewrittenInside` | internal/aidocument/text_edit.go:288-308 | At every position inside a value there is something after an edit exactly if there was before: a text with its occurrences replaced, rich text edited leaf by leaf, any other scalar as it was, lists and objects with the same names |
| `TextRewriting.RewrittenReads` | internal/aidocument/text_edit.go:210-216 | The same at every named path |
| `TextSelecting.CountEditSums` | internal/aidocument/text_edit.go:238-276 | What an edit counts in a value is the sum over all texts inside it, each text once |
| `TextSelecting.CountInlineLeaves` | internal/aidocument/text_edit.go:265-276 | A replacement counts in each text leaf of rich text by itself |
| `TextSelecting.LinksByOrigin` | internal/aidocument/text_edit_format.go:84-128 | Telling links apart by the number of their item counts the links that hold anything, also where neighbours share an address |
| `TextSelecting.EditSucceedsIff` | internal/aidocument/text_edit.go:140-191 | An edit is carried out if and only if it is well formed, selects something, selects it once unless it is for all occurrences, and formats no plain text |
| `TextEdits.CollectFields` | internal/aidocument/text_edit.go:120-138 | The nested loops collect the localized values of blocks and items in document order |
| `TextEdits.TextEditor.Match` | internal/aidocument/text_edit.go:146-161 | Finds which fields an edit matches and how often in all |
| `TextEdits.TextEditor.ApplyTextEdit` | internal/aidocument/text_edit.go:140-175 | Refuses a malformed, unmatched or ambiguous edit, and otherwise rewrites the matched fields in place |
| `TextEdits.PlanTextEdits` | internal/aidocument/text_edit.go:101-118 | Runs the edits one after another and emits a write per changed field, or nothing when an edit fails |
| `TextEditPlan.EditAllFolds` | internal/aidocument/text_edit.go:101-118 | After a successful batch each field holds the left-to-right fold of the edits over it |
| `TextEditPlan.EditableFieldsIff` | internal/aidocument/text_edit.go:120-138 | The editable fields are exactly the localized values of blocks and relation items |
| `TextEditPlan.FieldsInOrder` | internal/aidocument/text_edit.go:120-138 | The editable fields come in document order: block by block, within a block its own and then those of its items, relation by relation and item by item |
| `TextEditPlan.PlanWritesOnce` | internal/aidocument/text_edit.go:110-116 | The plan sets each matched field once, to the fold of the edits, and no other field |
| `TextEditPlan.PlanGivesFold` | internal/aidocument/text_edit.go:101-118 | Applying the plan gives every localized value the fold of the edits and keeps the structure and all shared values |
| `PlannedUpdate.UpdateGivesFold` | internal/aidocument/text_edit.go:101-118 | Through a whole update, from stored document to stored result: every localized value is the fold of the edits over it, every shared value is as it was, and so are blocks, kinds, parents and items |
| `PlannedUpdate.UpdateKeepsFiles` | internal/aidocument/text_edit.go:101-118 | Through a whole planned update every file stays bound where it was |
| `PlanAcceptance.PlanAcceptedIff` | internal/aidocument/validation.go:268-292 | Validation accepts a plan if and only if every rewritten value may be stored under its rule |
| `PlanAcceptance.ReplacementsAccepted` | internal/aidocument/text_edit.go:278-329 | Validation accepts every plan of replacements over storable values, unless a list names its items by their text |
| `PlanAcceptance.ReplaceKeepsInline` | internal/aidocument/text_edit.go:310-329 | A replacement keeps rich text valid: nesting, marks, atoms, and no mark without children |
| `EmailChange.NextKeeps` | internal/account/account_email_change_reconcile_request.go:90-364 | Every step, crash and outside event keeps the invariant that ties request, identity, notice and running flow; other addresses come and go, verified or not |
| `EmailChange.CanonicalMovesSafely` | internal/account/account_email_change_reconcile_request.go:177-249 | In every run the canonical email moves only under the committed request with exactly that pair, to a verified or proven address, and is verified afterwards |
| `EmailChange.RequestOutlivesNotice` | internal/account/account_email_change_reconcile_request.go:251-289 | In every run a request under which the canonical email moved stays until its notice is published or the identity is gone; notices are only sent after the move |
| `EmailChange.InFlightRefuses` | internal/account/account_email_change_stage.go:113-188 | Meanwhile staging, cancelling and selecting another proven address change nothing |
| `EmailChange.WorldMoves` | internal/account/account_email_change_reconcile_request.go:90-146 | Between steps the pending address and the listed ones may become anything that keeps the canonical email and its verification, outside the window before the write; the clock advances, the identity may go, a flow may crash, an idle one may start |
| `EmailChange.WriteVerifiedIff` | internal/account/account_email_change_reconcile_request.go:233-249 | The write that makes a pending address canonical leaves it verified if and only if it still was at the write |
| `EmailChange.WithdrawnInWindow` | internal/account/account_email_change_reconcile_request.go:177-249 | A concrete run: a verification taken back between the read and the write would move the canonical email to an unverified address, so the assumption on that window is needed |
| `EmailReconciling.DecidedIdleIff` | internal/account/account_email_change_reconcile_request.go:90-146 | A reconcile ends at its first look if and only if the request waits for proof or is stuck |
| `EmailReconciling.WaitsOrStuckIff` | internal/account/account_email_change_reconcile_request.go:90-146 | When a request waits (seven days unproven pending, else fifteen minutes) and when it is stuck, told of the stored fields alone |
| `EmailReconciling.ClearedFrame` | internal/account/account_email_change_reconcile_request.go:303-338 | Dropping a request releases its address, touches neither the canonical email nor any other address, and writes only when there is something to release |
| `EmailReconciling.EmailChangeLifecycle.ReconcileRequest` | internal/account/account_email_change_reconcile_request.go:60-88 | Ends as its calls end; succeeds if and only if there is no such request, the request still waits, or it is gone without a conflict, and reports a conflict if and only if it is gone because another identity had the proven address |
| `EmailReconciling.EmailChangeLifecycle.VerifyAndReconcile` | internal/account/account_email_change_reconcile_request.go:18-58 | Reconciles the request of exactly that pair; without one it succeeds if and only if the address is canonical and verified already |
| `EmailOutcomes.ProvenBecomesCanonical` | internal/account/account_email_change_reconcile_request.go:177-196 | For an exact proven pending address that no other identity has: the address becomes canonical with nothing pending, the notice is published and the request deleted, each only after the step before; an error after the write keeps the request |
| `EmailOutcomes.ProvenConflicts` | internal/account/account_email_change_reconcile_request.go:198-231 | When another identity has the proven address, found before the write or by it, the canonical email stays, the address is released and the request dropped |
| `EmailOutcomes.ProvenFails` | internal/account/account_email_change_reconcile_request.go:177-231 | When the search or the write fails, or the identity cannot be read after a conflict, nothing changes |
| `EmailOutcomes.CanonicalEnds` | internal/account/account_email_change_reconcile_request.go:148-175 | When the address is canonical and verified already, a pending copy of it is cleared, the notice published and the request deleted, in this order |
| `EmailOutcomes.OutdatedEnds` | internal/account/account_email_change_reconcile_request.go:110-145 | When the canonical email is a third one, or the request outlived seven days pending or fifteen minutes without, the address is released and the request dropped |
| `EmailOutcomes.GoneEnds` | internal/account/account_email_change_reconcile_request.go:96-102 | When the identity is gone the request is deleted and nothing else changes |
| `EmailOutcomes.NothingChanges` | internal/account/account_email_change_reconcile_request.go:90-146 | When the identity cannot be read, while the request waits and when it is stuck, nothing changes |
| `EmailOutcomes.DropEnds` | internal/account/account_email_change_reconcile_request.go:291-338 | A drop releases the address where the identity holds it and deletes the request only after that; every other address and the canonical email stay |
| `EmailReconciling.EmailChangeLifecycle.Reconcile` | internal/account/account_email_change_reconcile_request.go:90-146 | The branches of the flow, each read and write a step of the machine; where it ends and its result are fixed by what it read and how its calls ended |
| `EmailReconciling.EmailChangeLifecycle.CanonicalRequested` | internal/account/account_email_change_reconcile_request.go:148-175 | Completes a change whose address is canonical already, or reports that it is stuck |
| `EmailReconciling.EmailChangeLifecycle.VerifiedPending` | internal/account/account_email_change_reconcile_request.go:177-196 | Applies a verified pending address, or drops the request on a conflict; the result says which, and an error exactly when the request is still there |
| `EmailReconciling.EmailChangeLifecycle.Complete` | internal/account/account_email_change_reconcile_request.go:251-289 | Publishes the notice only for a converged identity and deletes the request only after it |
| `EmailReconciling.EmailChangeLifecycle.Drop` | internal/account/account_email_change_reconcile_request.go:291-301 | Releases the address, then deletes the request |
| `EmailReconciling.EmailChangeLifecycle.StageOrCancel` | internal/account/account_email_change_stage.go:25-55 | Succeeds if and only if the identity is as the hook saw it and no proof is in flight (or the pair is staged already), and then the request is gone, kept, or a new one for exactly that pair; a refusal changes nothing |
| `EmailReconciling.EmailChangeLifecycle.ReplaceStage` | internal/account/account_email_change_stage.go:152-188 | Keeps the same pair, refuses in flight, otherwise replaces the request |
| `EmailReconciling.EmailChangeLifecycle.ApplyProvenCandidate` | internal/account/account_email_change_proven_candidate.go:50-71 | Refused without effect unless the identity is there and the address usable; otherwise ends as its calls end, with an error exactly when a request is left |
| `EmailOutcomes.SelectEnds` | internal/account/account_email_change_proven_candidate.go:50-71 | Selecting a proven address commits its request in any case; then the address becomes canonical with nothing pending, the notice is published and the request deleted, each only after the step before; a conflict deletes the request |
| `EmailOutcomes.SelectCanonicalEnds` | internal/account/account_email_change_proven_candidate.go:153-176 | Selecting the canonical address completes an active request for it and drops one for an unproven other address |
| `EmailOutcomes.SelectRefused` | internal/account/account_email_change_proven_candidate.go:178-200 | A request whose address is verified is not overtaken by another selection |
| `EmailOutcomes.MaterializedFrame` | internal/account/account_email_change_proven_candidate.go:231-256 | The verified address takes the place of the first entry for it or goes last; every other entry stays where it is |
| `EmailReconciling.EmailChangeLifecycle.StageProven` | internal/account/account_email_change_proven_candidate.go:114-151 | Commits a request for the pair, or refuses while another proof is in flight |
| `EmailReconciling.EmailChangeLifecycle.WriteProven` | internal/account/account_email_change_proven_candidate.go:202-227 | Writes the identity with the materialized address; a conflict drops the request |
| `ReconcileScan.Reconcile` | internal/account/account_email_change_reconciler.go:33-81 | The scan ends, visits in strictly increasing (created, identifier) order, and visits a request of its start if and only if it is there when reached |
| `ReconcileScan.PageCovers` | internal/account/account_email_change_reconciler.go:44-54 | What a page leaves out of its range comes after its last request |
| `AccountSafety.OwnStep` | internal/account/account_admin_roles.go:72-103 | A step changes its target only, keeps an effective administrator, and loses none unless it holds the administrator fence |
| `AccountSafety.OtherStep` | internal/account/user_deletion_cleanup.go:27-75 | What a flow has checked stays true while other accounts change |
| `AccountSafety.FlowsInterleave` | internal/account/account_admin_roles.go:66-76 | Any number of flows run at once: a task starts when no running one touches its accounts, flows step and crash in any order, and only role changes and deletions past their first step contend for the administrator fence |
| `AccountSafety.AdminsNeverRunOut` | internal/account/user_deletion_cleanup.go:27-75 | Across any interleaving with failures and crashes, effective administrators never run out once there is one |
| `AccountSafety.ActivationRespectsDeletion` | internal/account/account_lifecycle_reconciler.go:118-146 | In every interleaving no step activates an identity whose deletion is scheduled or in recovery confirmation |
| `AccountSafety.EnqueuedOnce` | internal/account/user_deletion_dispatch.go:65-95 | In every interleaving the commands of a request are enqueued at most once, and never for a cancelled or recovered one |
| `AccountSafety.EnqueuedWhenDue` | internal/account/user_deletion_dispatch.go:49-60 | What is enqueued is a due request of an inactive identity, and the same step removes it |
| `AccountService.AloneIsRun` | internal/account/store.go:289-301 | Every operation run alone is a run of the machine, so the theorems about runs hold of it |
| `AccountService.AloneKeeps` | internal/account/user_deletion_cleanup.go:27-75 | Every operation changes its target only, keeps an effective administrator and the order of deletion requests |
| `AccountService.Service.ValidateLastActiveAdminDeletion` | internal/account/user_deletion_cleanup.go:27-75 | The loop over listed admins allows the removal if and only if the target is no admin or another onboarded, active, unbanned one remains whose deletion is neither scheduled nor up for recovery |
| `AccountService.Service.ReplaceAccountRole` | internal/account/account_admin_roles.go:139-164 | Replaces exactly the role of the target if and only if the actor is an administrator, the role differs and the removal is allowed; an effective administrator remains |
| `AccountService.FailedRoleChange` | internal/account/account_admin_roles.go:72-103 | A role change whose checks, write or commit fails leaves every role as it was |
| `AccountService.Service.StoreDeletionRequest` | internal/account/account_lifecycle_deletion.go:151-167 | Does nothing if and only if a deletion is scheduled or in recovery; otherwise stores exactly the new request for confirmation, which leaves nothing pending or due |
| `AccountService.Service.ScheduleConfirmedDeletion` | internal/account/account_lifecycle_deletion.go:332-350 | Schedules if and only if the request awaits confirmation and the removal is allowed; then it is due thirty days later and nothing else changed |
| `AccountService.Service.StoreImmediateDeletion` | internal/account/user_deletion_cleanup.go:179-205 | Leaves a deletion pending if and only if one was, or the target is onboarded and its removal allowed; a new one is due at once |
| `AccountService.Service.StartRecovery` | internal/account/account_lifecycle_recovery.go:67-104 | Moves a deletion to recovery confirmation if and only if it is pending and not due yet; it stays pending and keeps its deadline |
| `AccountService.Service.TerminalTransition` | internal/account/account_lifecycle_deletion.go:394-406 | Ends a deletion if and only if the request is scheduled (to cancel) or in recovery confirmation (to recover): it is then cancelled or recovered, without deadline, neither pending nor due, and on record as ended |
| `AccountService.Service.DispatchScheduledUserDeletion` | internal/account/user_deletion_dispatch.go:19-60 | Dispatches if and only if the request is due, the identity inactive and the removal allowed; the request is gone with it |
| `AccountService.Service.EnsureScheduledIdentityInactive` | internal/account/account_lifecycle_reconciler.go:67-92 | Afterwards the identity of a pending deletion is inactive; a state changes only then, and no effective administrator is lost |
| `AccountService.Service.EnsureTerminalIdentityActive` | internal/account/account_lifecycle_reconciler.go:118-146 | Activates if and only if the identity is inactive and unbanned and its deletion ended later; deactivates none |
| `AccountService.Service.BanAccount` | internal/account/user_state_service.go:33-67 | Bans if and only if the target is an active, unbanned user or author; it is then inactive and banned, its deletion as it was, and no administrator is lost |
| `AccountService.Service.ClearUserBan` | internal/account/user_timed_ban.go:21-40 | Lifts a ban if and only if there is one and no deletion is pending |
| `AccountService.Service.ClearExpiredTimedBan` | internal/account/user_timed_ban.go:47-110 | Lifts a timed ban if and only if it expired and no deletion is pending |

## Left out

- Identifiers, kinds, file references and email addresses are natural numbers, 0 for the absent one; the order of identifier strings becomes the order of numbers, and string-level checks of identifiers are not modelled.
- Text is a sequence of symbols, not UTF-8 bytes; a non-text leaf takes one symbol.
- The catalog is given as index maps; that its list form has no duplicates is not modelled.
- `sort.Slice` is modelled by a stable sort; the keys that order blocks, relations, items and entries are distinct in valid documents, and only where a document names a field twice does stability show in `CanonicalContent.CanonicalReads`.
- The order of file bindings in the canonical listing (a string key) is not modelled; the bindings are kept as they are.
- Value writes are modelled on values instead of through pointers: the recursion and its effect are the same, sharing of memory is not captured.
- Document revisions, previews, error texts, issue handles, JSON and wire encoding: no property beyond case analysis.
- Validation.ValidateOperations: covers the loop over operations; the envelope, document and revision checks before it are not modelled, and the start graph is taken to be a forest, which document validation ensures.
- BatchApplication.LandsAlikeThroughout: equal rules are sufficient for a moved item to fit; the exact condition, which looks at the item, is `BatchApplication.MoveFitsIff`.
- Which numbers, mark parameters and atoms are well formed, and which string names a list item, are functions the validator is given.
- EmailChange: one identity at a time; addresses are normalized, the `.local` rule and projection tables are outside, and whether an address is proven or used elsewhere is an outside answer.
- EmailChange assumes that Kratos neither changes a canonical email by itself nor takes its verification back, nor that of the address a running flow is about to write; `EmailChange.WithdrawnInWindow` shows that this window matters. A crashed flow leaves no call in flight.
- ReconcileScan.Reconcile: the table may lose requests at any time and gains them only above the bound read at the start.
- AccountLifecycle: tokens and their expiry, sessions, audit records and email jobs are outside; a transition by token may be tried at any time, which only adds runs.
- AccountLifecycle: whether the acting administrator is live is reduced to its role, and failures of compensation count as crashes.
- The worker that tombstones a dispatched account, registration internals and retention of members who never onboarded are not modelled.
- cmd, connect handlers, artist content, SpiceDB, Kratos and Postgres implementations: composition and ports only.
