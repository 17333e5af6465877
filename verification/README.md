# SQL to relational algebra, modelled in Dafny

`sql2ra.py` translates an already tokenized `SELECT DISTINCT … FROM … [WHERE …]`
statement into a relational-algebra expression. It works in three steps:

1. It splits the statement's tokens into projection, selection and relation
   tokens (`__separate_tokens`, `__get_all_relation_tokens__`).
2. It inserts into a fresh intermediate `Tree` the relations
   (`__create_relation`), then one selection node per WHERE comparison
   (`__create_valexprbinaryop`, `__create_selection`), then one projection
   node per selected attribute (`__create_projection`).
3. It folds the tree from its leftmost leaf upwards (`create_ra_from_ra_tree`
   and the three `__create_*_parts` helpers). The fold overwrites node payloads
   and kinds in place.

The model has these modules:

- `Wrappers` (wrappers.dfy): `Option`, `Result` and the Python exceptions the
  code can raise, as values.
- `Tokens` (tokens.dfy): the tokens handed over by the tokenizer.
- `RaAst` (ra.dfy): the algebra nodes the code builds and the condition table
  `cond_dict`. It also holds `Canonical`, the expected translation of a query:
  the left-deep cross product of the relations, one selection holding the
  left-nested conjunction of all conditions, and one projection on the names.
- `RaTree` (ratree.dfy): the tree as an arena of nodes addressed by index,
  its well-formedness (every node's distance to the top shrinks along
  `parent`), and the insertion rules stated on arena values.
- `RaFold` (fold.dfy): the fold, stated on arena values.
- `Assembler` (tree.dfy): the class `Tree`. Its fields are the node arena and
  the root (the global `ra_tree`). Its methods insert and fold in place and
  are proved equal to the `RaTree`/`RaFold` functions.
- `Layout` (layout.dfy): the layout a sequence of insertions produces, and
  the proof that folding that layout gives `Canonical`.
- `QuerySpec` (query.dfy): reference definitions of what each stage extracts
  from the tokens (the three token groups, the relations with their aliases,
  the conditions, the projected names).
- `Sql2Ra` (sql2ra.dfy): the module-level functions of `sql2ra.py` as
  imperative methods. Each is proved to compute its `QuerySpec` definition.
  `Translate` is proved to return `Canonical` of the extracted relations,
  conditions and names, or the first error.

## Model

| member | source | states |
|---|---|---|
| `RaAst.Code` | sql2ra.py:6-9 | the opcodes of the condition table: 43 exactly for "=" and 11 exactly for "and" |
| `RaAst.LookupCond` | sql2ra.py:6-9 | a key is found exactly when it is "=" or "and"; it maps to the equality operator exactly when it is "=", and the operator found carries the table's opcode for that key |
| `RaAst.CrossChain` | sql2ra.py:108-112 | one relation is itself; more relations give a cross product whose right operand is the last relation |
| `RaAst.AndChain` | sql2ra.py:114-117 | one condition is itself; more give an "and" whose right operand is the last condition |
| `RaAst.AttrList` | sql2ra.py:97-103 | one unqualified attribute reference per name, in order |
| `Tokens.Lower` | sql2ra.py:249 | ASCII lower-casing: same length, every ASCII capital lowered, every other character kept. Python's `lower()` also maps non-ASCII letters, but none of them lowers to a letter of "from" or "where", so both comparisons the code makes come out the same |
| `Tokens.Prefix` | sql2ra.py:257 | `s[:n]`: a prefix of s of length min(n, len(s)) |
| `RaTree.SetCell` | sql2ra.py:110-111 | overwriting a node's payload and kind leaves every link and every other node unchanged |
| `RaTree.SetPayload` | sql2ra.py:88 | overwriting a node's payload leaves its kind, every link and every other node unchanged |
| `RaTree.Plant` | sql2ra.py:169-170 | the tree holding one relation node with no links, which is the root |
| `RaTree.Wrap` | sql2ra.py:30-38 | the new node is the root; the old root is its left child, with its `parent` set to it; its `right` is empty; no other node changes |
| `RaTree.Cartesian` | sql2ra.py:70-83 | the new cross node is the root, with the old root on its left and a new relation node on its right; both have their `parent` set to it; no other node changes |
| `RaTree.FillRight` | sql2ra.py:64-66 | the root stays; its `right` is a new relation node whose `parent` is the root; no other node changes |
| `RaTree.InsertRelationSpec` | sql2ra.py:60-68 | inserting a relation leaves a root inside the arena |
| `RaTree.InsertSpec` | sql2ra.py:27-38 | any insertion leaves a root inside the arena |
| `RaTree.PlantWellFormed` | sql2ra.py:169-170 | the one-node tree is well formed |
| `RaTree.WrapWellFormed` | sql2ra.py:30-38 | wrapping the root keeps the tree well formed, every old node one level deeper |
| `RaTree.CartesianWellFormed` | sql2ra.py:70-83 | a new cross node over the root keeps the tree well formed |
| `RaTree.FillRightWellFormed` | sql2ra.py:64-66 | filling the root cross node's right slot keeps the tree well formed |
| `RaFold.AsName` | sql2ra.py:96-99 | a payload is a string (an attribute name or the marker "X") exactly when it is a name or the cross marker |
| `RaFold.Fold` | sql2ra.py:46-58 | the fold returns the top node's payload or dispatches on the node's kind; it never changes a link |
| `RaFold.SelectInto` | sql2ra.py:85-89 | the parent becomes `Select(parent condition, child)` and the fold goes on from it; links unchanged |
| `RaFold.RelationParts` | sql2ra.py:108-127 | cross parents take the cross product of both operands, selection chains are conjoined into the grandparent, anything else goes to the projection rule; links unchanged |
| `RaFold.SelectionParts` | sql2ra.py:85-92 | a selection under a selection is selected into it, under a projection projected, otherwise None; links unchanged |
| `RaFold.ProjectionParts` | sql2ra.py:94-106 | at the top, a projection on the list or the single name; under a projection, the two names merge into the grandparent; links unchanged |
| `Assembler.LastLeft` | sql2ra.py:40-44 | following `left` from a node ends at a node with no left child |
| `Assembler.Tree.constructor` | sql2ra.py:235-237 | a fresh, empty, well-formed tree |
| `Assembler.Tree.Plant` | sql2ra.py:169-170 | the first relation becomes the one-node tree |
| `Assembler.Tree.InsertNode` | sql2ra.py:27-38 | the arena afterwards is exactly `InsertSpec` of the arena before, and stays well formed |
| `Assembler.Tree.InsertRelations` | sql2ra.py:60-68 | the arena afterwards is exactly `InsertRelationSpec` of the arena before: a new cross node over a relation root or a full cross root, the right slot filled when empty, no change otherwise |
| `Assembler.Tree.InsertCartesian` | sql2ra.py:70-83 | a new cross node holding the old root (left) and the new relation (right) becomes the root |
| `Assembler.Tree.LastLeftChild` | sql2ra.py:40-44 | the leftmost leaf below the root: in the arena and without a left child |
| `Assembler.Tree.CreateRa` | sql2ra.py:46-58 | result and final nodes equal `Fold`; root, distances and links kept |
| `Assembler.Tree.CreateRelationParts` | sql2ra.py:108-127 | result and final nodes equal `RelationParts` |
| `Assembler.Tree.CreateSelectionParts` | sql2ra.py:85-92 | result and final nodes equal `SelectionParts` |
| `Assembler.Tree.CreateProjectionParts` | sql2ra.py:94-106 | result and final nodes equal `ProjectionParts` |
| `Layout.SelWrappers` | sql2ra.py:226-227 | one selection node per condition, in order |
| `Layout.ProjWrappers` | sql2ra.py:190-194 | one projection node per name, in order |
| `Layout.AddRelations` | sql2ra.py:168-172 | inserting relations keeps the root in the arena, and a non-empty list always leaves a root |
| `Layout.AddRelationsStep` | sql2ra.py:168-172 | each further relation is planted when there is no tree and inserted otherwise |
| `Layout.WrapAll` | sql2ra.py:30-38 | wrapping keeps the root in the arena |
| `Layout.WrapAllSnoc` | sql2ra.py:30-38 | one more wrapper is one more insertion around the current root |
| `Layout.SelWrapStep` | sql2ra.py:221-227 | one more condition is one more selection insertion |
| `Layout.ProjWrapStep` | sql2ra.py:190-194 | one more name is one more projection insertion |
| `Layout.BuiltPlant` | sql2ra.py:169-170 | the one-node tree has the layout of a single relation |
| `Layout.BuiltRelation` | sql2ra.py:60-83 | a further relation extends the left-deep cross layout by one relation node and one cross node |
| `Layout.BuiltWrap` | sql2ra.py:30-38 | a selection or projection becomes the new outermost wrapper; nothing below it changes |
| `Layout.BuiltRelations` | sql2ra.py:168-172 | relations inserted into no tree are laid out as a left-deep cross chain in order |
| `Layout.BuiltWrapAll` | sql2ra.py:30-38 | selections and projections stack above the relations in insertion order |
| `Layout.LastLeftCrosses` | sql2ra.py:40-44 | following `left` from any cross node reaches the first relation |
| `Layout.LastLeftWrappers` | sql2ra.py:40-44 | following `left` through the wrappers reaches the relation level |
| `Layout.LastLeftIsFirstRelation` | sql2ra.py:40-44 | the fold of a built tree starts at the first relation |
| `Layout.ProjDispatch` | sql2ra.py:51-58 | a relation or selection node under a projection hands over to the projection rule |
| `Layout.ProjPhase` | sql2ra.py:94-106 | the projection nodes fold into no projection, a projection on one name, or one on the two names in SELECT order; three or more names end in `NotAnExpression` |
| `Layout.ProjTwo` | sql2ra.py:101-106 | two projection nodes merge into one attribute list, first name first |
| `Layout.SelMerge` | sql2ra.py:114-120 | a selection under a selection is conjoined into it (earlier condition left) and the fold moves up |
| `Layout.SelectOnce` | sql2ra.py:122-124 | a selection not under a selection becomes `Select(condition, input)` |
| `Layout.SelClose` | sql2ra.py:122-124 | the last selection node holds one `Select` of the conjunction of every condition |
| `Layout.SelPhase` | sql2ra.py:114-124 | k selection nodes fold into exactly one `Select` holding the left-nested conjunction of the conditions in clause order |
| `Layout.AboveRelations` | sql2ra.py:114-127 | above the relations the wrappers fold into at most one selection and at most one projection |
| `Layout.CrossStep` | sql2ra.py:108-112 | a cross node becomes a relation node holding the cross product of the chain so far and the next relation |
| `Layout.CrossPhase` | sql2ra.py:108-112 | the cross nodes fold into the left-deep cross chain of the relations in order |
| `Layout.FoldBuilt` | sql2ra.py:46-127 | the fold of a built tree is the canonical expression (an error for three or more projected names) |
| `QuerySpec.FromIndex` | sql2ra.py:248-251 | the first FROM keyword in any case, or the end: no FROM keyword before it |
| `QuerySpec.Kept` | sql2ra.py:245-251 | whitespace and keywords are dropped, so nothing is added |
| `QuerySpec.WherePartition` | sql2ra.py:257-261 | every kept token after FROM goes to exactly one of selection and relation |
| `QuerySpec.KeptSnoc` | sql2ra.py:245-251 | a further token is kept exactly when it is neither whitespace nor a keyword |
| `QuerySpec.WhereSnoc` | sql2ra.py:257-261 | a further token goes to selection when it is a WHERE group and to relation otherwise |
| `QuerySpec.FlattenOnce` | sql2ra.py:136-142 | a list with no group token is left as it is |
| `QuerySpec.RelationTokens` | sql2ra.py:133-144 | no relation token is an index error; a first relation token that is not a group (has no `tokens` attribute) is an attribute error |
| `QuerySpec.Classify` | sql2ra.py:240-264 | a statement without FROM has no relation token and so fails with an index error; any failure is an index or attribute error |
| `QuerySpec.Aliased` | sql2ra.py:160-165 | no alias gives a bare relation reference; otherwise a `Rename` with no relation name and the attribute list `[alias + ": *"]` of the last alias |
| `QuerySpec.RelationsOf` | sql2ra.py:150-166 | a FROM list with no non-whitespace token gives no relation |
| `QuerySpec.SplitSnoc` | sql2ra.py:152-166 | segments are cut one value at a time |
| `QuerySpec.SplitStepAppend` | sql2ra.py:152-166 | cutting one more value only touches the last segment |
| `QuerySpec.SplitCommasAppend` | sql2ra.py:156-158 | a comma ends one relation entry and starts the next |
| `QuerySpec.BuildRelationsAppend` | sql2ra.py:160-166 | relations are built entry by entry |
| `QuerySpec.RelationsAtComma` | sql2ra.py:156-158 | the relations of a list with a comma are those before it followed by those after it |
| `QuerySpec.SplitNoComma` | sql2ra.py:156-158 | values without a comma form one entry |
| `QuerySpec.RelationEntry` | sql2ra.py:160-166 | an entry `name alias1 … aliask` is one relation: the name under its aliases, the last alias outermost |
| `QuerySpec.BuildSingle` | sql2ra.py:164-166 | one non-empty entry is one relation |
| `QuerySpec.BuildCommaStep` | sql2ra.py:156-158 | a comma adds no relation |
| `QuerySpec.BuildValueFresh` | sql2ra.py:164-166 | a value after a comma, or first, appends a bare relation reference |
| `QuerySpec.BuildValueRename` | sql2ra.py:160-163 | a value after a relation, with no comma between, wraps that last relation in a `Rename` and changes no other |
| `QuerySpec.Comparison` | sql2ra.py:197-214 | fails exactly when a second part exists and is not in the condition table, with KeyError of that part; otherwise the attribute of the first part, the operator of the second and the number of the third, each unset when missing |
| `QuerySpec.CondsIn` | sql2ra.py:221-227 | at most one condition per child; the only failure is a lookup KeyError |
| `QuerySpec.ConditionsOf` | sql2ra.py:217-227 | no WHERE group gives no condition; the only failure is a lookup KeyError |
| `QuerySpec.FirstComparison` | sql2ra.py:221-226 | none exactly when the WHERE group yields no condition; a failing first comparison is the error of the whole condition scan |
| `QuerySpec.SelectionErrorWithoutTree` | sql2ra.py:217-227 | with no tree, no error exactly when there is no condition; otherwise a KeyError of the first comparison or the AttributeError of the insertion |
| `QuerySpec.FirstComparisonStep` | sql2ra.py:221-226 | before the first condition child, the next child decides the first comparison when it is one |
| `QuerySpec.FirstComparisonPrefix` | sql2ra.py:221-226 | once a condition child is met, the rest of the children do not change the first comparison |
| `QuerySpec.NamesOf` | sql2ra.py:175-194 | no projection token is an index error; `*` gives no name; any failure is an index or attribute error; names come only from a group, one name or a comma list |
| `QuerySpec.ProjectionErrorWithoutTree` | sql2ra.py:175-194 | with no tree, no error exactly when there is no name to insert; otherwise an index or attribute error |
| `QuerySpec.ComparisonIgnoresRest` | sql2ra.py:204-212 | a comparison depends only on its first three parts, and only on two once the operator lookup fails |
| `QuerySpec.CondsInStep` | sql2ra.py:221-227 | a non-comparison child adds nothing; a comparison child adds its condition or fails with its error |
| `QuerySpec.CondsInPrefix` | sql2ra.py:221-227 | a failure is final, and scanning further only appends conditions |
| `QuerySpec.AttrNamesPrefix` | sql2ra.py:190-194 | scanning further only appends names |
| `Sql2Ra.GetAllRelationTokens` | sql2ra.py:133-144 | equals `RelationTokens`: the first relation token's children, each flattened one level, or the error |
| `Sql2Ra.SeparateTokens` | sql2ra.py:240-264 | equals `Classify`: projection tokens before FROM, WHERE groups and flattened relation tokens after it |
| `Sql2Ra.ScanSkip` | sql2ra.py:245-251 | whitespace, and keywords other than the first FROM, change no group |
| `Sql2Ra.ScanFrom` | sql2ra.py:248-250 | the first FROM keyword sets the flag and changes no group |
| `Sql2Ra.ScanProjection` | sql2ra.py:253-255 | before FROM a kept token is appended to the projection |
| `Sql2Ra.ScanWhere` | sql2ra.py:257-259 | after FROM a WHERE group is appended to the selection |
| `Sql2Ra.ScanRelation` | sql2ra.py:261 | after FROM any other kept token is appended to the relation tokens |
| `Sql2Ra.ScanDone` | sql2ra.py:263-264 | after the scan, flattening the relation tokens gives exactly `Classify` of the statement |
| `Sql2Ra.RelationList` | sql2ra.py:150-166 | equals `RelationsOf`: one relation per comma-separated entry, renamed by each value that follows it |
| `Sql2Ra.ListSkip` | sql2ra.py:153-154 | whitespace changes neither the list nor the flag |
| `Sql2Ra.ListComma` | sql2ra.py:156-158 | a comma clears the flag and adds no relation |
| `Sql2Ra.ListFresh` | sql2ra.py:164-166 | with the flag clear, a value appends `RelRef(value)` and sets the flag |
| `Sql2Ra.ListRename` | sql2ra.py:160-163 | with the flag set, a value replaces the last relation with its `Rename` |
| `Sql2Ra.SegmentsStep` | sql2ra.py:152-158 | whitespace leaves the entries unchanged and a value extends them by one step |
| `Sql2Ra.CreateRelation` | sql2ra.py:147-172 | the tree afterwards is the tree before with `RelationsOf(tokens)` inserted in order, the first one planted when there was no tree |
| `Sql2Ra.CreateValExprBinaryOp` | sql2ra.py:197-214 | equals `Comparison` of the non-whitespace values: attribute, looked-up operator, number; an unknown operator is a KeyError; later tokens ignored |
| `Sql2Ra.CreateSelection` | sql2ra.py:217-227 | on a tree: the first failing comparison's error, or every condition wrapped around the root in clause order; with no tree: exactly `SelectionErrorWithoutTree`, and the tree is untouched when there is no error |
| `Sql2Ra.OnlyOneProjection` | sql2ra.py:179-183 | true exactly when no child is "," |
| `Sql2Ra.InsertProjections` | sql2ra.py:190-194 | one projection node per child that is neither whitespace nor ",", in order; with no tree, an AttributeError exactly when there is such a child |
| `Sql2Ra.AttrNamesStep` | sql2ra.py:190-194 | one more child adds its value unless it is whitespace or "," |
| `Sql2Ra.CreateProjection` | sql2ra.py:175-194 | `*` inserts nothing; no comma inserts the whole first token; otherwise one node per name; a missing token is an IndexError and a non-group one an AttributeError; with no tree, exactly `ProjectionErrorWithoutTree` |
| `Sql2Ra.CreateRaFromRaTree` | sql2ra.py:230-232 | with no tree an AttributeError; otherwise the fold started at the leftmost leaf below the root |
| `Sql2Ra.Translation` | sql2ra.py:267-278 | the result of a translation is never Python's None; with no relation it is always an error; a success is an algebra expression |
| `Sql2Ra.NoTreeError` | sql2ra.py:273-274 | the selection and projection stages raise nothing on a missing tree exactly when there is no condition and no name |
| `Sql2Ra.BuildTree` | sql2ra.py:272-274 | on a fresh tree with relations: the first error of the conditions or the projection, or the built layout of relations, selections and projections; without relations: exactly `NoTreeError`, the tree staying empty |
| `Sql2Ra.Translate` | sql2ra.py:267-278 | on a fresh tree every time: a classification error, or exactly `Translation` of the three token groups: the canonical expression of the relations, conditions and names, or the first error |

## Left out

- Tokenization is not part of this model. Tokens arrive as a datatype holding
  the attributes the code reads: value, normalized text, the whitespace,
  keyword, group and comparison flags, and the children. The `sql.Comparison`
  type test is the comparison flag.
- Rendering and parsing of algebra expressions by the external algebra
  library are not part of this model. Results are compared as datatypes.
- The global `ra_tree` is a `Tree` object passed to each stage. The reset at
  the start of `translate` is the fresh tree `Translate` allocates.
- The integer type tags compared with `is` are an enumeration.
- Python exceptions are `Error` values that end the stage and `translate`.
  The state of the tree after an exception is not stated.
- Wherever Python would put something other than an algebra node, a name or a
  name list into a node, the model stops with `NotAnExpression`. This covers
  three or more projected attributes. There the Python code builds an
  attribute reference whose name is a list.
- The fold's implicit `None` returns are the result `NoneReturned`. No
  property is claimed for them.
- The query optimization step is only a to-do in the source and has no model.
- `QuerySpec.Kept`: its contract states only that it drops tokens, not that
  the kept tokens are a sub-multiset of the input.
- `RaTree.InsertSpec` and `RaTree.InsertRelationSpec`: their own contracts
  state only that the root stays in the arena. Their shape is stated by
  `Layout.BuiltRelation`, `Layout.BuiltWrap` and the well-formedness lemmas.
