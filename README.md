# Red-black tree of integers

This project models the `RedBlackTree` class of `RedBlackTree.h` and
`RedBlackTree.cpp`. The class is a set of `int` keys kept in a red-black tree
whose nodes link to their parents. It supports:

- three constructors: empty, one black root, and a deep copy;
- `Insert`, which throws on a duplicate key;
- `Contains` (through `Get`) and `Size`;
- `GetMin` and `GetMax`, which throw on an empty tree;
- `ToInfixString`, `ToPrefixString` and `ToPostfixString`, where each node is
  written as a space, `R` or `B`, its key and a space.

The project has two levels.

**Values.**
- `binary_trees.dfy` holds generic binary trees: positions as paths of `L`/`R`,
  replacement at a position, rotations, and the three traversals.
- `rb_model.dfy` describes insertion as functions on such trees:
  - `DescentPath` and `Place` for `BasicInsert`;
  - `Recolor`, `RotateFromLeft` and `RotateFromRight` for the three cases of
    the `InsertFixUp` loop;
  - `FixUp` for the whole loop;
  - `Insert` for the public operation.
- `rb_invariants.dfy` proves that insertion keeps every red-black property.
- `rendering.dfy` describes the string output: the decimal text of an `int`,
  a node's token, and the three renderings.

**Objects.**
- `arena.dfy` stores the nodes of one tree in a sequence. A pointer is an index
  into it, and `Null` (-1) stands for `nullptr`. The file holds the node-level
  helpers (`IsLeftChild`, `IsRightChild`, `GetNodeString` and the static
  recursive `To*String(n)`), plus the lemmas that relate a changed arena to
  the value-level tree.
- `red_black_tree.dfy` is the class itself. Its fields are `nodes`, `root` and
  `numItems`, and a ghost `shape` records which node sits at which position.
  Every method, including every step of the fix-up loop and both rotations,
  is proved to do to `Abs()` exactly what the value-level function does.
  `Valid()` says the links form a correct parent-linked tree, `numItems`
  counts the nodes, and `Abs()` is an ordered red-black tree.

`test_vectors.dfy` and `test_scenarios.dfy` restate the expectations of
`RedBlackTreeTests.cpp` and `RedBlackTreeTestsFirstStep.cpp`. They state them
first on the value model and then through the class's own methods.

## Model

| member | source | states |
|---|---|---|
| RedBlackTrees.RedBlackTree.constructor | RedBlackTree.cpp:5-8 | the default constructor yields a valid empty tree with `numItems == 0` |
| RedBlackTrees.RedBlackTree.WithRoot | RedBlackTree.cpp:10-13 | `RedBlackTree(int)` yields a valid tree holding one black node with that key, and `numItems == 1` |
| RedBlackTrees.RedBlackTree.Copy | RedBlackTree.cpp:15-18 | the copy constructor yields a valid tree with the same abstract tree (keys, colours, shape) and the same `numItems` as the source tree |
| RedBlackTrees.RedBlackTree.CopyOf | RedBlackTree.cpp:20-29 | the deep copy only appends fresh nodes, whose parent links are rebuilt (the copied root's parent is null); the copy represents the same tree of entries (keys and colours) as the original subtree; copying keeps the arena free of nodes flagged `IsNullNode` |
| RedBlackTrees.RedBlackTree.Size | RedBlackTree.h:44 | `Size()` equals the number of distinct keys and the number of nodes |
| RedBlackTrees.RedBlackTree.ToInfixString | RedBlackTree.h:38 | the result is the tokens of the in-order traversal; those keys are strictly ascending and are exactly the tree's keys; the result is empty iff the tree is empty |
| RedBlackTrees.RedBlackTree.ToPrefixString | RedBlackTree.h:39 | the result is the tokens of the pre-order traversal, and is empty iff the tree is empty |
| RedBlackTrees.RedBlackTree.ToPostfixString | RedBlackTree.h:40 | the result is the tokens of the post-order traversal, and is empty iff the tree is empty |
| Arena.InfixFrom | RedBlackTree.cpp:155-158 | the static recursive in-order walk over the nodes equals the in-order rendering of the tree those nodes represent |
| Arena.PrefixFrom | RedBlackTree.cpp:160-163 | the static recursive pre-order walk equals the pre-order rendering of the represented tree |
| Arena.PostfixFrom | RedBlackTree.cpp:165-168 | the static recursive post-order walk equals the post-order rendering of the represented tree |
| RedBlackTrees.RedBlackTree.Get | RedBlackTree.cpp:108-115 | the search returns null iff the key is absent; otherwise it returns a node that holds the key |
| RedBlackTrees.RedBlackTree.Contains | RedBlackTree.cpp:104-106 | true iff the key is in the tree |
| RedBlackTrees.RedBlackTree.GetMin | RedBlackTree.cpp:117-122 | on an empty tree, fails with "tree is empty"; otherwise returns a key of the tree that is at most every key |
| RedBlackTrees.RedBlackTree.GetMax | RedBlackTree.cpp:124-129 | on an empty tree, fails with "tree is empty"; otherwise returns a key of the tree that is at least every key |
| RedBlackTrees.RedBlackTree.Insert | RedBlackTree.cpp:31-37 | fails with "duplicate value", changing nothing, iff the key is present; otherwise the new tree is the model's `Insert` result and `numItems` grows by one; either way the tree stays valid and its keys become the old keys plus the new key |
| RedBlackTrees.RedBlackTree.AddNode | RedBlackTree.cpp:33-35 | allocating a red node, then `BasicInsert`, then `InsertFixUp`, yields the model's `Insert`; the result is a red-black tree whose keys are the old keys plus the new key |
| RedBlackTrees.RedBlackTree.BasicInsert | RedBlackTree.cpp:39-62 | the node is hung at the leaf where the search for its key ends (left when smaller, else right), or becomes the black root of an empty tree; the tree becomes `Place(old tree, key)` |
| RedBlackTrees.RedBlackTree.InsertFixUp | RedBlackTree.cpp:64-102 | the loop followed by blackening the root turns the tree into `Paint(FixUp(old tree, path of the new node), Black)` |
| RedBlackTrees.RedBlackTree.FixUpIteration | RedBlackTree.cpp:65-100 | one pass of the loop body moves the node strictly up and leaves the `FixUp` result of the rest of the loop unchanged |
| RedBlackTrees.RedBlackTree.RedUncleCase | RedBlackTree.cpp:68-73 | with a red uncle, the parent and the uncle turn black and the grandparent turns red, which is `Recolor` at the grandparent's position; the shape is unchanged (the mirror case is lines 84-89) |
| RedBlackTrees.RedBlackTree.LeftParentCase | RedBlackTree.cpp:74-82 | with a black uncle on the left side, the optional left rotation at the parent, the recolouring and the right rotation at the grandparent together equal `RotateFromLeft` at the grandparent |
| RedBlackTrees.RedBlackTree.RightParentCase | RedBlackTree.cpp:90-98 | the mirror case: together they equal `RotateFromRight` at the grandparent |
| RedBlackTrees.RedBlackTree.LeftRotate | RedBlackTree.cpp:131-141 | the pointer surgery, including the parent links and the root update, equals `RotateLeft` of the subtree at the node's position, both on the shape and on the entries |
| RedBlackTrees.RedBlackTree.RightRotate | RedBlackTree.cpp:143-153 | the pointer surgery equals `RotateRight` of the subtree at the node's position |
| RedBlackModel.FixUp | RedBlackTree.cpp:64-100 | the fix-up of a node on a tree with a black root yields a non-empty tree |
| RedBlackModel.Insert | RedBlackTree.cpp:31-37 | a successful insertion yields a non-empty tree with a black root |
| RedBlackModel.InsertKeys | RedBlackTree.cpp:31-37 | on an ordered tree, insertion fails with "duplicate value" iff the key is present; otherwise the keys gain exactly the new key, the tree stays ordered and its size grows by one |
| RedBlackModel.InsertAllKeys | RedBlackTree.cpp:31-37 | a run of insertions succeeds iff the keys are distinct and new; it then adds exactly those keys, keeps the tree ordered and grows its size by their number |
| RedBlackModel.PlaceKeys | RedBlackTree.cpp:39-62 | `BasicInsert` of a new key adds exactly that key and keeps the search order |
| RedBlackModel.FixUpOrdered | RedBlackTree.cpp:64-102 | the fix-up keeps the keys and the search order |
| RedBlackModel.FixUpStep | RedBlackTree.cpp:65-99 | one loop pass, as the recolour case or as the rotation case, leaves the rest of the fix-up unchanged |
| RedBlackModel.StepOrdered | RedBlackTree.cpp:68-98 | each of the three case actions keeps the keys and the search order of the grandparent's subtree |
| RedBlackModel.RotateFromLeftSteps | RedBlackTree.cpp:74-82 | the statement-by-statement effect of the left-parent rotation case (optional left rotation, two repaints, right rotation) equals `RotateFromLeft` |
| RedBlackModel.RotateFromRightSteps | RedBlackTree.cpp:90-98 | the same for the right-parent case and `RotateFromRight` |
| RedBlackModel.LeftmostIsMin | RedBlackTree.cpp:117-122 | the left spine's last key is in the tree and is its least key |
| RedBlackModel.RightmostIsMax | RedBlackTree.cpp:124-129 | the right spine's last key is in the tree and is its greatest key |
| RedBlackModel.OrderedCard | RedBlackTree.h:44 | in an ordered tree, the number of keys equals the number of nodes |
| RedBlackModel.RotateLeftOrdered | RedBlackTree.cpp:131-141 | a left rotation keeps the keys and the search order |
| RedBlackModel.RotateRightOrdered | RedBlackTree.cpp:143-153 | a right rotation keeps the keys and the search order |
| RedBlackInvariants.InsertRedBlack | RedBlackTree.cpp:31-37 | insertion into a red-black tree yields a red-black tree: two colours only, a black root, no red node with a red child, and equal black heights |
| RedBlackInvariants.FixUpRedBlack | RedBlackTree.cpp:64-100 | when the only red-red violation is at the loop's node, the loop removes it and keeps the black heights balanced |
| RedBlackInvariants.PaintRootBlack | RedBlackTree.cpp:101 | blackening the root keeps the other properties and makes the root black |
| RedBlackInvariants.RecolorRedBlack | RedBlackTree.cpp:68-73 | the red-uncle recolouring leaves a subtree free of red-red pairs, with a red root and the same black height |
| RedBlackInvariants.RotateFromLeftRedBlack | RedBlackTree.cpp:74-82 | the left-parent rotation case leaves a subtree free of red-red pairs, with a black root and the same black height |
| RedBlackInvariants.RotateFromRightRedBlack | RedBlackTree.cpp:90-98 | the same for the right-parent rotation case |
| BinaryTrees.RotateRightUndoesLeft | RedBlackTree.cpp:131-153 | a right rotation undoes a left rotation |
| BinaryTrees.RotateLeftUndoesRight | RedBlackTree.cpp:131-153 | a left rotation undoes a right rotation |
| BinaryTrees.InfixRotateLeft | RedBlackTree.cpp:131-141 | a left rotation keeps the in-order sequence, the elements and the size |
| BinaryTrees.InfixRotateRight | RedBlackTree.cpp:143-153 | a right rotation keeps the in-order sequence, the elements and the size |
| Rendering.NatToStringNumeral | RedBlackTree.cpp:173 | the decimal text of a natural number is non-empty and all digits, reads back as the number, and starts with `0` only for zero |
| Rendering.IntToStringRoundTrip | RedBlackTree.cpp:173 | the text of an `int` starts with `-` iff the number is negative, and reads back as the number |
| Rendering.InfixRendered | RedBlackTree.cpp:155-158 | the in-order string is the tokens of the in-order sequence |
| Rendering.PrefixRendered | RedBlackTree.cpp:160-163 | the pre-order string is the tokens of the pre-order sequence |
| Rendering.PostfixRendered | RedBlackTree.cpp:165-168 | the post-order string is the tokens of the post-order sequence |
| Rendering.EmptyRenderings | RedBlackTree.cpp:155-168 | each rendering is empty iff the tree is empty |
| Rendering.KeysInfix | RedBlackTree.cpp:155-158 | the keys listed in order are exactly the tree's keys |
| Rendering.OrderedIffAscending | RedBlackTree.cpp:155-158 | a tree is a search tree iff its in-order keys strictly ascend |
| Rendering.RenderAppend | RedBlackTree.cpp:157 | rendering a concatenation is concatenating the renderings |
| TestVectors.FirstAndSecondNode | RedBlackTreeTests.cpp:22-46 | inserting 30, then 15 or 45, gives a black root 30 with one red child |
| TestVectors.ThirdNodeLeftLeft | RedBlackTreeTests.cpp:52-55 | inserting 30, 15, 10 gives B15 over R10 and R30 |
| TestVectors.ThirdNodeRightLeft | RedBlackTreeTests.cpp:60-63 | inserting 30, 15, 25 gives B25 over R15 and R30 |
| TestVectors.ThirdNodeLeftRight | RedBlackTreeTests.cpp:68-71 | inserting 30, 15, 20 gives B20 over R15 and R30 |
| TestVectors.ThirdNodeRightRight | RedBlackTreeTests.cpp:76-79 | inserting 30, 45, 60 gives B45 over R30 and R60 |
| TestVectors.FifthNode | RedBlackTreeTests.cpp:92-100 | inserting 30, 15, 45, 10, 25 gives the tree the test expects |
| TestVectors.ToStrings | RedBlackTreeTests.cpp:107-119 | inserting 12, 11, 15, 5, 13, 7 gives the tree the test expects |
| TestVectors.Copied | RedBlackTreeTests.cpp:156-163 | inserting 11, 23, 9, 52, 31, 4 gives the tree the test expects |
| TestVectors.InsertCopy200 | RedBlackTreeTests.cpp:168 | inserting 200 into that tree recolours the right subtree (red uncle case) |
| TestVectors.ContainsKeysFresh | RedBlackTreeTests.cpp:181-190 | the nine keys the test inserts are distinct, so every insertion succeeds |
| TestScenarios.TestSimpleConstructor | RedBlackTreeTestsFirstStep.cpp:24-29 | a new tree renders in order as "" and has size 0 |
| TestScenarios.TestConstructor | RedBlackTreeTests.cpp:15-20 | `RedBlackTree(15)` renders in pre-order as " B15 " and has size 1 |
| TestScenarios.InsertEach | RedBlackTree.cpp:31-37 | repeated `Insert` on the object succeeds iff the model's run of insertions does, and then yields its tree |
| TestScenarios.TestInsertFirstAndSecondNode | RedBlackTreeTests.cpp:22-46 | the objects render as " B30 " (in pre-order and in order), " B30  R15 " and " B30  R45 " |
| TestScenarios.TestInsertThirdNode | RedBlackTreeTests.cpp:47-83 | the four insertion orders render in pre-order exactly as the test expects |
| TestScenarios.TestInsertFifthNode | RedBlackTreeTests.cpp:92-105 | the object renders in pre-order as " B30  B15  R10  R25  B45 " |
| TestScenarios.TestToStrings | RedBlackTreeTests.cpp:107-122 | the three renderings of the object are exactly the test's strings |
| TestScenarios.TestCopyConstructor | RedBlackTreeTests.cpp:153-172 | the copy renders like the original; after 200 goes into the original, the copy still renders as before and so differs from the original |
| TestScenarios.TestContainsEmpty | RedBlackTreeTests.cpp:177-178 | an empty tree does not contain 6, and its minimum and maximum fail with "tree is empty" |
| TestScenarios.TestContains | RedBlackTreeTests.cpp:181-191 | after the nine insertions the tree contains 34 |
| TestScenarios.TestGetMinimumMaximum | RedBlackTree.cpp:117-129 | on the tree of 12, 11, 15, 5, 13, 7 the minimum is 5 and the maximum is 15 |

## Left out

- Console output, `main` and the `assert` calls of the test drivers are not modelled. Their expectations are stated as `ensures` clauses.
- `TestInsertRandomTests` (RedBlackTreeTests.cpp:124-151) checks only that nothing crashes and that memory is clean. The model has no crashes or leaks to express. Each of its insertions is covered by `Insert`'s contract.
- `TestInsertFourthNode` and `TestGetMinimumMaximum` in the tests contain no checks. `TestScenarios.TestGetMinimumMaximum` states what `GetMin` and `GetMax` return on a tree from the tests.
- Memory management is not modelled: `new`, `delete`, the destructor and leaks. Nodes are appended to the arena of the tree that owns them. Two trees therefore never share nodes, which is what the deep copy guarantees.
- Pointers are arena indices, so aliasing is modelled only between nodes of the same tree.
- `std::invalid_argument` exceptions become the `Err` case of a `Result`.
- `stringstream` formatting of an `int` is modelled by `IntToString`, which writes the decimal text with a leading `-` for negatives.
- `RedBlackTrees.RedBlackTree.Size`: `numItems` (`unsigned long long`) and `size_t` are modelled as `nat`, because no tree of 2^64 nodes can be built. The `int` keys are unbounded `int`, because the code only compares them and never does arithmetic on them.
- `COLOR_DOUBLE_BLACK` is kept as a colour, but no operation assigns it. `Valid()` excludes it, and `GetNodeString` would print it as `B`.
- The `IsNullNode` flag is carried by every node, but nothing sets it to true.
- RedBlackTrees.RedBlackTree.CopyOf: the body copies each node's `IsNullNode` flag, as RedBlackTree.cpp:23 does, but the contract states only that the copy adds no flagged nodes. The value-level tree `AbsOf` holds keys and colours, not the flag, so the per-node copy of the flag is not stated.
- `GetUncle` and `GetColorString` are declared in RedBlackTree.h but have no definition. The loop's uncle is read directly, as in the code.
- `Arena.IsLeftChild`, `Arena.IsRightChild` and `Arena.GetNodeString` are written as plain functions with no contract of their own. The rotations, the fix-up cases and the renderings that use them carry the proved contracts.
