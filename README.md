# Binary-tree-d3 in Dafny

A model of the tree logic behind the Binary-tree-d3 page. The user types
comma-separated values. The page splits them into tokens and builds a binary
tree by inserting one `Node` per token. It draws the tree with d3, and when a
node is clicked it highlights the path from the root to that node. The model
covers:

- **Tokens.dfy** (module `Tokens`): the submit handler's
  `value.split(",").filter(e => e)` and its guard.
- **Helpers.dfy** (module `Helpers`): the helper `myXOR`.
- **TreeSpec.dfy** (module `TreeSpec`):
  - the abstract value of a tree, the datatype `Tree`;
  - the placement rule of `BinaryTree.insert`, the function `InsertSpec`;
  - the build loop as a function of the tokens, `BuildSpec`.

  `insert` calls `Math.random() < 0.5` when both slots of the visited node are
  full. That call becomes a coin oracle `coin: nat -> bool`, read from a flip
  index `k` that every operation advances.
- **LinkedTree.dfy** (module `LinkedTree`): the heap structure.
  - The `Node` class has the fields `value`, `parent`, `left` and `right`.
  - The `BinaryTree` class holds `root`.
  - `Node.Valid()` says the child and parent links agree and the structure is
    acyclic. `Node.Model()` maps a subtree to its `Tree` value.
  - `insert` and the insertion loop of `creatBinaryTree` are methods that
    update the links in place. `insert` is proved against `InsertSpec` and
    the loop against `BuildSpec`.
  - `clear` is a method that only resets `root`; it is proved to leave an
    empty tree, whose abstract value is `Leaf`.
  - Each `insert` also proves that it only links the new node as a leaf. No
    other link changes (`LinkedAsLeaf`).
- **Paths.dfy** (module `Paths`): the two loops of the click handler.
  - Both climb `parent` links and `unshift` each node.
  - Both are proved to return `PathTo(root, d)`, the chain of child links from
    the root down to the clicked node.

## Model

| member | source | states |
|---|---|---|
| LinkedTree.Node.constructor | app.js:2-7 | a new node has the given value, no parent and no children, and is a well-formed single-node tree |
| LinkedTree.BinaryTree.constructor | app.js:11-13 | the tree's root is the given node, or null, and the tree is well formed |
| LinkedTree.BinaryTree.Clear | app.js:37-39 | the root becomes null and the tree is empty; no node is touched (`modifies this`) |
| LinkedTree.BinaryTree.Insert | app.js:15-36 | well-formedness kept and one node added; the new abstract tree is `InsertSpec` of the old one. On an empty tree the node becomes the root and is left unlinked. Otherwise the root is unchanged and the node is linked as a leaf under some existing node p: left slot if it was empty, else the empty right slot. No other child or parent link changes |
| LinkedTree.BinaryTree.Attach | app.js:22-27 | at a node with a free slot, the new node fills the left slot if empty, else the right one; it gets that node as parent; the subtree stays well formed and its value is `InsertSpec`'s |
| LinkedTree.BinaryTree.InsertAt | app.js:21-35 | the recursive descent from a subtree root: the subtree stays well formed, its value becomes `InsertSpec` of the old value with the flips from index k, and the node is linked as a leaf inside it with every other link unchanged |
| LinkedTree.Reassembled | app.js:28-34 | after recursing into the child chosen by the flip (left iff true) while the other subtree is untouched, the parent's subtree is well formed again, has the value `InsertSpec` prescribes, and the node was linked as a leaf within it |
| LinkedTree.ReprSize | app.js:1-39 | a well-formed subtree has exactly as many nodes as its abstract value has `Branch` nodes |
| LinkedTree.CreateBinaryTree | app.js:47-56 | the loop builds a fresh, well-formed tree whose value is `BuildSpec` of the tokens; it has exactly one node per token, its values are the tokens with their repetitions, and the first token is at the root |
| TreeSpec.InsertIsDescent | app.js:15-36 | whatever the coin says, insertion fills the visited node's left slot if empty, else its right slot if empty, and passes only through nodes with both slots full; the index of the next unused flip never goes below k |
| TreeSpec.InsertUsesLaterFlips | app.js:29-33 | insertion depends only on the flips from index k on |
| TreeSpec.DescentIsInsert | app.js:29-33 | every placement that random descent allows is produced by `insert` for some outcome of the flips: the coin is the only source of choice |
| TreeSpec.DescentAddsOneLeaf | app.js:22-34 | descent never overwrites a link: it adds exactly one new leaf and keeps every other node and its children |
| TreeSpec.AddsOneLeafCounts | app.js:22-27 | adding one leaf adds one node and one occurrence of its value |
| TreeSpec.DescentKeepsLeftFirst | app.js:22-27 | no node ever has a right child without a left child |
| TreeSpec.InsertAddsOneLeaf | app.js:15-36 | one insertion adds exactly one leaf holding the value, one node and one occurrence. It keeps left-before-right everywhere and changes the root only when the tree was empty |
| TreeSpec.BuildContents | app.js:47-56 | building from N tokens gives N nodes whose values are exactly the tokens, left-before-right everywhere, an empty tree iff there are no tokens, and the first token at the root |
| TreeSpec.BuildUpToThree | app.js:47-56 | with one to three tokens the shape does not depend on the coin: first token at the root, second as its left child, third as its right child |
| Paths.PathTo | app.js:274-280 | the path is non-empty, starts at the subtree root, ends at the given node and stays inside the subtree |
| Paths.PathShape | app.js:274-280 | the path has no repeated node, and each node after the first has the previous one as `parent` and is that node's left or right child |
| Paths.ParentStep | app.js:22-27 | every node other than the subtree root has a parent in the subtree, of which it is a child, and its path is its parent's path plus itself |
| Paths.OnlyRootIsParentless | app.js:276 | in a whole tree the root is the one and only node whose `parent` is null, so the climb stops exactly at the root |
| Paths.TreeLinks | app.js:16-27 | in a well-formed tree the root has no parent, and every other node's parent is in the tree and holds it in exactly one of its two child slots |
| Paths.PathUnique | app.js:274-294 | any chain of tree nodes that starts at a parentless node, follows `parent` links and ends at n is the root-to-n path |
| Paths.PathElements | app.js:274-280 | a node lies on the path to n iff n lies in its subtree |
| Paths.PathLength | app.js:274-280 | the path to n has depth(n) + 1 nodes, depth being the number of proper ancestors |
| Paths.StepUp | app.js:276-278 | one iteration of the first loop: the path to a node with a parent is the path to that parent followed by the node, and it is longer |
| Paths.Unshift | app.js:292-293 | one iteration of the second loop: prepending the first node's parent keeps the split between the unexplored and the collected part of the path |
| Paths.AncestorsOf | app.js:274-280 | the first loop returns exactly the path from the root to the clicked node |
| Paths.PathToRoot | app.js:291-294 | the second loop returns exactly the path from the root to the clicked node |
| Paths.Click | app.js:274-294 | both loops give the same sequence: the root-to-node path, which starts at the parentless root, ends at the clicked node and has depth + 1 nodes. Neither loop changes anything, so a second click on an unchanged tree gives the same path |
| Tokens.Split | app.js:324 | `split(",")` yields one more piece than there are commas, and no piece holds a comma |
| Tokens.JoinSplit | app.js:324 | joining the split pieces with commas gives back the input |
| Tokens.SplitJoin | app.js:324 | splitting comma-free pieces joined by commas gives back the pieces |
| Tokens.ConcatSplit | app.js:324 | the split pieces, glued together, spell the input without its commas, in order |
| Tokens.NonEmpty | app.js:324 | `filter(e => e)` keeps only non-empty pieces, each taken from the input; every non-empty piece is kept as often as it occurs, and only the empty ones are dropped |
| Tokens.NonEmptyAppend | app.js:324 | the filter keeps the input order: filtering a concatenation is the concatenation of the filtered parts |
| Tokens.ConcatNonEmpty | app.js:324 | dropping the empty pieces does not change what the pieces spell |
| Tokens.NonEmptyKeepsAll | app.js:324 | filtering pieces that are all non-empty keeps all of them |
| Tokens.ConcatEmpty | app.js:324 | non-empty pieces spell the empty string only when there are none |
| Tokens.TokensShape | app.js:324 | the tokens handed to the builder are non-empty and comma-free; they spell the input without commas in order, and there are none iff the input holds only commas |
| Tokens.TokensOfJoin | app.js:324 | tokens that are non-empty and comma-free survive a join, split and filter unchanged |
| Helpers.Xor | app.js:42-44 | `myXOR(a, b)` is true exactly when a and b differ |
| Tokens.OnSubmit | app.js:315-328 | as written: the alert is raised exactly when the input text is empty; any other text is split, filtered and rendered |
| Tokens.OnSubmitPassesNoTokens | app.js:317-324 | as written, a non-empty input made only of commas passes the guard and reaches the builder with no tokens |
| Tokens.OnlyCommaIsLetThrough | app.js:317-324 | the input "," is such an input |
| Tokens.OnSubmitChecked | app.js:315-328 | the guard placed on the tokens: the alert is raised exactly when the input holds nothing but commas, and whatever is rendered has at least one token |

`InsertSpec`, `BuildSpec` and `TokensOf` are specification functions without
contracts of their own. The lemmas above state what they mean.

## Left out

- All rendering (app.js:58-252): `d3.hierarchy`, `d3.tree`, the layout, SVG elements, transitions, colours and the `diagonal` path string. This is foreign library code working on floating-point coordinates.
- The highlighting side effects of the click handler (app.js:259-271, 282-289, 296-304). The model keeps only the two path computations. The `indexOf` filters and `prevNode` belong to the DOM.
- `clearElement`, `document.getElementById`, `alert` and `console.log` (app.js:53, 309-328). These are DOM and I/O; the alert becomes the `Alert` result of `OnSubmit`.
- The probability distribution of `Math.random()`. The coin is an arbitrary oracle; nothing about expected depth or balance is modelled.
- The `isNaN`-based hidden flag of the renderer (app.js:135, 206): renderer state relying on JavaScript numeric coercion.
- Paths.AncestorsOf, Paths.PathToRoot, Paths.Click: climb `Node.parent` rather than the d3 hierarchy nodes of the source. The renderer builds those from the same `left`/`right` links, so their `parent` mirrors `Node.parent`; the d3 side is not part of this model.
- Helpers.Xor: takes booleans only. The source applies `||`, `&&` and `!` to any JavaScript values and can return a non-boolean operand.
- LinkedTree.BinaryTree.Insert: the empty-tree branch is reached only from the top-level call. The source's `root = this.root` default and its falsy test `!root` are modelled as a null test on `root`. The recursion continues in `InsertAt` with non-null subtree roots.
- Strings are sequences of characters; JavaScript's UTF-16 code units and `filter`'s truthiness of non-string values are not modelled, since `split` always yields strings.

## Findings

| source | as written | input that shows it | evidently intended | confidence | as-written member | corrected member |
|---|---|---|---|---|---|---|
| app.js:317-324 | the guard tests the raw text (`if (value)`), so any non-empty text is split, filtered and built | `","`: non-empty, but `split(",").filter(e => e)` is `[]`. No node is inserted, the tree's root stays unset, and the renderer is handed no tree instead of the user seeing the "Enter some value" alert | raise the alert whenever the input yields no token | medium, not executed | Tokens.OnlyCommaIsLetThrough | Tokens.OnSubmitChecked |
