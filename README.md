# Binary tree exercises, modelled in Dafny

This project models `binary-tree.js`. That file defines a `BinaryTreeNode` (an integer value and optional left and right children) and a `BinaryTree` (an optional root). `BinaryTree` offers five read-only queries: `maxSum`, `nextLarger`, `areCousins`, `lowestCommonAncestor`, and a string round trip through `serialize`/`deserialize`.

How the model is built:

- A tree is the value `Trees.Tree = Nil | Node(val, left, right)`. `Nil` is JavaScript's `null`.
- A node's identity (the `===` that `areCousins` and `lowestCommonAncestor` compare with) is its position: the path of `Left`/`Right` steps from the root.
- A target position that does not lead to a node stands for a node object that is not in the tree, or for `null`. The source never matches either of those.
- Each query's closure updates variables it captures: the running maximum, `result`, `found`/`parent1`/`parent2`, the `values` array and the `index` cursor. Each closure becomes a recursive method that takes the captured state as parameters and returns it updated.
- Each such method is proved equal to a pure specification, and the properties the source promises are proved about that specification.
- `findLCA` already returns its result without side effects, so it is a function.

Modules, one per file:

- `Options`: `Option`, for `null` next to a value.
- `Trees`: the tree, positions, sizes and values.
- `MaxPathSum`: `maxSum`.
- `NextLargerValue`: `nextLarger`.
- `CousinCheck`: `areCousins`.
- `Ancestors`: `lowestCommonAncestor`.
- `DecimalText`: integer text, `parseInt`, `join` and `split`.
- `Codec`: the token level and the string level of `serialize`/`deserialize`.

Some edge cases of the code are easy to misread; the model follows the code:

- An empty tree serializes to `"null"`, not to the empty string (binary-tree.js:104-105 and 113-114).
- `deserialize("")` returns `null`, not an empty `BinaryTree` (binary-tree.js:121).
- `areCousins` does not compare levels, although its doc comment (binary-tree.js:69-71) asks for the same level (see Findings).
- `minDepth`/`maxDepth` cannot run (see Left out).

## Model

| member | source | states |
|---|---|---|
| `MaxPathSum.FindMaxSum` | binary-tree.js:38-44 | returns the best downward extension `Down(node)` and leaves the captured maximum at the larger of its old value and the best through-node sum over every node of the subtree; an empty subtree leaves it unchanged |
| `MaxPathSum.MaxSum` | binary-tree.js:35-48 | the result is `MIN_SAFE_INTEGER` on an empty tree and otherwise the larger of that sentinel and the best through-node sum over all nodes; it is at least the root's through-node sum |
| `MaxPathSum.DownIsUpperBound` | binary-tree.js:39-43 | no downward path from a node sums to more than the value the recursion returns for it |
| `MaxPathSum.BestDownPath` | binary-tree.js:39-43 | some downward path from a non-empty node sums to exactly the value the recursion returns, so that value is the best downward path sum |
| `MaxPathSum.ThroughIsUpperBound` | binary-tree.js:40-42 | every path that peaks at a node sums to at most the node's value plus both children's floored extensions, the candidate the source compares |
| `MaxPathSum.MaxThroughIsUpperBound` | binary-tree.js:42 | the running maximum bounds the candidate of every node of the tree |
| `MaxPathSum.BestPeak` | binary-tree.js:42 | some node's candidate equals the maximum over all candidates |
| `MaxPathSum.BestPath` | binary-tree.js:32-47 | a non-empty tree has a path whose sum is the maximum over all candidates |
| `MaxPathSum.MaxSumIsUpperBound` | binary-tree.js:32-47 | `maxSum` bounds the sum of every path of the tree (any start, any end, no node twice), and unless it is the sentinel some path sums to exactly it |
| `MaxPathSum.NonPositiveTreeBestIsLargestValue` | binary-tree.js:36-43 | when no value in the tree is positive, the best candidate is the largest value in the tree and is held by one of its nodes |
| `NextLargerValue.SmallestAbove` | binary-tree.js:53-66 | the result is `null` iff no value exceeds the bound; otherwise it is a value of the tree above the bound and no larger than any other such value |
| `NextLargerValue.Traverse` | binary-tree.js:56-63 | after visiting a subtree the captured `result` is the smaller of its old value and the smallest value of the subtree above the bound |
| `NextLargerValue.NextLarger` | binary-tree.js:53-67 | `null` iff no value exceeds `lowerBound`; otherwise the least value in the tree that exceeds it |
| `NextLargerValue.NextLargerIsUnique` | binary-tree.js:50-51 | the answer is determined by the values alone, so the visiting order cannot change it |
| `Trees.ValuesAtPositions` | binary-tree.js:3-9 | a value belongs to the tree iff some node position holds it |
| `CousinCheck.Traverse` | binary-tree.js:80-92 | `found` grows by the number of targets in the subtree that are nodes and have no other target above them; each such target's parent position is recorded and other parents are left alone; the return value is at least -1, and exactly -1 iff the node is a target or its two children are the two targets |
| `CousinCheck.CountSplits` | binary-tree.js:88-89 | below a non-target node the matched targets are split between its two subtrees |
| `CousinCheck.SidesAreDisjoint` | binary-tree.js:88-91 | both children return the target depth only when the two children are the two targets |
| `CousinCheck.DepthOfInnerNode` | binary-tree.js:88-91 | at a node that is not a target, `Math.max` of the children's depths is never below -1 and is -1 exactly when the two children are the two targets |
| `CousinCheck.AreCousins` | binary-tree.js:73-96 | true iff both positions are nodes, neither lies at or above the other, and their parents differ; false on an empty tree, for the same node twice, or for a node missing from the tree |
| `CousinCheck.AsWrittenIgnoresLevels` | binary-tree.js:69-96 | in the tree 1(2(4), 3) the nodes 4 and 3 are accepted by the code although they are on different levels |
| `CousinCheck.CousinsAreAsWrittenOnOneLevel` | binary-tree.js:69-71 | cousins as the comment defines them are exactly the code's accepted pairs that lie on one level |
| `CousinCheck.AreCousinsAtSameLevel` | binary-tree.js:69-71 | true iff the nodes are in the tree, on the same level, with different parents |
| `Ancestors.FindLca` | binary-tree.js:147-155 | what the search of a subtree returns is the position of a node of that subtree, and it is one of the two targets or an ancestor of both |
| `Ancestors.LowestCommonAncestor` | binary-tree.js:146-158 | the answer is `null` on an empty tree; any other answer is the position of a node of the tree, and it is one of the two targets or an ancestor of both |
| `Ancestors.CommonPrefix` | binary-tree.js:143-145 | the result is a common prefix of both positions and cannot be extended: the deepest common ancestor |
| `Ancestors.CommonPrefixOfSplit` | binary-tree.js:153 | when the two targets lie in different subtrees of a node, their common ancestor is that node |
| `Ancestors.CommonPrefixOfAncestor` | binary-tree.js:148 | when one target lies above the other, their common ancestor is the upper one |
| `Ancestors.FindLcaIsExpected` | binary-tree.js:147-155 | searching a subtree gives the common ancestor of both targets when both lie in it, the target that does when only one does, and `null` when neither does |
| `Ancestors.LowestCommonAncestorIsDeepestCommon` | binary-tree.js:146-158 | `null` iff neither target is in the tree; the present one when only one is; when both are, the upper target if one lies above the other, otherwise the node whose two subtrees hold one target each |
| `Codec.EncodeCounts` | binary-tree.js:103-111 | a tree of n nodes is written as 2n+1 tokens, n+1 of them `null` |
| `Codec.SerializeTokens` | binary-tree.js:103-111 | pushing a subtree appends its pre-order encoding to the captured `values` array |
| `Codec.EncodedAtNode` | binary-tree.js:126-136 | the tokens at a cursor encode a node iff they hold its value, then its left subtree, then its right subtree |
| `Codec.EncodingIsPrefixFree` | binary-tree.js:126-139 | at most one tree is encoded from a given cursor, so what `buildTree` builds is determined by the tokens |
| `Codec.BuildTree` | binary-tree.js:126-137 | the built subtree's encoding is what the tokens hold from the cursor on, reading a cursor past the end as `null`, and the cursor advances by exactly its length |
| `Codec.LeftoverTokensIgnored` | binary-tree.js:139-140 | tokens after the root's subtree do not change what is decoded |
| `Codec.Serialize` | binary-tree.js:100-115 | the result is the comma-join of the token texts of the pre-order encoding; the empty tree gives `"null"` |
| `Codec.ReadToken` | binary-tree.js:127-132 | a piece is read as an absent child exactly when it is `'null'`; any other piece without a digit reads as `NaN` |
| `Codec.ReadTokensOfTexts` | binary-tree.js:127-132 | reading each token text back (`'null'` check, then `parseInt`) gives the tokens again |
| `Codec.SerializedTextSplits` | binary-tree.js:114-123 | a serialized string is never empty, and splitting and reading it gives back the encoding |
| `Codec.Deserialize` | binary-tree.js:120-141 | `null` iff the input is empty; otherwise the root is the tree whose encoding starts the token list read from the comma-split pieces |
| `Codec.SerializeThenDeserialize` | binary-tree.js:100-141 | deserializing the serialized text of a tree gives a `BinaryTree` whose root equals the original, in shape and values |
| `DecimalText.IntToString` | binary-tree.js:114 | an integer's text is not empty and is made of decimal digits, after a `-` exactly when the integer is negative |
| `DecimalText.IntToStringIsCanonical` | binary-tree.js:114 | an integer's text starts with `-` exactly when the integer is negative; the digits after it denote the integer's magnitude and have no leading zero, as JavaScript writes numbers |
| `DecimalText.NatToStringCanonical` | binary-tree.js:114 | the digits of a natural number have no leading zero |
| `DecimalText.ParseInt` | binary-tree.js:132 | a string with no digit at all reads as `NaN`; a non-empty string made only of digits reads as the number they denote |
| `DecimalText.Join` | binary-tree.js:114 | when no piece holds a comma, the joined string holds exactly one comma fewer than there are pieces |
| `DecimalText.Split` | binary-tree.js:123 | there is one piece more than the string has commas, and no piece holds a comma |
| `DecimalText.ParseIntOfIntToString` | binary-tree.js:132 | `parseInt` in base 10 reads every integer's text back to that integer |
| `DecimalText.DigitsValueOfNatToString` | binary-tree.js:132 | the digits of a natural number denote that number |
| `DecimalText.IntToStringIsPlainToken` | binary-tree.js:114 | an integer's text is non-empty, holds no comma and differs from `null` |
| `DecimalText.SplitJoin` | binary-tree.js:123 | splitting a comma-join on commas gives back the pieces when none of them holds a comma |
| `DecimalText.JoinSplit` | binary-tree.js:123 | joining the pieces of any split string with commas gives back the string, so the pieces are exactly the text between its commas |

## Findings

| source | as written | input that shows it | evidently intended | confidence | as-written member | corrected member |
|---|---|---|---|---|---|---|
| binary-tree.js:73-96 | the traversal returns `targetDepth` (-1) at a match and never records a level, so levels are never compared; `depth !== -1` fails only when a target is the root (then `found` is 1) or the two targets are the root's children (then the parents are equal), cases the other two tests already reject | tree 1(2(4), 3) with node1 = the node holding 4 (level 2) and node2 = the node holding 3 (level 1): the result is `true` | nodes on different levels are not cousins (the method's comment: "same level but different parents") | high; not executed | `CousinCheck.AsWrittenIgnoresLevels` | `CousinCheck.AreCousinsAtSameLevel` |

## Left out

- `minDepth` / `maxDepth` (binary-tree.js:20-30) call `this._depth`, which binary-tree.js does not define. They throw when called, so there is no behaviour to model.
- JavaScript numbers are doubles. Node values are modelled as unbounded integers. Precision loss beyond `Number.MAX_SAFE_INTEGER`, fractional values, and the exponent form that number-to-text conversion uses from 1e21 on are not modelled.
- `MaxPathSum.MaxSum`: sums are exact integers. The source's double arithmetic can round above 2^53.
- `Codec.Deserialize`: all pieces are read as tokens before the tree is built. If some piece reads as `NaN` in `parseInt`, the model returns `NotANumber` for the whole string. The source instead builds a node holding `NaN`, or ignores the piece when it lies after the root's subtree.
- `DecimalText.ParseInt`: the white-space set `parseInt` skips is listed by code point. Unicode space separators added after that list are not covered.
- `CousinCheck.Traverse`: the contract states only whether the returned depth is -1, which is all the caller uses. It does not state the exact value returned otherwise.
- `serialize(null)` throws a runtime error when it is given the `null` that `deserialize("")` returns. That error is not modelled.
- Node objects are modelled as values and node identity as position. Shared or cyclic node graphs built by hand cannot be expressed.
- `buildTree` assigns `node.left` and `node.right` in place. The model builds the node value after both children exist.
- Recursion-depth limits (stack overflow on very deep trees) and `module.exports` are not modelled.
