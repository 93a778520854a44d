# Phy2HTML tree core, in Dafny

This project models the two parts of Phy2HTML that hold the logic: the rooted
phylogenetic tree of `tree_utils.py` (its `Node` objects, their queries,
the Newick writer and the Newick reader) and the proportional dendrogram
layout of `tree_turtle.py`.

- `wrappers.dfy`: module `Wrappers`. `Option` and `Result`.
- `tree.dfy`: module `TreeModel`. A tree as a value
  (`Tree(name, branchLength, children)`), with the recursive queries
  `n_tips`, `tip_names`, `tip_nodes`, `max_node_tip_count`,
  `max_node_tip_length` and `max_node_name`, and the serialiser
  `newick_recursion`/`output_newick`.
- `arena.dfy`: module `Arena`.
  - `Node` objects with identity, as indices into an arena of records
    (name, branch length, ancestor link, ordered descendants).
  - The class `Forest` owns the arena. Its methods change it the way
    `Node()`, `add_child` and the property setters do, and walk it the way
    `distance_to_ancestor`, `common_ancestor` and `distance_on_tree` are
    documented to.
  - `root`, `is_descendant` and `is_sibling` are functions on the arena.
  - `Build` turns the node at an index into a `Tree` value.
- `decimal.dfy`: module `Decimal`. The branch-length text is read by a strict
  decimal-literal reader. It stands in for `eval` (see "Left out").
- `newick.dfy`: module `Newick`, the reader.
  - `Parse` is the specification: the left-to-right scan as a function over
    a zipper cursor (the subtree at the cursor plus the frames of its
    ancestors).
  - `ReadNewickTree` is the source's `while` loop over a `Forest`, moving a
    cursor index. It is proved to return exactly `Parse(text)`.
- `newick_props.dfy`: module `NewickProperties`. Node count, refusal of
  malformed text, and the write-then-read round trip.
- `turtle.dfy`: module `Turtle`.
  - Pen strokes and labels become `Mark` records.
  - `Layout`/`Sweep` state the layout as functions.
  - The recursive method `TreeTurtle` computes it with the source's loop over
    the children.
  - The `asWritten` flag selects the source's treatment of a node with a
    single child, or the intended one (see "Findings").
- `turtle_props.dfy`: module `TurtleProperties`. Bands, midpoints, connectors
  and staying inside the band.

Where the code and its description differ, the model follows the code:

- A list that is never closed, as in `(A,B;`, is read without complaint. The
  `;` ends the scan wherever the cursor is (`UnclosedListRead`).
- A label with two or more `:` is refused, because `split(":")` must yield
  exactly two parts (`TwoColonsRefused`). It is not split at the first `:`.
- Writing a tree without branch lengths drops the names of internal nodes, so
  reading it back gives `Shape(t)`, not `t`.

## Model

| member | source | states |
|---|---|---|
| TreeModel.NTips | tree_utils.py:113-123 | n_tips is at least 1 and at most the number of nodes |
| TreeModel.NTipsListAppend | tree_utils.py:119-123 | the tip count of a list of children is the sum of the parts' counts |
| TreeModel.TipNodes | tree_utils.py:207-218 | tip_nodes has exactly n_tips entries, each one a tip |
| TreeModel.TipNodesOccur | tree_utils.py:207-218 | every node tip_nodes lists occurs in the tree |
| TreeModel.TipNodesComplete | tree_utils.py:207-218 | every tip anywhere in the tree is in the list tip_nodes returns |
| TreeModel.TipNames | tree_utils.py:194-205 | tip_names has exactly n_tips entries |
| TreeModel.TipNamesAreTipNodeNames | tree_utils.py:194-218 | tip_names is, position by position, the names of tip_nodes, and both have n_tips entries |
| TreeModel.TipNamesListAppend | tree_utils.py:202-204 | the tip names of a list of children are those of the first part followed by those of the second (depth-first, left to right) |
| TreeModel.MaxNodeTipCount | tree_utils.py:173-182 | at least 1, equal to 1 exactly for a tip, and strictly greater than every child's |
| TreeModel.MaxNodeTipCountAttained | tree_utils.py:173-182 | for an internal node it is one more than some child's |
| TreeModel.MaxNodeTipLength | tree_utils.py:163-171 | the node's own branch length plus a non-negative amount that is at least every child's value |
| TreeModel.MaxNodeTipLengthAttained | tree_utils.py:163-171 | that amount is 0 or some child's value |
| TreeModel.MaxNodeName | tree_utils.py:184-192 | at least the node's own name length and every child's value |
| TreeModel.MaxNodeNameAttained | tree_utils.py:184-192 | it equals the node's name length or some child's value |
| TreeModel.MaxNodeNameBoundsAll | tree_utils.py:184-192 | no node anywhere in the tree has a longer name |
| TreeModel.ShapeKeepsTips | tree_utils.py:220-234 | dropping internal names and branch lengths keeps the tip names in order and the node count |
| TreeModel.NewickRecursion | tree_utils.py:220-234 | an internal node's text starts with "("; without branch lengths, the text of a tree whose tip names hold none of "(),;:" contains no ";" (RoundTrip reads it back) |
| TreeModel.OutputNewick | tree_utils.py:236-240 | the text ends with ";", and without branch lengths, for such a tree, that is its only ";" |
| Arena.BuildHasBelow | tree_utils.py:57-67 | the tree a node heads contains the subtree of every node at or below it |
| Arena.BuildOnlyBelow | tree_utils.py:57-67 | every subtree of the tree a node heads is the subtree of some node at or below it |
| Arena.Root | tree_utils.py:82-89 | root returns a node with no ancestor on the caller's ancestor chain |
| Arena.RootOfAncestor | tree_utils.py:82-89 | every node above the caller has the same root |
| Arena.IsDescendant | tree_utils.py:91-101 | a descendant was created after the caller |
| Arena.IsDescendantIffBelow | tree_utils.py:91-101 | is_descendant(q) holds exactly when q lies strictly below the caller |
| Arena.NotOwnDescendant | tree_utils.py:91-101 | a node is not its own descendant |
| Arena.IsSibling | tree_utils.py:103-111 | for a node with an ancestor, q is a sibling exactly when q has the same ancestor (the node counts as its own sibling) |
| Arena.LcaIsLowestCommonAncestor | tree_utils.py:137-148 | a common ancestor exists exactly when the two nodes share a root; it lies above both, and below every other common ancestor |
| Arena.LcaSymmetric | tree_utils.py:137-148 | the common ancestor of i and q is that of q and i |
| Arena.TreeDistanceSymmetric | tree_utils.py:150-161 | the distance on the tree from i to q is the distance from q to i |
| Arena.LcaOfAncestor | tree_utils.py:143-144 | when q lies above i, the common ancestor is q and the distance is the branch-length sum up to q |
| Arena.PathLength | tree_utils.py:125-135 | the intended distance_to_ancestor: the branch lengths from the node up to, not including, the ancestor; DistanceToAncestor and LcaOfAncestor state its properties |
| Arena.Lca | tree_utils.py:137-148 | the intended common_ancestor: the first node on i's ancestor chain that is at or above q; LcaIsLowestCommonAncestor states what it means |
| Arena.TreeDistance | tree_utils.py:150-161 | the intended distance_on_tree: the two branch-length sums up to the lowest common ancestor; TreeDistanceSymmetric and LcaOfAncestor state its properties |
| Arena.AttachAppends | tree_utils.py:69-74 | add_child puts the child last in the parent's descendants after the earlier ones, sets the child's ancestor, and changes nothing else |
| Arena.Attach | tree_utils.py:69-74 | the record update add_child performs on the arena; AttachAppends and AttachKeepsWellFormed state what it changes and what it keeps |
| Arena.AttachKeepsWellFormed | tree_utils.py:69-74 | attaching a node that has no ancestor keeps ancestor links and descendant lists consistent |
| Arena.Forest.NewNode | tree_utils.py:20-25 | Node() adds one node with an empty name, branch length 1 and no links; the others are unchanged |
| Arena.Forest.AddChild | tree_utils.py:69-74 | a node without an ancestor is attached as described by Attach; one that has an ancestor is refused and nothing changes |
| Arena.Forest.SetName | tree_utils.py:31-33 | the setter changes this node's name and nothing else |
| Arena.Forest.SetBranchLength | tree_utils.py:42-44 | the setter changes this node's branch length and nothing else |
| Arena.Forest.DistanceToAncestor | tree_utils.py:125-135 | succeeds exactly when q is the node or one of its ancestors, with the sum of branch lengths from the node up to q (q's excluded); otherwise NotAnAncestor |
| Arena.Forest.CommonAncestor | tree_utils.py:137-148 | succeeds exactly when the lowest common ancestor exists and returns it; otherwise NotInSameTree |
| Arena.Forest.DistanceOnTree | tree_utils.py:150-161 | succeeds exactly when the nodes share a root, with the branch lengths from each up to their lowest common ancestor |
| Arena.ClimbAsWritten | tree_utils.py:145-148 | the climb answers only a node on the ancestor chain of where it began (that node or above) that has q strictly below it; passing the root is NotInSameTree |
| Arena.CommonAncestorAsWrittenAgrees | tree_utils.py:137-148 | for two different nodes, common_ancestor as written finds the lowest common ancestor |
| Arena.CommonAncestorAsWritten | tree_utils.py:137-148 | common_ancestor as written (misspelt call and property calls repaired): any node it answers lies above or at both nodes; otherwise NotInSameTree |
| Arena.CommonAncestorOfItselfAsWritten | tree_utils.py:137-148 | for a node and itself, common_ancestor as written never answers the node, and answers its ancestor when it has one |
| Decimal.Strip | tree_utils.py:272 | strip removes leading and trailing white space only: the result neither starts nor ends with it, and text without either is kept |
| Decimal.StripRemovesOnlySpace | tree_utils.py:272 | strip's result is a slice of the text with only white space before it and only white space after it |
| Decimal.IndexOfAnyFirst | tree_utils.py:275 | the index found, where `split(":")` cuts a label and where the literal's "." and exponent begin, is the first position holding one of the characters sought, or the end |
| Decimal.ParseDecimal | tree_utils.py:272 | a literal with a leading minus sign is at most 0, any other is at least 0 |
| Decimal.ParseDecimalOfDigits | tree_utils.py:272 | a run of decimal digits reads as its value |
| Decimal.ParseDecimalNegative | tree_utils.py:272 | a minus sign negates the literal that follows it |
| Newick.ReadLabel | tree_utils.py:264-277 | a run without ":" sets only the name, and a run with ":" never does |
| Newick.Parse | tree_utils.py:243-281 | read_newick_tree as a function of the text (a zipper scan); text without ";" is refused rather than read past its end |
| Newick.ReadLengthLabel | tree_utils.py:271-273 | ":" followed by digits sets only the branch length, to their value |
| Newick.ReadNameAndLengthLabel | tree_utils.py:274-277 | a name, ":" and digits set both the name and the branch length |
| Newick.ReadTwoColonsLabel | tree_utils.py:275 | a name followed by a second ":" is refused with TooManyColons |
| Newick.SiblingIsUpOpen | tree_utils.py:256-260 | "," is ")" followed by "(" whenever the cursor is not at the root |
| Newick.ArenaParse | tree_utils.py:243-281 | the scan over Node objects, from a single fresh node, gives the same result as the zipper scan |
| Newick.ScanStep | tree_utils.py:252-278 | one step of the loop advances the index and keeps what the remaining scan will produce, or reports the error the scan ends in |
| Newick.ReadLabelRun | tree_utils.py:264-278 | a label run ends at a symbol before the end of the text and is applied to the cursor node, or the scan's error is reported |
| Newick.ApplyLabel | tree_utils.py:269-277 | the label's name and/or branch length are set on the cursor node |
| Newick.ReadNewickTree | tree_utils.py:243-281 | the loop returns exactly what Parse specifies |
| NewickProperties.NodeCount | tree_utils.py:252-260 | a tree read has 1 node plus one for each "(" and each "," before ";" |
| NewickProperties.CursorSteps | tree_utils.py:252-277 | "(" and "," each add one node; ")" and labels add none |
| NewickProperties.RunRunsOff | tree_utils.py:266-267 | a label run that reaches the end of the text is refused with MissingTerminator |
| NewickProperties.CommaAfterRootLabel | tree_utils.py:256-257 | a "," straight after the root's label (the cursor still at the root) is refused with CommaAtRoot; Parse's definition covers a "," at the root elsewhere |
| NewickProperties.ScanTip | tree_utils.py:264-277 | a name without ":" read onto a newly created node sets only its name: the branch length stays Node()'s 1.0 and the node stays a tip |
| NewickProperties.RoundTrip | tree_utils.py:220-281 | reading what output_newick writes without branch lengths gives the tree's shape: the same tip names in order and the same number of nodes |
| NewickProperties.UnclosedListRead | tree_utils.py:251-263 | "(A,B;" is read as a root with tips A and B |
| NewickProperties.TwoColonsRefused | tree_utils.py:275 | "(A:1:2);" is refused with TooManyColons |
| NewickProperties.UnterminatedRefused | tree_utils.py:251 | "(A,B" is refused with MissingTerminator |
| Turtle.TruncBounds | tree_turtle.py:32 | trunc rounds toward zero and moves less than one |
| Turtle.Offset | tree_turtle.py:32 | x = trunc(branch_length * scale); TruncBounds states the rounding |
| Turtle.Share | tree_turtle.py:50 | the band height ndd * (maxy - miny) / nd rounded toward zero, in integers; ShareIsTrunc, ShareBounds, ShareAdd and ShareWhole state its properties |
| Turtle.ShareIsTrunc | tree_turtle.py:50 | the integer band height is trunc((ndd / nd) * (maxy - miny)) computed exactly |
| Turtle.ShareBounds | tree_turtle.py:50 | for a non-negative height, a band height is ndd * height / nd rounded down; negating the height negates the band height |
| Turtle.ShareAdd | tree_turtle.py:49-50 | the heights of two bands are at most that of a band for their tips together |
| Turtle.ShareWhole | tree_turtle.py:49-50 | a band holding all the node's tips is the whole height |
| Turtle.TreeTurtle | tree_turtle.py:11-99 | the recursive loop returns the y and draws the marks Layout specifies, with the source's lone-child handling |
| Turtle.Layout | tree_turtle.py:11-99 | tree_turtle as a function returning the y and the marks; TreeTurtle computes it and the TurtleProperties lemmas state its geometry |
| Turtle.Sweep | tree_turtle.py:44-62 | the loop over the children: each child drawn in the next band; SweepFrom states the bands and the first and last child's y |
| Turtle.DrawTreeTurtle | tree_turtle.py:102-113 | with no branch length to scale by there is no drawing; otherwise it is the layout of a 1000-pixel window scaled so the longest path spans 900 pixels, with labels |
| TurtleProperties.TipAtMidpoint | tree_turtle.py:76-92 | a tip sits at the floor-midpoint of its band, and its last mark is its branch from minx to minx plus its offset |
| TurtleProperties.SweepFrom | tree_turtle.py:44-62 | the sweep over the children ends at the last band's edge; the bottom y is the first child's, and the top is the last child's (for a lone child as written, the unchanged 0) |
| TurtleProperties.BandsInOrder | tree_turtle.py:43-62 | the first band starts at miny, each next band starts where the previous ended, and the last ends at or before maxy |
| TurtleProperties.BandsFit | tree_turtle.py:42-50 | the children's bands end at or before maxy |
| TurtleProperties.EdgeMonotone | tree_turtle.py:43-62 | band edges never decrease as the children are visited |
| TurtleProperties.ChildInBand | tree_turtle.py:49-52 | in the intended layout, each child's y lies within its own band |
| TurtleProperties.ChildrenInOrder | tree_turtle.py:58-61 | in the intended layout, the first child's y is at most the last child's |
| TurtleProperties.NodeY | tree_turtle.py:58-75 | an internal node's y is the floor-midpoint of its first and last child's y, the last counting as 0 when it is the only child (as written) |
| TurtleProperties.Connector | tree_turtle.py:67-92 | the vertical connector at minx plus the offset spans the first and last child's y, followed by the node's horizontal branch |
| TurtleProperties.LayoutInBand | tree_turtle.py:39-80 | with the lone-child case handled as intended, every node's y lies in [miny, maxy] |
| TurtleProperties.LayoutAgrees | tree_turtle.py:58-61 | without a single-child node, the layout as written equals the intended one |
| TurtleProperties.AsWrittenInBand | tree_turtle.py:39-80 | without a single-child node, the layout as written keeps every y in [miny, maxy] |
| TurtleProperties.LoneChild | tree_turtle.py:58-75 | with one child, the y as written is (0 - c) // 2 + c, and the intended y is c, the child's y |
| TurtleProperties.LoneChildLeavesBand | tree_turtle.py:58-75 | a root with a single tip child in band [10, 20] is placed at 7 as written, and at 15 as intended |

## Left out

- Strip: removes only the ASCII white space `str.strip` removes (space, `\t`, `\n`, `\v`, `\f`, `\r` and `\x1c`-`\x1f`); non-ASCII white space such as U+00A0 is kept.
- Turtle graphics and the window: pen moves, `turtle.write` and the screen setup in `draw_tree_turtle` become `Line` and `Text` marks. The colour, the hidden turtle and the window size and margins are not modelled.
- Floating point: branch lengths and the scale are exact `real`s. `math.trunc` of a product is `Trunc` of the exact product. The band height is computed in integers, and `Turtle.ShareIsTrunc` equates it with the exact value of `trunc((ndd / nd) * height)`. Python floats can round this differently at band edges.
- `eval` of branch-length text is replaced by `Decimal.ParseDecimal`. It accepts an optional sign, digits with an optional fraction, and an optional exponent. It does not accept numeric underscores, arithmetic expressions, names, `inf` or `nan`. Text that is not such a literal gives `BadBranchLength`, where `eval` would evaluate it or raise (`SyntaxError`, or `NameError` for a name such as `abc`). Unlike `eval`, an integer literal with leading zeros such as `007` is accepted (as 7).
- `format(self.branch_length, bl_format)` is a function parameter of `TreeModel.NewickRecursion`; `None` stands for the empty format. The round trip is proved without branch lengths.
- `node_depth`, `n_descendants` (a length), `main` of tree_utils.py and all of phy2html.py: file reading, prompts and HTML output, with no logic to model.
- The `maxx` and `draw_branch_lengths` parameters of `tree_turtle`: the first is only passed down and the second guards `pass`.
- Arena.Forest.AddChild: requires the parent to have been created before the child, and refuses a child that already has an ancestor. `add_child` itself would re-attach it and leave it listed under its old ancestor too. The reader only ever attaches a node just created.
- Arena.IsSibling: defined only for a node that has an ancestor. `is_sibling` dereferences `None` on the root.
- Arena.Forest.DistanceToAncestor, Arena.Forest.CommonAncestor, Arena.Forest.DistanceOnTree: model the documented behaviour. The code as written calls the `ancestor` property as a function (tree_utils.py:134, 147) and misspells `is_descendant` (tree_utils.py:146), so it cannot run: the first step raises `TypeError` (or `AttributeError` at line 146). With those calls repaired, a q that is not an ancestor makes `distance_to_ancestor` pass the root and read `None.branch_length` (an `AttributeError`, although its comment at tree_utils.py:127-128 expects a loop); here that is `NotAnAncestor`. Climbing past the root in `common_ancestor` is `NotInSameTree`.
- Newick.ReadNewickTree: returns the tree built from the root as a `Tree` value, where the source returns the root `Node`. Its loop body is split into the helper methods `ScanStep`, `ReadLabelRun` and `ApplyLabel`. Errors the source raises as Python exceptions are `ParseError` values:
  - `,` at the root is an `AttributeError` in the source and `CommaAtRoot` here;
  - running off the text is an `IndexError` and `MissingTerminator` here;
  - a bad `split` or a failed `eval` is a `ValueError`/`SyntaxError`, and `TooManyColons` or `BadBranchLength` here.
- Turtle.DrawTreeTurtle: returns `None` when the longest root-to-tip length is 0, where the source divides by zero.
- The tip labels among the marks (their positions, `NamePadding` and `FontShift`) are computed by `Layout` and `TreeTurtle`, but no lemma states where they fall.

## Findings

| source | as written | input that shows it | evidently intended | confidence | as-written member | corrected member |
|---|---|---|---|---|---|---|
| tree_turtle.py:58-61,75 | with a single child, the `elif` never records the last child's y, so `top_vert_line` stays 0 and the node is placed at (0 - y) // 2 + y | a root with one tip child, drawn in band [10, 20]: the child is at 15 and the root is placed at 7, outside its band; the connector runs from 15 to 0 | the node sits at its only child's y (15), inside its band | not executed | TurtleProperties.LoneChildLeavesBand | TurtleProperties.LayoutInBand |
| tree_utils.py:143-148 | (lines 146-147 read with `is_descedent` as `is_descendant` and `ancestor()` as `ancestor`; as they stand they raise `AttributeError`/`TypeError` first) when q is not above the caller, the climb starts at the caller itself and stops only at a node that has q strictly below it, so `x.common_ancestor(x)` passes x | any node x with an ancestor p: `x.common_ancestor(x)` answers p, and `distance_on_tree(x, x)` adds x's branch length twice instead of giving 0 | the common ancestor of a node and itself is the node | not executed | Arena.CommonAncestorOfItselfAsWritten | Arena.Forest.CommonAncestor |
