# Verified models of six algorithms from misc-algorithms

This project models six small algorithm implementations and proves their properties in Dafny:

- **CART split search and tree growth** (`tree-based/cart.py`, and the sibling `tree-based/fast_splitter.py`):
  - `get_best_splitter` sorts the rows by each feature column and walks them once, keeping running label counts for the two sides. It scores every boundary between distinct values by the weighted Gini cost, and returns the cheapest column.
  - `DecisionTree.fit` grows the tree breadth-first. `_split_node` partitions each node's rows into a `<= threshold` child and a `> threshold` child.
  - Modules: `Rows` (arrays of rows with a binary label column; counting, sorting, filtering), `Cart`, `CartTree` and `FastSplitter`.
- **Shunting-yard** (`other/shunting.py`): the tokenizer and the infix-to-RPN converter. Module `Shunting`.
- **MT19937** (`numerical/mt19937.cpp`): seeding by the 69069 linear congruential generator, the twist of the 624-word state, and tempering. Module `MT19937`.
- **Quadratic integers** (`other/real_quadratic.py`): arithmetic in Z[sqrt D], namely `pow`, `divide`, `pell` and `calc_unit_pow`. Module `RealQuadratic`.
- **LASSO** (`regression/lasso.py`): the soft-thresholding operator and the bounded fitting loop. Module `Lasso`.

The code is modelled in its own form:

- Pure code becomes functions and lemmas.
- Loops become methods with invariants, proved against specification functions.
- Objects whose fields change become classes: `CartTree.Node`, `CartTree.DecisionTree`, `MT19937.Generator`, `RealQuadratic.QuadInt` and `Lasso.LassoRegression`.

Exceptions that the source raises are modelled as `Result` errors:

- `IndexError` when every feature column is ignored;
- `TypeError` when the best column of a non-empty node has no threshold (a node with no rows is the exception noted under "## Left out");
- the assertions in `fit`;
- `ValueError` in the tokenizer and in `rpn`;
- `ZeroDivisionError` in `divide`.

Feature values, costs and LASSO quantities are exact `real`s. MT19937 words are 64-bit bit-vectors, since `unsigned long` is 64 bits on LP64 platforms.

The pass that scores boundaries (`cart.py:56-61`) treats the last row specially. Its right side is empty, so the cost is 0/0, which numpy turns into NaN, and `NaN < min_cc` is false. That position is therefore never a candidate. This is also why `X[i + 1]` is never read past the end of the column.

## Model

| member | source | states |
|---|---|---|
| `Cart.Gini` | tree-based/cart.py:23-25 | `gini_idx(n0, n)` = 2p(1 − p) for the label-0 share p = n0/n; its properties are those of `Cart.GiniRange` |
| `Cart.GiniRange` | tree-based/cart.py:23-25 | `gini_idx(n0, n)` lies in [0, 1/2]; it is 0 exactly when n0 = 0 or n0 = n and 1/2 exactly when 2·n0 = n; it is symmetric in the two labels |
| `Cart.ImpurityRange` | tree-based/cart.py:57-58 | the weighted Gini cost of one non-empty side lies between 0 and half its row count |
| `Cart.CountStep` | tree-based/cart.py:46-54 | counting row i adds one to the left count of its label; left plus right counts equal the column totals; the right side holds the remaining rows |
| `Cart.CostFromCounts` | tree-based/cart.py:57-58 | the cost computed from the running counters equals the Gini cost of the sorted prefix up to the boundary plus that of the rest |
| `Cart.ColumnResult` | tree-based/cart.py:39-64 | the outcome a column pass may give: the midpoint of the first least-cost boundary and its cost when that cost beats 1e6, otherwise (None, 1e6); the all-rows-left position is never a boundary |
| `Cart.ChosenBoundary` | tree-based/cart.py:56-61 | a threshold returned by the pass is the midpoint of a boundary of minimal cost, and that cost is the one returned |
| `Cart.ScanColumn` | tree-based/cart.py:39-64 | the column pass with its four counters returns the midpoint of the first boundary of minimal cost if that cost beats 1e6, and (None, 1e6) otherwise; the all-rows-left position is never a candidate |
| `Cart.ColumnResultUnique` | tree-based/cart.py:56-61 | strict `<` makes the outcome of a pass unique: the first boundary of least cost |
| `Cart.PrefixZeroCount` | tree-based/cart.py:56-58 | at a boundary, the left label-0 count equals the number of label-0 rows whose value is at most the boundary value |
| `Cart.CostAgree` | tree-based/cart.py:39-58 | two orderings of the same rows by a column give every boundary the same cost |
| `Cart.BoundariesAgree` | tree-based/cart.py:39-56 | two orderings of the same rows by a column have the same boundaries, at the same costs |
| `Cart.ColumnResultTransfer` | tree-based/cart.py:39-64 | the outcome of the pass carries over from one sorted ordering of the rows to any other |
| `Cart.TieOrderIrrelevant` | tree-based/cart.py:39-64 | `argsort` is not stable, yet every order of ties gives the same (split, cost), and no other outcome is possible |
| `Cart.CostBound` | tree-based/cart.py:57-59 | every candidate boundary costs at most n/2 |
| `Cart.ConstantColumnNoSplit` | tree-based/cart.py:45-64 | a column with one distinct value, or no rows, yields split None and cost 1e6 |
| `Cart.VaryingColumnSplits` | tree-based/cart.py:45-64 | a column with two distinct values and fewer than 2·10^6 rows yields a threshold |
| `Cart.MidpointSeparates` | tree-based/cart.py:61-96 | the midpoint lies strictly between the two values of its boundary; `<= split` selects exactly the sorted prefix up to the boundary and `> split` the rest |
| `Cart.FirstMinCost` | tree-based/cart.py:65 | element 0 of the list after stable `sorted` by cost is the first candidate of least cost |
| `Cart.CandidatesExtend` | tree-based/cart.py:35-64 | appending one eligible column's outcome keeps `best_splitters` as one outcome per non-ignored column, in column order |
| `Cart.CandidatesBest` | tree-based/cart.py:65 | once every column is scanned, the first least-cost candidate is the best splitter |
| `Cart.GetBestSplitter` | tree-based/cart.py:28-65 | fails exactly when every feature column is ignored; otherwise it returns a non-ignored column with that column's own outcome, of least cost among non-ignored columns, ties going to the lowest index |
| `Cart.ColumnOutcomeUnique` | tree-based/cart.py:39-64 | each column has exactly one outcome |
| `Cart.BestSplitterUnique` | tree-based/cart.py:35-65 | the best splitter is unique |
| `Rows.CountIfPermutation` | tree-based/cart.py:31-32 | label counts depend only on which rows occur, not on their order |
| `Rows.BinaryCounts` | tree-based/cart.py:31-32 | with labels in {0, 1}, the label-0 and label-1 counts add up to the row count |
| `Rows.SortByColumn` | tree-based/cart.py:39 | an ordering of the rows by a column exists: it is a permutation of the rows, sorted by that column |
| `Rows.SortedKeysAgree` | tree-based/cart.py:39-40 | however ties are ordered, two sortings of the same rows by a column agree on that column position by position |
| `Rows.FilterPartition` | tree-based/cart.py:92-96 | masks `<= v` and `> v` send every row to exactly one side |
| `Rows.FilterPermutation` | tree-based/cart.py:92-96 | the rows selected by a mask depend only on which rows occur |
| `Rows.FilterWellFormed` | tree-based/cart.py:92-96 | a child array keeps the width and the binary labels of its parent |
| `CartTree.SplitPartition` | tree-based/cart.py:84-96 | the two children of a split partition the parent's rows, and both are non-empty and well formed |
| `CartTree.SplitIsSortedPrefix` | tree-based/cart.py:39-96 | in any ordering by the split column, the left child holds the rows up to the chosen boundary and the right child the rest |
| `CartTree.Decided` | tree-based/cart.py:65-92 | once `get_best_splitter` has picked its splitter, the node is usable exactly when that splitter has a threshold, and the `TypeError` case arises exactly when it has none |
| `CartTree.SplitNodesUsable` | tree-based/cart.py:84-114 | every node split so far had a usable split: with `Fit`, the tree is built exactly when every node above the last level is usable |
| `CartTree.SortedSplit` | tree-based/cart.py:39-96 | a column outcome with a threshold splits any sorted ordering of the rows at its chosen boundary, both children non-empty |
| `CartTree.SplitAtBoundary` | tree-based/cart.py:61-96 | the masks at the midpoint of a boundary select, from the unsorted rows, exactly the sorted prefix up to that boundary and the rest |
| `CartTree.ChildColumns` | tree-based/cart.py:86-96 | a left child never splits on a column its parent ignored or split on; a right child avoids only its parent's column (its `used_columns` is `[col]`) |
| `CartTree.Node.constructor` | tree-based/cart.py:68-73 | a new node has no children and holds the given columns and array |
| `CartTree.DecisionTree.constructor` | tree-based/cart.py:77-78 | a new tree has an empty, unsplit root |
| `CartTree.DecisionTree.SplitNode` | tree-based/cart.py:80-97 | fails only with the `IndexError` of an empty candidate list (exactly when no column is eligible) or the `TypeError` of a missing threshold (exactly when the best splitter has none), changing nothing; succeeds exactly when the node is usable, and then gives the node two fresh children: left holds the `<=` rows with `used_columns` = `ignore_cols + [col]`, right holds the `>` rows with `[col]` |
| `CartTree.DecisionTree.Attach` | tree-based/cart.py:90-97 | links a node to two fresh unsplit children holding the given arrays and columns |
| `CartTree.DecisionTree.SplitRoot` | tree-based/cart.py:104-105 | splits the root with `ignore_cols` None; succeeds exactly when the root's rows are usable, and otherwise fails with one of the two `_split_node` errors, changing nothing |
| `CartTree.DecisionTree.SplitLeaf` | tree-based/cart.py:111 | splits a leaf with its own `used_columns`; succeeds exactly when that leaf is usable, and otherwise fails with one of the two `_split_node` errors, changing nothing |
| `CartTree.DecisionTree.SplitLevel` | tree-based/cart.py:109-114 | splits every node of the frontier in order and returns their children as the next frontier; a failure is one of the two `_split_node` errors, raised at the first frontier node that is not usable |
| `CartTree.DecisionTree.SplitLevels` | tree-based/cart.py:108-114 | repeats the level split until the tree has depth `max_depth`; a failure is one of the two `_split_node` errors, raised at the first node in breadth-first order above that depth that is not usable |
| `CartTree.DecisionTree.Fit` | tree-based/cart.py:100-114 | fails on `max_depth < 1` or on a root already split, changing nothing; otherwise fails only with a `_split_node` error, at the first breadth-first node above depth `max_depth` that is not usable; on success the 2^max_depth − 1 upper nodes are split (and so were usable, by `CartTree.SplitNodesUsable`), the 2^max_depth nodes of the last level are leaves, and that level holds every row exactly once |
| `CartTree.Extend` | tree-based/cart.py:84-97 | splitting the first unsplit node extends the breadth-first picture by its two children |
| `CartTree.GrownWellFormed` | tree-based/cart.py:90-96 | every node of a grown tree holds a well-formed array |
| `CartTree.SplitRows` | tree-based/cart.py:90-96 | the children of a split node together hold exactly its rows |
| `CartTree.ChildrenSum` | tree-based/cart.py:109-114 | the children of a run of split nodes hold exactly those nodes' rows |
| `CartTree.LevelPartition` | tree-based/cart.py:107-114 | each complete level of the tree holds every row of the root exactly once |
| `FastSplitter.ScanColumn` | tree-based/fast_splitter.py:20-42 | the column pass returns the value XX that ends the first least-cost boundary, if its cost beats 1e6, and (None, 1e6) otherwise |
| `FastSplitter.ValueResultUnique` | tree-based/fast_splitter.py:37-42 | strict `<` makes the outcome of a pass unique |
| `FastSplitter.ValueResultTransfer` | tree-based/fast_splitter.py:20-42 | the outcome carries over between sorted orderings of the same rows |
| `FastSplitter.ValueTieOrderIrrelevant` | tree-based/fast_splitter.py:20-45 | the order of ties does not change a column's result, and the result is unique |
| `FastSplitter.ResultsAgree` | tree-based/fast_splitter.py:37-42 | on the same sorted rows, this pass and the classifier's stop at the same boundary: equal cost, a threshold in both or in neither, and the midpoint lies just past XX |
| `FastSplitter.MidpointOutcomeOf` | tree-based/fast_splitter.py:20-45 | each outcome of this pass has a matching outcome of the classifier's pass on the same column |
| `FastSplitter.ValueOutcomeOf` | tree-based/fast_splitter.py:20-45 | each outcome of the classifier's pass has a matching outcome of this pass |
| `FastSplitter.ResultOfValue` | tree-based/fast_splitter.py:37-42 | on the same sorted rows, the classifier's pass has an outcome of the same cost with a threshold exactly when this scan has one |
| `FastSplitter.ValueOfResult` | tree-based/fast_splitter.py:37-42 | conversely, each outcome of the classifier's pass has an outcome of this scan of the same cost, with a threshold exactly when it has one |
| `FastSplitter.ValueSeparates` | tree-based/fast_splitter.py:37-42 | `<= XX` selects exactly the sorted prefix up to the boundary |
| `FastSplitter.SamePartition` | tree-based/fast_splitter.py:37-45 | for one column, both scans agree on the cost, on whether there is a threshold, and on the partition the threshold induces, order included |
| `FastSplitter.ThresholdsAgree` | tree-based/fast_splitter.py:37-42 | on the rows themselves, the midpoint and XX put every row on the same side |
| `FastSplitter.ConstantColumnNoValue` | tree-based/fast_splitter.py:26-45 | zero rows, or a column with one distinct value, yield (None, 1e6) |
| `FastSplitter.ValueOccurs` | tree-based/fast_splitter.py:42 | the reported threshold is a value that occurs in the column |
| `FastSplitter.ScannedBest` | tree-based/fast_splitter.py:46 | after all columns are scanned, the first least-cost candidate is the best splitter |
| `FastSplitter.GetBestSplitter` | tree-based/fast_splitter.py:13-46 | fails exactly when the array has no feature column; otherwise it returns a column's own outcome, of least cost over all columns, ties going to the lowest index |
| `FastSplitter.FastBestUnique` | tree-based/fast_splitter.py:43-46 | the best splitter is unique |
| `FastSplitter.AgreesWithCart` | tree-based/fast_splitter.py:13-46 | against the classifier's search with nothing ignored: same column, same cost, a threshold in both or neither, and the same rows in the same order on each side |
| `Shunting.CharacterClasses` | other/shunting.py:1-3 | the operator and bracket predicates name exactly the characters of `MATHOPS` and `BRACKETS` |
| `Shunting.DigitChar` | other/shunting.py:1 | each digit value has a digit character |
| `Shunting.Spelling` | other/shunting.py:11-16 | every natural number has a non-empty all-digit spelling |
| `Shunting.SpellingRoundTrip` | other/shunting.py:16 | `int()` of a number's decimal spelling gives the number back |
| `Shunting.Strip` | other/shunting.py:7 | removing spaces leaves no space and never lengthens the string |
| `Shunting.StripKeeps` | other/shunting.py:7 | removing spaces keeps every other character, with its multiplicity |
| `Shunting.StripNoSpaces` | other/shunting.py:7 | a string without spaces is unchanged |
| `Shunting.DigitRun` | other/shunting.py:13-15 | the inner loop stops at the first non-digit: a maximal run of digits |
| `Shunting.DigitRunExact` | other/shunting.py:13-15 | a run of digits followed by a non-digit or the end is the maximal run |
| `Shunting.ReadDigits` | other/shunting.py:12-15 | the inner loop collects exactly the maximal digit run from `idx` and stops after it |
| `Shunting.Lex` | other/shunting.py:6-22 | the lexical definition of `tokenize` on a stripped string: a rejected character occurs in the string and is neither a digit, an operator nor a bracket; `LexError` and `LexRender` state the rest |
| `Shunting.Tokenize` | other/shunting.py:6-22 | the loop over the stripped string yields exactly the token list of the lexical definition, or the first rejected character |
| `Shunting.LexDigits` | other/shunting.py:11-16 | a digit run becomes one integer token equal to its decimal value, followed by the tokens of the rest |
| `Shunting.LexSymbol` | other/shunting.py:17-19 | an operator or bracket becomes its own one-character token, followed by the tokens of the rest |
| `Shunting.RejectedShift` | other/shunting.py:10-21 | skipping allowed characters keeps whether the whole string is allowed and which character is rejected first |
| `Shunting.LexError` | other/shunting.py:17-21 | tokenizing succeeds exactly when every character is a digit, an operator or a bracket; otherwise the error names the first other character |
| `Shunting.LexWellSpaced` | other/shunting.py:11-16 | no two integer tokens are adjacent in the output, since digit runs are maximal |
| `Shunting.LexRender` | other/shunting.py:6-22 | writing a well-spaced token list out and tokenizing it gives the list back |
| `Shunting.LexNumberThen` | other/shunting.py:11-16 | a number's spelling before a rendered tail tokenizes to that number followed by the tail |
| `Shunting.LexSymbolThen` | other/shunting.py:17-19 | a symbol before a rendered tail tokenizes to that symbol followed by the tail |
| `Shunting.OpIndex` | other/shunting.py:36 | `MATHOPS.index(c)` is the first position of c in `MATHOPS` |
| `Shunting.Convert` | other/shunting.py:29-53 | the conversion of a token list, with the popping of line 38 either as written (`AsWritten`: `MATHOPS.index` of a '(' raises) or stopped at '(' (`StopAtBracket`); its properties are those of the lemmas below |
| `Shunting.Rpn` | other/shunting.py:25-53 | the loops over the token list and the stack give the tokenizer's error, or the conversion of the tokens with operator popping stopped at '(' |
| `Shunting.NumbersAppend` | other/shunting.py:33-34 | the integers of a concatenation are those of each part, in order |
| `Shunting.OperatorsAppend` | other/shunting.py:35-40 | the operators of a concatenation are those of both parts |
| `Shunting.PopConserves` | other/shunting.py:39 | moving the top of the stack to the output loses no operator and moves no integer |
| `Shunting.PopGreaterConserves` | other/shunting.py:37-39 | popping higher-priority operators conserves operators and integers |
| `Shunting.PopToOpenConserves` | other/shunting.py:45-46 | popping down to '(' conserves operators and integers |
| `Shunting.PushConserves` | other/shunting.py:40 | pushing an operator accounts for it |
| `Shunting.OperatorConserves` | other/shunting.py:35-40 | handling an operator accounts for it and conserves the rest |
| `Shunting.OpenConserves` | other/shunting.py:42-43 | pushing '(' adds no operator and no integer |
| `Shunting.CloseConserves` | other/shunting.py:44-50 | handling ')' conserves operators and integers and puts no ')' anywhere |
| `Shunting.DropOpen` | other/shunting.py:50 | dropping a '(' from the stack removes no operator |
| `Shunting.NumberConserves` | other/shunting.py:33-34 | an integer goes to the output in order |
| `Shunting.OtherConserves` | other/shunting.py:41-43 | a token that is not an operator adds no operator |
| `Shunting.StepConserves` | other/shunting.py:32-50 | every step of the main loop conserves the input's integers (in order) and operators |
| `Shunting.ConservesChain` | other/shunting.py:31-50 | conservation composes over successive steps |
| `Shunting.NumbersChain` | other/shunting.py:31-34 | integer order composes over successive steps |
| `Shunting.OperatorsChain` | other/shunting.py:31-40 | the operator count composes over successive steps |
| `Shunting.RunConserves` | other/shunting.py:31-50 | the main loop conserves integers (in order) and operators |
| `Shunting.FlushConserves` | other/shunting.py:51-52 | the final flush moves every stacked operator to the output and adds no ')' |
| `Shunting.ConvertConserves` | other/shunting.py:29-53 | in the output the integers appear in input order, every operator of the input appears exactly once, and ')' never appears |
| `Shunting.PopKeepsOpens` | other/shunting.py:39 | popping an operator keeps the stack's open brackets |
| `Shunting.PopGreaterStops` | other/shunting.py:37-39 | stopping at '(' never fails and keeps the open brackets |
| `Shunting.PopToOpenStops` | other/shunting.py:45-46 | popping to '(' stops at a '(' or at the bottom of the stack |
| `Shunting.CloseBracketOk` | other/shunting.py:44-50 | ')' succeeds exactly when an open '(' is on the stack, and it removes one |
| `Shunting.StepOk` | other/shunting.py:32-50 | a step fails only on an unmatched ')' |
| `Shunting.OperatorStepOk` | other/shunting.py:35-40 | with popping stopped at '(', an operator never fails |
| `Shunting.RunOk` | other/shunting.py:31-50 | the loop succeeds exactly when every ')' has a matching earlier '(' |
| `Shunting.ConvertOk` | other/shunting.py:29-53 | with popping stopped at '(', conversion succeeds exactly when every ')' is matched |
| `Shunting.PopGreaterPops` | other/shunting.py:36-40 | an arriving operator pops exactly the stacked operators of strictly greater `MATHOPS` index above the first lower or equal one, stopping at '(' |
| `Shunting.PopStep` | other/shunting.py:38-39 | popping one greater operator extends the popped run |
| `Shunting.PopGreaterAgrees` | other/shunting.py:37-39 | where the loop as written does not fail, it pops what the corrected loop pops |
| `Shunting.RunAgrees` | other/shunting.py:31-50 | where the main loop as written succeeds, it agrees with the corrected one |
| `Shunting.ConvertAgrees` | other/shunting.py:29-53 | where `rpn` as written succeeds, its output is the corrected one |
| `Shunting.PopsToOpenExact` | other/shunting.py:37-39 | popping for an arriving operator runs down to a '(' exactly when some '(' on the stack has above it only operators of strictly greater `MATHOPS` index |
| `Shunting.PopGreaterExact` | other/shunting.py:37-39 | the popping loop as written raises exactly where the corrected one stops at a '(', and otherwise gives the same stack and output |
| `Shunting.StepExact` | other/shunting.py:32-50 | one step as written raises exactly when an operator arrives over a stacked operator and its popping runs down to a '('; otherwise it is the corrected step |
| `Shunting.RunExact` | other/shunting.py:31-50 | the main loop as written raises exactly when the corrected loop meets such an operator before any unmatched ')'; otherwise the two give the same result |
| `Shunting.ConvertExact` | other/shunting.py:29-53 | `rpn` as written raises `ValueError` from `MATHOPS.index('(')` exactly on the inputs where the corrected conversion meets an operator whose popping runs down to a '(' before any unmatched ')'; on every other input, errors included, the two agree |
| `Shunting.LexExample` | other/shunting.py:6-22 | "(2^3-1)" tokenizes to `( 2 ^ 3 - 1 )` |
| `Shunting.RenderExample` | other/shunting.py:6-22 | the example token list is well spaced and written out as "(2^3-1)" |
| `Shunting.RunFirst` | other/shunting.py:31-32 | the loop starts with the first token |
| `Shunting.BracketCrash` | other/shunting.py:38 | `rpn("(2^3-1)")` as written fails: '-' pops '^' and then evaluates `MATHOPS.index('(')` |
| `Shunting.BracketFixed` | other/shunting.py:29-53 | with popping stopped at '(', "(2^3-1)" converts to `2 3 ^ 1 -` |
| `MT19937.Lcg` | numerical/mt19937.cpp:24 | the seeding step yields a word below 2^32 |
| `MT19937.MaskIsMod` | numerical/mt19937.cpp:22 | masking with 0xffffffff is reduction modulo 2^32 |
| `MT19937.SeedWord` | numerical/mt19937.cpp:22-25 | every seeded word is below 2^32 |
| `MT19937.Seeded` | numerical/mt19937.cpp:21-26 | seeding produces N words, all below 2^32 |
| `MT19937.Mix` | numerical/mt19937.cpp:35-36 | the top bit of one word, combined with the low 31 bits of the next, twisted by `MATRIX_A` when odd, is below 2^32 |
| `MT19937.Next` | numerical/mt19937.cpp:34-43 | a twisted word is below 2^32 whenever the word it xors with is |
| `MT19937.Recur` | numerical/mt19937.cpp:33-45 | the MT recurrence: words 0 … N − 1 are the state, and word j ≥ N is `Next` of words j − N + M, j − N and j − N + 1; `Window`, `RecurStep` and `TwistedWindow` state what it promises |
| `MT19937.Window` | numerical/mt19937.cpp:33-45 | the state after k twists holds words kN … kN + N − 1 of the MT recurrence |
| `MT19937.Twisted` | numerical/mt19937.cpp:33-45 | one twist yields N words |
| `MT19937.RecurStep` | numerical/mt19937.cpp:34-43 | word j ≥ N of the recurrence is built from words j − N + M, j − N and j − N + 1 |
| `MT19937.LastWord` | numerical/mt19937.cpp:42-43 | the last word combines the top bit of `state[N-1]` with the low bits of the new `state[0]` and xors with the new `state[M-1]`, completing the twist |
| `MT19937.RecurShift` | numerical/mt19937.cpp:33-45 | the recurrence restarted from any window continues the same sequence |
| `MT19937.RecurFits` | numerical/mt19937.cpp:22-43 | every word of the recurrence from a seeded state is below 2^32 |
| `MT19937.TwistedWindow` | numerical/mt19937.cpp:33-45 | twisting a window gives the next window |
| `MT19937.Temper` | numerical/mt19937.cpp:47-51 | tempering maps a 32-bit word to a 32-bit word |
| `MT19937.Step1Inverse` | numerical/mt19937.cpp:48 | `y ^= y >> 11` is undone by xoring shifts by 11 and 22 |
| `MT19937.Step2Inverse` | numerical/mt19937.cpp:49 | `y ^= (y << 7) & 0x9d2c5680` is invertible on 32-bit words |
| `MT19937.Step3Inverse` | numerical/mt19937.cpp:50 | `y ^= (y << 15) & 0xefc60000` is its own inverse on 32-bit words |
| `MT19937.Step4Inverse` | numerical/mt19937.cpp:51 | `y ^= y >> 18` is its own inverse on 32-bit words |
| `MT19937.Untemper` | numerical/mt19937.cpp:47-51 | the four tempering steps undone in reverse order; `TemperRoundTrip` proves it is the inverse of tempering |
| `MT19937.TemperRoundTrip` | numerical/mt19937.cpp:47-51 | tempering is undone by untempering: the output word depends on one state word and determines it |
| `MT19937.TemperInjective` | numerical/mt19937.cpp:47-51 | distinct 32-bit words temper to distinct outputs |
| `MT19937.Generator.constructor` | numerical/mt19937.cpp:17-19 | a new generator is seeded: the state is the seeded word sequence and `pos == N` |
| `MT19937.Generator.Sgenrand` | numerical/mt19937.cpp:21-26 | `state[0] = seed mod 2^32`, `state[i] = 69069·state[i-1] mod 2^32` for 1 ≤ i < N, `pos = N`, with writes kept inside the array |
| `MT19937.Generator.Twist` | numerical/mt19937.cpp:33-45 | the state becomes the next N words of the MT recurrence (the reference twist, the second loop starting at N − M) |
| `MT19937.Generator.TwistHead` | numerical/mt19937.cpp:34-37 | for i < N − M, the new `state[i]` is `state[i+M]` xor the twisted mix of `state[i]` and `state[i+1]` |
| `MT19937.Generator.TwistTail` | numerical/mt19937.cpp:38-41 | for N − M ≤ i < N − 1, the new `state[i]` uses the already-updated `state[i+M-N]` |
| `MT19937.Generator.NextWord` | numerical/mt19937.cpp:29-51 | twists exactly when `pos >= N` (and resets `pos`); advances `pos` by one so that 1 ≤ pos ≤ N; returns the tempering of the next word of the recurrence, a 32-bit value |
| `MT19937.SeedStoresReachN` | numerical/mt19937.cpp:23-24 | the seeding loop as written stores to index N |
| `MT19937.SeedOverrun` | numerical/mt19937.cpp:23-24 | the seeding loop writes one word past the N-word array |
| `MT19937.TwistOverrun` | numerical/mt19937.cpp:38-41 | the second twist loop as written reads far out of range for i < N − M (index 2^64 − 227 at i = 0), and in range only from N − M on |
| `RealQuadratic.Norm` | other/real_quadratic.py:32-34 | the norm is (a + b√D)(a − b√D), a rational integer |
| `RealQuadratic.Mul` | other/real_quadratic.py:21-22 | (a + b√D)(c + d√D) = (ac + bdD) + (ad + cb)√D, keeping the left factor's D; `NormMul` and `MulAssoc` state its properties |
| `RealQuadratic.Power` | other/real_quadratic.py:16-23 | x^n by repeated multiplication, and x itself for n ≤ 1; it keeps D, and `PowerNorm` and `PowerAdd` state its algebra |
| `RealQuadratic.QuadInt.constructor` | other/real_quadratic.py:10-14 | the dataclass holds a, b and D |
| `RealQuadratic.QuadInt.Pow` | other/real_quadratic.py:16-23 | returns a fresh object equal to (a + b√D)^n, and to self when n ≤ 1, leaving self unchanged |
| `RealQuadratic.QuadInt.Divide` | other/real_quadratic.py:25-30 | fails exactly on division by zero; otherwise returns (a/x, b/x, D) |
| `RealQuadratic.QuadInt.Pell` | other/real_quadratic.py:32-34 | `pell` is the norm of a + b√D |
| `RealQuadratic.NormFormula` | other/real_quadratic.py:34 | the norm is a² − D·b² |
| `RealQuadratic.NormMul` | other/real_quadratic.py:21-22 | the product in Z[√D] is norm-multiplicative (Brahmagupta's identity) |
| `RealQuadratic.Brahmagupta` | other/real_quadratic.py:21-22 | (ac + bdD)² − D(ad + cb)² = (a² − Db²)(c² − Dd²) |
| `RealQuadratic.PowerKeepsD` | other/real_quadratic.py:18 | powering keeps D |
| `RealQuadratic.PowerNorm` | other/real_quadratic.py:16-34 | `pell(pow(n)) = pell(self)^n` for n ≥ 1 |
| `RealQuadratic.UnitPower` | other/real_quadratic.py:16-34 | powers of a unit (norm ±1) are units |
| `RealQuadratic.UnitIntPow` | other/real_quadratic.py:16-34 | powers of ±1 are ±1 |
| `RealQuadratic.MulAssoc` | other/real_quadratic.py:21-22 | multiplication in Z[√D] is associative |
| `RealQuadratic.PowerAdd` | other/real_quadratic.py:16-23 | x^(m+n) = x^m · x^n |
| `RealQuadratic.CalcUnitPow` | other/real_quadratic.py:37-43 | returns one of 1, 2, 3, 6: 1 exactly when x and y are even and sigma = 1, 2 exactly for even x otherwise, 3 or 6 exactly when x is odd, 6 exactly when x is odd and sigma ≠ 1 |
| `Lasso.SoftThreshold` | regression/lasso.py:39-46 | for g ≥ 0 the result never exceeds abs(z) and is zero or has the sign of z |
| `Lasso.SoftThresholdShape` | regression/lasso.py:39-46 | for g ≥ 0 the result has magnitude max(abs(z) − g, 0) ≤ abs(z), is zero exactly when abs(z) ≤ g, and otherwise has the sign of z |
| `Lasso.SoftThresholdMinimises` | regression/lasso.py:39-46 | for g ≥ 0 the result minimises ½(x − z)² + g·abs(x) over all x (it is the proximal map of the L1 penalty) |
| `Lasso.ShrinkDown` | regression/lasso.py:41-44 | for z > g ≥ 0, z − g is the minimiser, and symmetrically for −z |
| `Lasso.ZeroIsBest` | regression/lasso.py:45-46 | for abs(z) ≤ g, zero is the minimiser |
| `Lasso.SoftThresholdMonotone` | regression/lasso.py:39-46 | soft thresholding preserves order |
| `Lasso.SoftThresholdNonExpansive` | regression/lasso.py:39-46 | soft thresholding never moves two inputs further apart |
| `Lasso.Descend` | regression/lasso.py:19-24 | the loop's outcome: it makes no update exactly when the budget is spent or the last RSS change is at most the threshold, and never more updates than the budget |
| `Lasso.DescendUnfold` | regression/lasso.py:19-24 | one pass of the loop body: an update, then the rest of the loop from the changed RSS |
| `Lasso.DescendBounded` | regression/lasso.py:19-24 | the loop makes no update when the budget is non-positive, otherwise at most `budget` updates; the coefficients are the update applied that many times |
| `Lasso.DescendExhausts` | regression/lasso.py:19-24 | when every update changes the RSS by more than the threshold, the whole budget is used |
| `Lasso.LassoRegression.constructor` | regression/lasso.py:7-10 | keeps alpha, threshold and iterations as given |
| `Lasso.LassoRegression.Default` | regression/lasso.py:6-10 | with no keyword arguments, the `kwargs.get` defaults: alpha 1.0, threshold 0.1, 10 iterations, no coefficients |
| `Lasso.LassoRegression.Fit` | regression/lasso.py:12-24 | from zero coefficients, the while loop leaves exactly the outcome of the loop's specification, touching no field but `coefficients` |
| `Lasso.FitBounded` | regression/lasso.py:15-24 | `fit` makes at most `iterations` updates and at least one when `iterations > 0`; with `iterations <= 0` the coefficients stay all zero |

## Left out

- `timing`, `compare_sklearn` and `main` in tree-based/cart.py, and the `__main__` blocks of tree-based/fast_splitter.py and other/shunting.py: they time, print, call sklearn and read `spam.data`.
- The `double` division at numerical/mt19937.cpp:53 and that file's `main`. `NextWord` returns the tempered integer, the numerator of that division.
- `fundamental_unit` in other/real_quadratic.py: it relies on float `sqrt` and float truncation, and terminates only by the periodicity of continued fractions.
- `_residual`, `_rss` and `_update_coefficients` in regression/lasso.py. They are numpy wrappers. `Fit` takes the RSS and the coefficient update as function parameters, and the data only through its column count.
- Floating point throughout: values are exact reals, so rounding and overflow are not modelled. In particular `threshold + 1 > threshold` (regression/lasso.py:17) always holds for reals, while for floats it fails above 2^53.
- NaN and infinite feature values are not modelled. The NaN that an empty right side produces is modelled by its effect: that position is never a candidate.
- CartTree.DecisionTree.SplitNode / Fit: a node with no rows, which only an empty input array can produce, is reported as `NoThreshold`. The source does not raise there: `arr[:, col] <= None` over an empty column compares nothing, so `_split_node` attaches two empty children and `fit` goes on. The model does not build those empty children.
- Cart.GetBestSplitter: requires labels in {0, 1} and a rectangular array with at least one column. The source counts other labels on neither side, and raises on an array with no columns.
- FastSplitter.GetBestSplitter: requires labels in {0, 1} and at least one column, as above.
- Cart.VaryingColumnSplits: requires fewer than 2·10^6 rows. With more rows a real candidate may cost more than the `1e6` sentinel, which the model keeps literally.
- MT19937.Lcg: the model computes the product in 32-bit arithmetic. That this equals `(LCG_C * w) & 0xffffffff` in 64-bit arithmetic (the low 32 bits of a product depend only on the low 32 bits of its factors) is not proved.
- `unsigned long` is taken to be 64 bits wide (LP64), and `size_t` 64 bits.
- The out-of-range store in `sgenrand` and the out-of-range reads in the second twist loop are undefined behaviour in C++. The model exhibits the indices (`SeedOverrun`, `TwistOverrun`) but not their effect on memory. `Generator` performs the in-range reference behaviour.
- `QuadInt` fields are annotated `float` but hold integers from `fundamental_unit`. They are modelled as `int`, with `real` only for `divide`.
- Shunting.Rpn: departs from other/shunting.py:38 as written. Its popping loop stops at '(' where the source evaluates `MATHOPS.index('(')` and raises `ValueError`; `Shunting.ConvertExact` states exactly on which inputs the source raises, and that it agrees with `Rpn` on all others.
- `Shunting.Rpn` returns a token list, which the source's `-> float` annotation misstates. The `ValueError` messages are not modelled, only which error occurs.
- `np.vectorize` of the soft-threshold operator over the coefficient vector belongs to `_update_coefficients` and is not modelled.

## Findings

| source | as written | input that shows it | evidently intended | confidence | as-written member | corrected member |
|---|---|---|---|---|---|---|
| other/shunting.py:38 | an operator that pops down to a '(' evaluates `MATHOPS.index('(')` and raises `ValueError` | `rpn("(2^3-1)")`: '-' pops '^' and then meets '(' | stop popping at '(' as the shunting-yard algorithm does, giving `2 3 ^ 1 -` | high (not executed) | `Shunting.ConvertExact` | `Shunting.BracketFixed` |
| numerical/mt19937.cpp:23 | the seeding loop runs `i <= N` and stores `state[N]`, one word past the array | any seed, e.g. 123456 in `main` | loop `i < N` | high (not executed) | `MT19937.SeedOverrun` | `MT19937.Generator.Sgenrand` |
| numerical/mt19937.cpp:38-40 | the second twist loop restarts at `i = 0` and reads `state[i + (M - N)]`, which in `size_t` arithmetic is 2^64 − 227 at i = 0 | the first `genrand` after seeding (`pos == N`) | start the loop at `i = N - M`, as in the reference implementation | high (not executed) | `MT19937.TwistOverrun` | `MT19937.Generator.Twist` |
