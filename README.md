# Prime dice solver: a verified Dafny model

The program is a desktop helper for a dice game. It reads a `|`-separated list of dice values and a level from 1 to 9. Each level has three prime targets, taken from a fixed 27-entry table. The program looks for an arithmetic expression over the dice that:

- uses every value exactly once;
- uses only `+`, `*`, `-` and `/`;
- has a floored value equal to one of the level's targets.

It answers `"<expression> = <value>"` for the first expression it finds. It answers `"N/A"` in two cases: when a pruning test fires before the search, or when the search finds no match among the trees it builds. Those trees are not all expressions over the dice: in each of them every operator has at least one single die as an operand, so a shape such as `(a+b)*(c+d)` is never tried.

The search runs in two phases:

- **Phase 1** (`bfs`) takes the second value of the sorted list as a seed. It combines the seed with up to three more values, in every order and under six operator/orientation choices. Each partial tree is paired with the values it has not used.
- **Phase 2** (`dfs`) is an exhaustive, deterministic first-match search. For each pending value in order, it tries six ways of attaching that value to the tree built so far.

The candidate lists are scanned in parallel, but the scan keeps the earliest success by list position.

The model has six modules, one file each:

| module | file | models |
|---|---|---|
| `Seqs` | `seqs.dfy` | • `Option`<br>• removal at an index<br>• subsequences<br>• `Vec::sort` as an in-place insertion sort, proved equal to a functional sort |
| `Decimal` | `decimal.dfy` | • `i32`/`usize` parsing and printing<br>• splitting on the separator<br>• the dice-list parser |
| `Ast` | `ast.dfy` | • the `AstNode` tree<br>• its evaluation<br>• the floor-and-cast target test<br>• `Display::fmt` and `simplify` |
| `Expansion` | `expansion.dfy` | phase 1, `bfs` and its inner `search` |
| `Completion` | `completion.dfy` | phase 2, `dfs` and its inner `search`:<br>• as a specification function<br>• as a method with the source's `for` loop and six early returns<br>• as the first match of an explicit enumeration of every tree the search visits |
| `Solver` | `solver.dfy` | • the target table<br>• `compute` as a specification function (`ComputeSpec`)<br>• `compute` as a method (`Compute`) that sorts an array in place and scans the candidates with a loop; its result is proved equal to `ComputeSpec` |

Where the Rust code panics, the model does not add a precondition. It returns `Outcome.Panic` instead. This covers three cases:

- an unparsable level;
- a level outside 1..9: level 0 underflows `lv - 1`; a level so large that `(lv - 1) * 3` exceeds `usize::MAX` overflows the multiplication; every other level above 9 indexes past the table;
- `i32` overflow of the sum or the product, under debug-build semantics.

`f32` values are modelled as exact reals extended with +∞, −∞ and NaN. Division by zero and the propagation of those values follow IEEE 754, up to the sign of zero. In the model the infinities arise only from division by zero: `f32` overflow to ±∞ is not modelled. `floor() as i32` saturates, and NaN becomes 0.

Five facts about the code that the model records:

- Level 2's targets are `{11, 13, 17}` (`Solver.TargetsOfLevels`).
- Levels `"0"` and `"10"` make `compute` panic (`Solver.LevelOutOfRangeExample`).
- The pruning test can hide a solution. For dice `1|1|2|6` at level 3 the sum 10 and the product 12 are both below the targets 19, 23 and 29, so the answer is `"N/A"`. Yet phase 1 builds `1+6*(2+1)`, which is 19, and the search on those dice succeeds (`Solver.PruningHidesSolution`).
- Under debug-build semantics, whether the sum or product overflows depends on the input order, because both are computed before the sort. Dice `65536|65536|0` at level 1 panic, since the product overflows before it reaches the zero; sorted, the same dice have product 0 (`Solver.OverflowPanicExample`, `Solver.CheckedFoldsDependOnOrder`).
- The reported solution is that of the earliest succeeding candidate by position in the phase-1 list, as `find_first` defines it (`Solver.FirstSuccessIsEarliest`).

## Model

| member | source | states |
|---|---|---|
| Seqs.SortInPlace | src-tauri/src/main.rs:39 | Sorting the dice array in place leaves exactly `SortSeq` of the old contents: a sorted permutation of them. |
| Seqs.SortSeq | src-tauri/src/main.rs:39 | The functional sort returns a sorted sequence with the same multiset as its input. |
| Seqs.SortedUnique | src-tauri/src/main.rs:39 | Any sorted permutation of a sequence equals `SortSeq` of it, so the in-place sort's result is determined. |
| Decimal.ParseDice | src-tauri/src/main.rs:15-20 | The dice list read from the text. `ParseDiceConcat`, `MalformedTokenDropped` and `ParseJoinedDice` state what it gives. |
| Decimal.ParseI32 | src-tauri/src/main.rs:18 | `parse::<i32>()` gives only values in the `i32` range. `ParseI32RoundTrip` shows it reads back every printed `i32`. |
| Decimal.ParseUsize | src-tauri/src/main.rs:22 | `parse::<usize>()` gives only values up to `usize::MAX`. Every such value printed in decimal parses back to itself (`ParseUsizeRoundTrip`). |
| Decimal.ParseUsizeRoundTrip | src-tauri/src/main.rs:22 | Every value up to `usize::MAX`, printed in decimal, is parsed back to itself by `parse::<usize>()`. |
| Decimal.IntToString | src-tauri/src/main.rs:125 | Printing an integer (here and in the reply at line 70) gives a non-empty text of digits and minus signs. `ParseI32RoundTrip` shows it is read back exactly. |
| Decimal.ParseI32RoundTrip | src-tauri/src/main.rs:18-19 | Parsing the decimal text of any `i32` gives back that value. |
| Decimal.KeepParsed | src-tauri/src/main.rs:18-20 | The parsed dice are never more than the tokens, and every kept value lies in the `i32` range. |
| Decimal.Split | src-tauri/src/main.rs:17 | Splitting on the separator yields at least one piece, and no piece contains the separator. |
| Decimal.JoinSplit | src-tauri/src/main.rs:17 | Joining the pieces of a split with the separator gives back the original text. |
| Decimal.SplitJoin | src-tauri/src/main.rs:17 | Splitting pieces that were joined, where no piece holds a separator, gives back the pieces. |
| Decimal.ParseDiceConcat | src-tauri/src/main.rs:15-20 | Parsing two texts joined by the separator gives the dice of the first followed by the dice of the second. |
| Decimal.MalformedTokenDropped | src-tauri/src/main.rs:18-19 | A token that does not parse as `i32` contributes nothing to the dice list. |
| Decimal.ParseJoinedDice | src-tauri/src/main.rs:15-20 | Any list of `i32` values printed and joined with the separator is read back as exactly that list. |
| Ast.Eval | src-tauri/src/main.rs:93-101 | `AstNode::compute` over reals extended with ±∞ and NaN. Its properties are stated by `EvalWithoutDiv` (exact integer value without quotients), `InfinityPropagates` (division by zero) and `MatchIsFinite` (the target test). |
| Ast.EvalWithoutDiv | src-tauri/src/main.rs:93-101 | On a tree without a quotient the evaluation is finite and equals the tree's exact integer value, computed by the independent reference `IntEval`. |
| Ast.Matches | src-tauri/src/main.rs:200 | The target test `prime.contains(&(t.compute().floor() as i32))`. `MatchIsFinite` states what a match implies. |
| Ast.FloorI32 | src-tauri/src/main.rs:63 | The floor cast lands in the `i32` range, and equals the mathematical floor whenever that floor is in range. |
| Ast.MatchIsFinite | src-tauri/src/main.rs:200 | With targets strictly between 0 and `i32::MAX`, a matching tree has a finite value whose floor is the matched target. |
| Ast.InfinityPropagates | src-tauri/src/main.rs:93-101 | Examples: division by zero gives ±∞ or NaN, and these propagate. `1/(1/0) = 0`, `0/0` is NaN, and `1/0 - 2/0` is NaN. |
| Ast.Render | src-tauri/src/main.rs:114-128 | `Display::fmt`. Its properties are stated by `RenderFlat` (only brackets are lost), `RenderBalanced` (balanced brackets), `RenderOperators` (`*` and `/` mirror the tree) and `LossyRendering`. |
| Ast.Simplify | src-tauri/src/main.rs:103-111 | `simplify`. Its properties are stated by `SimplifyCases` (which branch applies) and `RenderOperators` (it keeps `*` and `/`). |
| Ast.StripParens | src-tauri/src/main.rs:107 | Removing brackets leaves no `(` or `)`. |
| Ast.RenderOperators | src-tauri/src/main.rs:103-128 | The rendering and the simplified rendering contain `*` if and only if the tree has a `Mul` node, and `/` if and only if it has a `Div` node. |
| Ast.SimplifyCases | src-tauri/src/main.rs:103-111 | `simplify` removes all brackets from trees without `Mul`/`Div`, and returns the rendering unchanged otherwise. |
| Ast.RenderFlat | src-tauri/src/main.rs:114-128 | Deleting all brackets from a rendering gives the tree's plain infix text, so only bracketing is ever lost. |
| Ast.RenderBalanced | src-tauri/src/main.rs:114-128 | Every rendering has balanced brackets. |
| Ast.DigitTriples | src-tauri/src/main.rs:114-128 | For digits x, y, z, both `Sub(x, Add(y,z))` and `Add(Sub(x,y), z)` render as the bracketed text `(x-y+z)`. |
| Ast.LossyRendering | src-tauri/src/main.rs:103-128 | For digits x, y and a non-zero digit z, those two trees render identically (for 1, 2, 3 both as `(1-2+3)`), yet they evaluate to x−y−z and x−y+z, which differ. |
| Expansion.SixConserves | src-tauri/src/main.rs:151-181 | Each of the six candidates built from an inner candidate holds the new leaf together with the inner candidate's leaves, keeps the inner candidate's pool, and has one leaf more. |
| Expansion.CombineAt | src-tauri/src/main.rs:151-183 | Candidate `6k+j` of the flattened list is variant `j` of inner candidate `k`. |
| Expansion.Expand | src-tauri/src/main.rs:131-185 | The inner `search` of `bfs`. Its properties are stated by `CombineAt` (order), `ExpandLength` (count) and `ExpandConserves` (each value used once). |
| Expansion.Bfs | src-tauri/src/main.rs:187-195 | `bfs`. Its properties are stated by `BfsLength`, `BfsLengthClosedForm` and `BfsConserves`. |
| Expansion.ExpandLength | src-tauri/src/main.rs:131-185 | `search` on a pool of n values emits `Count(n, depth)` candidates: one when the pool is empty or depth > 2, otherwise `6·n` times the inner count. |
| Expansion.BfsLength | src-tauri/src/main.rs:187-195 | `bfs` emits no candidates for fewer than two values, and `Count(n-1, 0)` candidates otherwise. |
| Expansion.BfsLengthClosedForm | src-tauri/src/main.rs:130-196 | With n ≥ 4 values, `bfs` emits 216·(n−1)(n−2)(n−3) candidates. |
| Expansion.ExpandConserves | src-tauri/src/main.rs:131-185 | Every `search` candidate uses the seed and each pool value exactly once, across its leaves and its pool. Its pool is a subsequence of the input pool, and it has min(n+1, 4−depth) leaves for a pool of n values. |
| Expansion.ExpandHas | src-tauri/src/main.rs:131-185 | `search` misses no combination: for every pool position and each of the six variants, the variant of every candidate built one level deeper from that pool value is among the candidates. |
| Expansion.BfsConserves | src-tauri/src/main.rs:187-195 | Every `bfs` candidate holds min(n, 4) input values as leaves and the others as its pool, each value used once. The pool is a subsequence of the input minus the seed. |
| Completion.PicksPartition | src-tauri/src/main.rs:208-218 | Each `(next, rest)` pair of `all_kind_rest` accounts for every pending value exactly once. Its leftover is a subsequence of the pending values, one element shorter. |
| Completion.Complete | src-tauri/src/main.rs:198-274 | `dfs` as a function. `Dfs` computes it with the source's loop. Its properties are stated by `CompleteIsFirstMatch` (search order), `CompleteSound` and `CompleteNoneIff`. |
| Completion.Dfs | src-tauri/src/main.rs:198-274 | The loop with six early returns computes exactly `Complete`. |
| Completion.FirstMatchSpec | src-tauri/src/main.rs:220-270 | The first match is `None` exactly when no tree matches. Otherwise it is a matching tree of the list. |
| Completion.CompleteIsFirstMatch | src-tauri/src/main.rs:199-271 | The search returns the first matching tree of the full enumeration. The enumeration visits positions in ascending order, each under `Add(e,v)`, `Mul(e,v)`, `Sub(v,e)`, `Sub(e,v)`, `Div(e,v)`, `Div(v,e)`. |
| Completion.CompletionsAreCompletions | src-tauri/src/main.rs:199-271 | Every enumerated tree uses the leaves of the start tree plus each pending value once, and extends the start tree by one leaf per value. |
| Completion.CompleteSound | src-tauri/src/main.rs:200-267 | A result floors to a target, uses every leaf of the start tree and every pending value exactly once, and contains the start tree with one `Num`-carrying node added per value. |
| Completion.CompleteNoneIff | src-tauri/src/main.rs:204-270 | The search fails if and only if no enumerated tree matches. |
| Completion.AllCompletionsLength | src-tauri/src/main.rs:208-268 | The search visits 6^n·n! complete trees for n pending values. |
| Solver.PrimeLutShape | src-tauri/src/main.rs:7-10 | The table has 27 strictly increasing entries between 3 and 107. |
| Solver.Targets | src-tauri/src/main.rs:24-28 | A level's three targets are strictly increasing and lie in 3..107. |
| Solver.TargetsAscend | src-tauri/src/main.rs:7-28 | Every target of a level lies above every target of the level before. |
| Solver.TargetsOfLevels | src-tauri/src/main.rs:7-28 | Levels 1, 2, 5 and 9 have targets {3,5,7}, {11,13,17}, {43,47,53} and {101,103,107}. |
| Solver.SumFrom | src-tauri/src/main.rs:30-32 | The checked `.sum::<i32>()`. `SumFromIsSum` and `PanicIff` state what it gives. |
| Solver.ProductFrom | src-tauri/src/main.rs:33 | The checked fold that multiplies the dice, starting from 1. `ProductFromIsProduct` and `PanicIff` state what it gives. |
| Solver.SumFromIsSum | src-tauri/src/main.rs:30-32 | When the checked sum does not overflow, it is the sum of the values. |
| Solver.ProductFromIsProduct | src-tauri/src/main.rs:33 | When the checked product does not overflow, it is the product of the values. |
| Solver.SumPermutation | src-tauri/src/main.rs:30-32 | The sum depends only on the multiset of values. |
| Solver.ProductPermutation | src-tauri/src/main.rs:33 | The product depends only on the multiset of values. |
| Solver.PruneBoundOrderFree | src-tauri/src/main.rs:30-39 | The plain sum and product do not depend on order. So when neither checked fold overflows, in input order or sorted, pruning before the sort sees the same bound it would see after it. |
| Solver.CheckedFoldsDependOnOrder | src-tauri/src/main.rs:30-33 | Whether a checked fold overflows depends on order: the product of 65536, 65536, 0 overflows and that of 0, 65536, 65536 is 0; the sum of `i32::MAX`, 1, −1 overflows and that of −1, 1, `i32::MAX` does not. |
| Solver.OverflowPanicExample | src-tauri/src/main.rs:30-39 | The tokens `65536`, `65536`, `0` joined by the separator, at level 1, make `compute` panic, although the sorted dice have the checked product 0. |
| Solver.FirstSuccess | src-tauri/src/main.rs:55-58 | `find_first` over the phase-2 results. `FindFirst` computes it, and `FirstSuccessIsEarliest` states what it returns. |
| Solver.FindFirst | src-tauri/src/main.rs:55-58 | The scan returns the completion of the earliest succeeding candidate, as `FirstSuccess` specifies. |
| Solver.Search | src-tauri/src/main.rs:39-58 | Sorting a fresh array of the dice in place, expanding and scanning yields exactly `Solve`, the first success over the candidates of the sorted dice. |
| Solver.FirstSuccessIsEarliest | src-tauri/src/main.rs:55-58 | `find_first` gives `None` exactly when every candidate fails. Otherwise it gives the result of a candidate whose predecessors all fail. |
| Solver.ComputeSpec | src-tauri/src/main.rs:14-74 | `compute` as a function. `Compute` computes it. Its properties are stated by `PanicIff`, `ReplyNotAvailableIff`, `ComputeSuccess`, `PrunedNotAvailable` and `FewDiceNotAvailable`. |
| Solver.Compute | src-tauri/src/main.rs:14-74 | The method, which parses, looks up, prunes, sorts in place, expands, scans and formats, returns exactly `ComputeSpec`. |
| Solver.PanicIff | src-tauri/src/main.rs:22-33 | `compute` panics exactly when the level does not parse, lies outside 1..9, or the sum or product overflows `i32`. |
| Solver.PrunedNotAvailable | src-tauri/src/main.rs:30-37 | With a valid level and no overflow of the checked sum or product, when both are below all three targets, the answer is `"N/A"`. |
| Solver.FewDiceNotAvailable | src-tauri/src/main.rs:187-195 | With a valid level and fewer than two parsed values, the answer is `"N/A"`. |
| Solver.SolveSound | src-tauri/src/main.rs:39-58 | A solution floors to a target, uses every input value exactly once, and exists only for two or more values. |
| Solver.ComputeSuccess | src-tauri/src/main.rs:62-70 | Any reply other than `"N/A"` is `render(t) = n`, where `t` is the solution for the parsed dice, `n` = floor(eval t) is exact and is a target, and `t` uses each die once. |
| Solver.ReplyNotAvailableIff | src-tauri/src/main.rs:35-73 | A reply is `"N/A"` exactly when the pruning test fires or no candidate succeeds. |
| Solver.Format | src-tauri/src/main.rs:70 | The reply `format!("{} = {}", ans, ans.compute().floor() as i32)`. `FormatIsNotNotAvailable` and `ComputeSuccess` state what it gives. |
| Solver.FormatIsNotNotAvailable | src-tauri/src/main.rs:70 | A formatted solution is never the text `"N/A"`. |
| Solver.DigitsAroundJunk | src-tauri/src/main.rs:15-20 | Two digit tokens around a token that does not parse give exactly the two digits. |
| Solver.MalformedExample | src-tauri/src/main.rs:15-20 | The text `3`, separator, `x`, separator, `2` parses to `[3, 2]`: the malformed token is dropped. |
| Solver.SolveFindsCandidate | src-tauri/src/main.rs:44-58 | A phase-1 candidate with nothing pending that matches a target makes the search succeed. |
| Solver.BfsBuildsFour | src-tauri/src/main.rs:187-195 | On four dice phase 1 builds, with nothing pending, the tree with the second value as seed, then the fourth, third and first: `x+(z*(y+w))`. |
| Solver.PruningHidesSolution | src-tauri/src/main.rs:30-37 | The tokens `1`, `1`, `2`, `6` joined by the separator, at level 3, are answered `"N/A"` by pruning, although phase 1 builds `1+6*(2+1)`, which is 19 and matches, and the search on those dice succeeds. |
| Solver.BfsBuildsQuotient | src-tauri/src/main.rs:187-195 | On four dice phase 1 builds, with nothing pending, the tree with the second value as seed, then the first, fourth and third: `x*(w+z/y)`. |
| Solver.RoundingExample | src-tauri/src/main.rs:93-101 | For the sorted dice 1, 3, 3, 5 phase 1 builds `3*(1+5/3)`, which the model evaluates to exactly 8, no target of level 1. |
| Solver.PrunedExample | src-tauri/src/main.rs:30-37 | Dice `[1, 1]` at level 1 answer `"N/A"` through pruning. |
| Solver.FourOnesExample | src-tauri/src/main.rs:14-74 | Four tokens `1` joined by the separator, at level 1, are answered `1*(1+1+1) = 3`. The sum 4 is not below every target. The first phase-1 candidate evaluates to 4 and fails; the second evaluates to 3. |
| Solver.LevelOutOfRangeExample | src-tauri/src/main.rs:22-28 | Levels `"0"` and `"10"` panic. |

## Left out

- The Tauri shell is not modelled: the window attribute, the command attribute and `main` (src-tauri/src/main.rs:1-2, 12-13, 76-81). It is application lifecycle only.
- Timing and `println!` diagnostics are not modelled (src-tauri/src/main.rs:41-53, 60-68). They are I/O with no effect on the result.
- Rayon threads are not modelled. `find_first` promises the earliest match by position, and the model is the sequential scan `FindFirst`.
- Ast.Eval: `f32` rounding and signed zero are not modelled. The model computes exact reals, so on inputs where rounding changes a floor, its answer can differ from the program's. For example, `3*(1+5/3)` is a phase-1 candidate of dice `1|3|3|5`. In `f32` it is 7.9999995 and floors to 7, a level-1 target; the model evaluates it to 8 (`Solver.RoundingExample`).
- Ast.Eval: `f32` overflow to ±∞ is not modelled. Infinities in the model come only from division by zero.
- Ast.Eval: the `i32 as f32` conversion of values above 2^24 is modelled as exact.
- Release-build wrap-around is not modelled. The model uses debug-build semantics: overflow of the `i32` sum or product and of the `usize` index `(lv - 1) * 3` panics. In a release build these wrap instead. For example, level 6148914691236517207 wraps the index to 2, and the program then searches for targets 7, 11 and 13 where the model panics.
- The lossy rendering, where `simplify` drops brackets that matter, is modelled as written and is not treated as an error (`Ast.LossyRendering`).
- Pruning is modelled as written. It is not a sound cut: it can answer `"N/A"` where the search would find a solution (`Solver.PruningHidesSolution`).
- src/App.tsx, the React user interface, is not part of this model. Its `join("|")` of the dice is reflected only by `Decimal.ParseJoinedDice`.
