# Elementary cellular automaton with block-data injections

This project models the simulation core of the `ElementaryCA` generative
sketch in Dafny and proves properties of it.

The sketch draws a one-dimensional elementary cellular automaton:

- A rule number 0..255 is parsed into an eight-character binary table, most
  significant digit first (`parseRule`).
- Generation 0 is a row of `width` dead cells with the centre cell alive
  (`start`).
- Each later generation applies the rule to every cell and its two
  neighbours, wrapping around the row ends (`generate`, `executeRules`,
  `modulo`).
- Before each step, "injections" taken from block-transaction data may force
  single cells alive. Pair `i` of the data schedules an injection at
  generation `x mod height` (`getInjectionPoint`). The injection forces alive
  the column `y mod width` of the pair a running counter points at
  (`injectSeed`, `checkInjection`).
- Every row is recorded in the history `wholeSystem`. `generateAll` steps
  until the generation counter reaches the height (`isComplete`).

The sketch also labels the rule with traits:

- its Wolfram class, from four literal lists (`findClass`);
- the share of all rules in that class as a rounded percentage
  (`findPercentage`), reported as a "boost" of `100 - percent`;
- an extra rarity for mirrored images (`findExtraRarity`).

A mirrored image folds row and column indices about the centre of the grid
(`displayMirrored`).

Modules:

- `RuleTable` (rule_table.dfy): binary digits, `parseRule` and
  `executeRules`.
- `Injection` (injection.dfy): the injection trigger and target arithmetic,
  and counting the injections done in a window of generations.
- `WrapAround` (wrap_around.dfy): JavaScript's truncating `%`, and
  `modulo`, proved equal to the Euclidean remainder for a positive modulus.
- `Automaton` (automaton.dfy): the run as pure functions (`Row`,
  `History`), and the class `CellularAutomata`. Its methods update `cells`
  (an array), `wholeSystem`, `generation` and `injectionCounter` in place.
  They are proved to keep those fields equal to the pure run.
- `Classification` (classification.dfy): the four class lists verbatim,
  the proof that they partition 0..255, `findPercentage`, `findClass`,
  `findExtraRarity` and the recorded traits.
- `Mirror` (mirror.dfy): the index fold of the mirrored display.
- `Wrappers` (wrappers.dfy): `Option`.

Facts about the code worth knowing:

- The Periodic list has 158 entries. The four lists hold
  16 + 158 + 70 + 12 = 256 entries, one per rule number
  (`Classification.Partition`).
- The fold is not a true mirror: position 4 of a five-long dimension folds
  to 2, the centre (`Mirror.FoldOddLast`, `Mirror.FoldFiveRows`).
- `generate` never checks for completion: on a complete automaton it just
  steps again.
- A rule above 255 keeps all of its binary digits, and the lookup reads
  the first eight characters of that longer table.

## Model

| member | source | states |
|---|---|---|
| RuleTable.ToBinary | ElementaryCA/style.js:100 | `rule.toString(2)` is a non-empty string of binary digits that starts with '0' only for zero |
| RuleTable.ParseRule | ElementaryCA/style.js:99-103 | every rule number parses to a table the lookup can index: at least eight binary digits |
| RuleTable.ToBinaryValue | ElementaryCA/style.js:100 | reading the binary form back in base 2 gives the number |
| RuleTable.ToBinaryLength | ElementaryCA/style.js:100-101 | the binary form has at most k digits exactly when the number is below 2^k, so padding to eight digits is exact for 0..255 |
| RuleTable.PadValue | ElementaryCA/style.js:101 | the zeros padded in front do not change the value |
| RuleTable.ParseRuleRoundTrip | ElementaryCA/style.js:99-103 | `parseRule` gives a binary table of at least eight digits whose base-2 value is the rule; it is exactly eight digits long if and only if rule <= 255 |
| RuleTable.FromBinary | ElementaryCA/style.js:189 | `parseInt(s, 2)`: the digits read in base 2, most significant first; it has no contract of its own, and its properties are `ToBinaryValue` (it inverts `toString(2)`), `FromBinaryBound` and `FromBinaryInjective` |
| RuleTable.FromBinaryBound | ElementaryCA/style.js:189 | a binary string of n digits reads as a number below 2^n |
| RuleTable.FromBinaryInjective | ElementaryCA/style.js:99-103 | two binary tables of one length with the same value are equal |
| RuleTable.ParseRuleOnto | ElementaryCA/style.js:99-103 | every eight-digit binary table is the parsed form of its own value, which is at most 255: `parseRule` is a bijection from 0..255 onto eight-digit tables |
| RuleTable.NeighbourhoodValue | ElementaryCA/style.js:189 | the string "abc" of three cell states read in base 2 is 4a + 2b + c |
| RuleTable.BinaryBit | ElementaryCA/style.js:189-190 | digit j from the right of a binary table is bit j of its value |
| RuleTable.ExecuteRules | ElementaryCA/style.js:187-192 | `executeRules`: the table digit at index 7 minus the base-2 value of "abc"; it has no contract of its own, and its partner is `ExecuteRulesWolfram` |
| RuleTable.ExecuteRulesWolfram | ElementaryCA/style.js:187-192 | for rule 0..255, `executeRules(a, b, c)` on the parsed table is bit 4a + 2b + c of the rule (standard Wolfram numbering) |
| Injection.GetInjectionPoint | ElementaryCA/style.js:125-128 | a trigger exists exactly when the height is positive; it lies below the height and is congruent to x modulo the height |
| Injection.FiredBetween | ElementaryCA/style.js:137-144 | the number of pairs that trigger in a window of generations is at most the number of pairs looked at |
| Injection.FiredSplit | ElementaryCA/style.js:137-144 | counts over adjacent windows of generations add up |
| Injection.FiredNone | ElementaryCA/style.js:137-144 | an empty window holds no trigger |
| Injection.FiredNext | ElementaryCA/style.js:137-144 | pair i adds one to the count of a generation exactly when its trigger is that generation |
| Injection.FiredMonotone | ElementaryCA/style.js:137-144 | looking at more pairs never lowers the count |
| Injection.FiredWholeRange | ElementaryCA/style.js:125-128 | with a positive height, each pair triggers at exactly one generation below the height |
| Injection.InjectionsOverRun | ElementaryCA/style.js:137-144 | over a run to the height, every scheduled pair fires except those whose trigger is generation 0 |
| Injection.InjectSeedRow | ElementaryCA/style.js:130-135 | after `injectSeed` the cell at `y mod width` is alive and the length is kept |
| Injection.Injected | ElementaryCA/style.js:137-144 | repeated injections keep the row length |
| Injection.InjectedCells | ElementaryCA/style.js:130-144 | after the injections a cell is alive if and only if it was alive before or a used pair targets it: no cell is cleared and no other cell is set |
| WrapAround.JsRem | ElementaryCA/style.js:151 | JavaScript's `n % m` lies strictly between -abs(m) and abs(m), takes the sign of n and differs from n by a multiple of m: together, the remainder of division truncated toward zero |
| WrapAround.NegativeMod | ElementaryCA/style.js:151 | the Euclidean remainder of a negative number in terms of that of its negation |
| WrapAround.ModuloCases | ElementaryCA/style.js:150-152 | `((n % m) + m) % m` is the Euclidean remainder when m > 0, and minus that of -n by -m when m < 0 |
| WrapAround.Modulo | ElementaryCA/style.js:150-152 | `modulo(n, m)` with m > 0 lies in [0, m) and is congruent to n (it is the Euclidean remainder); with m < 0 it lies in (m, 0] |
| Automaton.SeedRow | ElementaryCA/style.js:105-119 | the seed row has the width as its length |
| Automaton.SeedRowOneLiveCell | ElementaryCA/style.js:105-119 | the seed row has exactly one live cell, at index floor(width / 2) |
| Automaton.Neighbourhood | ElementaryCA/style.js:160-163 | the three wrapped neighbours read as a number lie in 0..7 |
| Automaton.NextRow | ElementaryCA/style.js:158-165 | one step keeps the row length |
| Automaton.NextCellsIndex | ElementaryCA/style.js:158-165 | entry i of the first n cells of the next row is the table lookup for cell i |
| Automaton.NextRowCells | ElementaryCA/style.js:158-165 | cell i of the next row is `executeRules` of the cells at (i-1) mod W, i and (i+1) mod W, read through `modulo` |
| Automaton.WolframStep | ElementaryCA/style.js:158-165 | the reference step of a rule number keeps the row length |
| Automaton.NextRowIsWolframStep | ElementaryCA/style.js:158-165 | for rule 0..255, stepping with the parsed table equals the textbook step: cell i becomes bit 4 * cells[(i-1) mod W] + 2 * cells[i] + cells[(i+1) mod W] of the rule |
| Automaton.WolframCell | ElementaryCA/style.js:158-165 | for rule 0..255, the table lookup for cell i is bit `Neighbourhood(row, i)` of the rule |
| Automaton.InjectionsInRange | ElementaryCA/style.js:130-144 | the injections up to any generation use only pairs that exist, so `injectSeed` never reads past the pairs |
| Automaton.Step | ElementaryCA/style.js:154-167 | a step (the injections of the generation, then the rule on every cell) keeps the row length |
| Automaton.Row | ElementaryCA/style.js:154-179 | every recorded row has the width as its length |
| Automaton.History | ElementaryCA/style.js:154-179 | the history of n generations has n rows |
| Automaton.HistoryRows | ElementaryCA/style.js:154-179 | row g of the history is the row of generation g |
| Automaton.HistoryRow | ElementaryCA/style.js:154-179 | the same for one row g < n, by induction on n |
| Automaton.HistoryPrefix | ElementaryCA/style.js:154-179 | a longer run begins with the rows of a shorter one: recorded rows are never rewritten |
| Automaton.Advance | ElementaryCA/style.js:154-179 | injecting the current row and stepping it gives the row of the current generation, and recording it keeps the state consistent one generation on |
| Automaton.Rule204Bit | ElementaryCA/style.js:187-192 | bit 4a + 2b + c of 204 is b |
| Automaton.Rule204Cell | ElementaryCA/style.js:158-165 | under the parsed table of rule 204 each cell keeps its state |
| Automaton.Rule204Identity | ElementaryCA/style.js:154-167 | rule 204 maps every row to itself |
| Automaton.StepFixed | ElementaryCA/style.js:154-167 | a step without injections from a row that the table keeps cell by cell repeats that row |
| Automaton.Rule204Repeats | ElementaryCA/style.js:154-179 | with rule 204 and no injection points, every generation repeats the one before |
| Automaton.CellularAutomata.constructor | ElementaryCA/style.js:65-82 | a new automaton has no rule, no cells, generation 0, no injections and an empty history |
| Automaton.CellularAutomata.Init | ElementaryCA/style.js:84-88 | `init` stores the parsed rule and the injection data and seeds generation 0: the history is the seed row, the cells are the seed row and the generation is 1, and the automaton invariant holds |
| Automaton.CellularAutomata.SetRule | ElementaryCA/style.js:90-92 | `setRule` stores the parsed table |
| Automaton.CellularAutomata.ApplyBlockInjection | ElementaryCA/style.js:94-97 | `applyBlockInjection` stores the pairs and the points count |
| Automaton.CellularAutomata.Start | ElementaryCA/style.js:105-119 | `start` fills a fresh row of the width with the seed row, records it as history row 0 and sets the generation to 1, changing nothing else |
| Automaton.CellularAutomata.InjectSeed | ElementaryCA/style.js:130-135 | `injectSeed` sets the target cell of the pair at the counter alive, leaves the other cells unchanged and increments the counter by one |
| Automaton.CellularAutomata.CheckInjection | ElementaryCA/style.js:137-144 | `checkInjection` applies one injection for each pair below the points count whose trigger is the current generation, in ascending order; afterwards the counter equals the number of pairs that triggered at generations 1..generation |
| Automaton.CellularAutomata.CheckPair | ElementaryCA/style.js:139-143 | one pass of the loop of `checkInjection`: the counter and the cells advance by one injection exactly when pair i triggers at the current generation |
| Automaton.CellularAutomata.Generate | ElementaryCA/style.js:154-179 | `generate` keeps the automaton invariant, increments the generation by exactly one, and appends the next row to the history without changing the earlier rows, including the previous row (the injection changes only `cells`) |
| Automaton.CellularAutomata.Record | ElementaryCA/style.js:169-178 | the second loop of `generate` copies the new row into the cells, appends it to the history and moves the generation on by one |
| Automaton.CellularAutomata.IsComplete | ElementaryCA/style.js:194-196 | in a valid state, `isComplete` holds exactly when the history holds at least `height` rows; `GenerateAll` ensures it |
| Automaton.CellularAutomata.GenerateAll | ElementaryCA/style.js:181-185 | `generateAll` ends complete, at generation max(old generation, height), keeps the invariant and keeps all earlier history rows |
| Automaton.NeighbourhoodPass | ElementaryCA/style.js:158-165 | the neighbour loop of `generate` computes exactly the next row of the current cells |
| Automaton.Simulate | ElementaryCA/style.js:694-710 | building, `init` and `generateAll` produce max(height, 1) rows, each of the width; row 0 is the seed and row g is the row of generation g |
| Classification.FindPercentage | ElementaryCA/style.js:321-324 | `Math.round(n / 255 * 100)`: the nearest whole percentage of n out of 255 rules, rounding half up |
| Classification.FindClass | ElementaryCA/style.js:326-578 | a class is found exactly for 0..255; the rule is in that class's list, and the percentage is that list's share |
| Classification.FindExtraRarity | ElementaryCA/style.js:580-592 | 0 when not mirrored; otherwise a multiple of 25 between 25 and 100 |
| Classification.Attributes | ElementaryCA/style.js:703-725 | traits exist exactly for rules 0..255; their class contains the rule, the boost is 100 minus the class percentage, and the extra rarity is the one for the class and the mirrored flag |
| Classification.Range | ElementaryCA/style.js:326-578 | the set of rule numbers below n has n elements |
| Classification.Cover | ElementaryCA/style.js:326-567 | every rule 0..255 is in one of the four lists |
| Classification.ElementsCard | ElementaryCA/style.js:326-567 | a list has at most as many values as entries, and exactly as many only when it has no repeats |
| Classification.Pigeonhole | ElementaryCA/style.js:326-567 | n entries covering n values list each value once and nothing else |
| Classification.ClassSizes | ElementaryCA/style.js:326-567 | the lists have 16, 158, 70 and 12 entries |
| Classification.StretchesApart | ElementaryCA/style.js:326-567 | in a list without repeats, no value of one stretch appears in a later stretch |
| Classification.FourWayRange | ElementaryCA/style.js:326-567 | when the four lists put together hold only numbers below n, so does each list |
| Classification.FourWayDisjoint | ElementaryCA/style.js:326-567 | when the four lists put together have no repeats, no value is in two of them |
| Classification.FourWayPartition | ElementaryCA/style.js:326-567 | n entries of four lists covering 0..n-1 split 0..n-1 into four disjoint parts |
| Classification.Partition | ElementaryCA/style.js:326-567 | the four lists together list exactly 0..255, each value once: their concatenation has no repeats and its values are 0..255, every listed number is in 0..255, and no value is in two lists |
| Classification.DistinctStretches | ElementaryCA/style.js:326-567 | separate stretches of a list without repeats share no value |
| Classification.Disjoint | ElementaryCA/style.js:326-567 | no rule number is in two lists |
| Classification.InRange | ElementaryCA/style.js:326-567 | every listed number is in 0..255 |
| Classification.Classify | ElementaryCA/style.js:569-577 | a rule is in some list if and only if it is in 0..255 |
| Classification.FindClassUnique | ElementaryCA/style.js:569-577 | a rule is in a class's list if and only if `findClass` returns that class, so the order of the checks does not matter |
| Classification.Percentages | ElementaryCA/style.js:321-567 | the shares are Emptied 6, Periodic 62, Structured 27 and Chaotic 5 per cent |
| Classification.PercentageMonotone | ElementaryCA/style.js:321-324 | a longer list never gets a smaller share |
| Classification.ExtraRarityFavoursScarcity | ElementaryCA/style.js:580-592 | when mirrored, a class with fewer rules earns strictly more extra rarity |
| Classification.Rule30 | ElementaryCA/style.js:703-725 | rule 30 is Chaotic with boost 95, and extra rarity 100 when mirrored, 0 otherwise |
| Mirror.Fold | ElementaryCA/style.js:265-270 | for a dimension of length L >= 2 with centre c = floor(L / 2), the fold is a valid index; it is j itself below c, and in [1, c] from c on |
| Mirror.MirroredRow | ElementaryCA/style.js:265-272 | a painted row has the width of the recorded rows |
| Mirror.MirroredImage | ElementaryCA/style.js:265-272 | the painted grid has the shape of the recorded history |
| Mirror.FoldReflects | ElementaryCA/style.js:268-270 | for 0 <= t < c, position c + t folds to c - t, the same index as position c - t |
| Mirror.FoldOddLast | ElementaryCA/style.js:268-270 | for an odd length the last position folds onto the centre, not onto 0 |
| Mirror.FoldFiveRows | ElementaryCA/style.js:268-270 | position 4 of a five-long dimension folds to 2 |
| Mirror.ImageKeepsQuadrant | ElementaryCA/style.js:265-272 | the top-left quadrant is painted as recorded |
| Mirror.ImageSymmetric | ElementaryCA/style.js:265-272 | for offsets t < floor(H / 2) and u < floor(W / 2), rows c + t and c - t of the painted grid are equal, and in every row the cells at the centre column plus u and minus u are equal |

## Left out

- All drawing: `display`, the draw calls of `displayAll` and
  `displayMirrored`, the shape helpers, `makeCanvas`, and the React/p5 setup
  and metadata object. These are canvas output. Of `displayMirrored` only
  the grid of states it paints is modelled.
- The MersenneTwister shuffle and the seed derived from the block hash. The
  generator is an external library, and the hash prefix exceeds 2^53, so
  the seed is lossy floating point. The rule number, the injection pairs,
  the points count and the mirrored flag are parameters instead.
- Floating-point plumbing:
  - `mapModifier`;
  - the `log`/`pow` scale choice;
  - the constructor's `ratio`, offsets and division by `scale`, which can
    make `this.width` and `this.height` fractional. Width and height are
    whole numbers of cells here.
- Automaton.CellularAutomata.Init: requires width >= 1. With width 0 the
  source's `start` writes the centre cell at index 0 of an empty row, and
  the model does not follow that.
- Automaton.CellularAutomata.Init: requires the points count to be at most
  the number of pairs. The source reads `injection[i]` for every i below
  it, and would throw past the end.
- The points count is a whole number here. The sketch passes a float in
  [0, 1), so the loop of `checkInjection` runs at most once.
- Injection pairs hold `parseInt(x * 255, 10)` already taken as a natural.
  For values below 10^-6 JavaScript writes the product in exponent notation
  and `parseInt` misreads it; that case is not modelled.
- The `rarityProb >= 0.98` comparison is the boolean `mirrored` input of
  `FindExtraRarity` and `Attributes`. The 'Mirrored'/'Normal' symmetry
  string is that flag.
- Classification.FindPercentage: rounds the exact ratio n / 255 * 100
  rather than its floating-point value. The two agree, since 20n / 51 is
  never within rounding error of a half.
- Mirror.Fold: requires a length of at least 2. With a single row the
  source computes `j % 0`, reads `wholeSystem[NaN]` and throws. With a
  single column it does not throw there: it reads `wholeSystem[idy][NaN]`,
  which is undefined, and paints from that. The model leaves that case out.
- The files of the FractionalSpace application are not part of this model.
  They are a shader and a React shell: floating-point GPU code and UI
  plumbing.
