# Advent of Code 2020 solvers, modelled in Dafny

This project models the algorithmic core of a set of Advent of Code 2020 solutions, written
in Python with two Rust variants, and proves properties of it:

- **`comb.dfy`**: the parser-combinator engine (`comb.py`).
  - A `View` is the immutable string cursor (`StringView`). `Parser` is a datatype of the
    primitives (`char_fits_predicate`, `consume_string`, `read_integer`,
    `consume_whitespace`, `any_char`) and the combinators (`try_parsers`, `kleene`,
    `optional`, `take_until`, the `parser_generator` sequencing engine).
  - `Run` gives each parser its meaning, with `Diverges` for the loops that never end.
  - `Exec` and its helpers run the parsers with the source's loops, and are proved equal to
    `Run`.
- **`day10.dfy`**: adaptor chains in Python.
  - The difference count of part1, and the recursive `try_path` count of part2.
  - Both parts sort the caller's list in place (`sorting.dfy`).
- **`day10rs.dfy`**: the Rust part2. It augments and sorts the list, builds the adjacency
  matrix from a value-to-index map, and sums entry (0, n-1) of the matrix powers. The sum
  is proved to be the number of chains from the outlet to the device.
- **`day13.dfy`**: the bus puzzles. It covers the earliest bus, extended Euclid, the modular
  inverse, the Chinese remainder theorem and `part2_notbad`, with Python's floor division
  and modulo.
- **`day15.dfy`**: the memory game. The dictionary of the last two turns of each number is
  proved to replay the game.
- **`day17.dfy`** and **`day17_part2.dfy`**: the 3-D and 4-D Conway cubes.
  - `Bounds` is a class whose `expand` updates its fields.
  - `step` visits the box grown by one and gives back a copy of the bounds, expanded for
    every birth.
  - The invariant "every live cell lies inside the box" is proved to hold. Under it, a step
    is proved to apply the rule to the whole space.
- **`day19.dfy`**: the message rules.
  - `validate` and `validate_inner` are ordered choice without backtracking into an
    alternative.
  - `as_re` sets the `is_exported` flag of a `Rule` object in place.
  - Also `parse_rule`, `part1`, and the rule rewrite of part2.
- **`day20.dfy`**: the tile bookkeeping. It covers:
  - the eight orientations of a tile's edges, and opposite sides;
  - the non-mutating merge of assignment records, and the count of known sides;
  - the sides still to fill, walking the solved grid (`get_at_coord`, `find_corner`), and
    reading a tile.
- **`day22.dfy`**: Crab Combat.
  - `Deck` is a class whose `cards` queue `draw` and `win` update; `hascards` is the test
    `cards != []`.
  - Both games work on deep copies of the decks. They are proved against games on the
    values of the hands, whose rounds keep the cards in play.
- **`day23.dfy`** and **`day23rs.dfy`**: the cup game.
  - Part1 uses a deque listed from the current cup. Part2 uses a successor dictionary in
    Python and a `u32` vector in Rust.
  - All three are proved against one move rule (`Move`). The successor structures are
    proved to keep linking the circle that the moves produce.
- **`strings.dfy`**, **`basics.dfy`** and **`sorting.dfy`**: the Python built-ins the
  parsers use, on ASCII, plus `Option`/`Result` and the in-place sort.

Python's exceptions (`KeyError`, `IndexError`, `ValueError`, `StopIteration`) are mostly
error values (`Result.Err`, `Option.None`, `Ending.Fails`, `Corner.Raised`). The members
named under "Left out" with a precondition instead require inputs on which the source does
not raise. Loops that nothing bounds take a `fuel` budget.

## Model

| member | source | states |
|---|---|---|
| Comb.View.Peek | comb.py:15-18 | no character exactly at the end of the input; otherwise the character under the cursor |
| Comb.View.Next | comb.py:20-25 | at the end: failure with this same view and no value. Otherwise: success, a view one character further over the same text, and the character read |
| Comb.ParserGenerator | comb.py:33-46 | `parser_generator` returns a zero-argument thunk whose call gives the sequencing parser over the given steps |
| Comb.PrimReply | comb.py:49-87 | every primitive halts and stays on the same text without moving back |
| Comb.CharFitsReply | comb.py:141-148 | `char_fits_predicate` stays on the same text without moving back |
| Comb.ConsumeStringFrom | comb.py:62-70 | each round of the `consume_string` loop stays on the same text without moving back |
| Comb.ReadIntegerFrom | comb.py:73-87 | each round of the `read_integer` loop stays on the same text without moving back |
| Comb.WhitespaceFrom | comb.py:49-59 | each round of the `consume_whitespace` loop stays on the same text without moving back |
| Comb.Run | comb.py:33-168 | every parser that halts only moves forward over the same text |
| Comb.TryFrom | comb.py:94-102 | ordered choice from alternative `k` on only moves forward |
| Comb.KleeneFrom | comb.py:105-114 | each round of kleene only moves forward |
| Comb.TakeUntilFrom | comb.py:126-138 | each round of take_until only moves forward |
| Comb.TakeStep | comb.py:133-137 | the taker step of take_until only moves forward |
| Comb.GeneratedFrom | comb.py:33-46 | the generator driver, from step `k` on, only moves forward from the starting view |
| Comb.RunParser | comb.py:164-168 | `run_parser` gives a value exactly when the parser succeeds from position 0, and that value is the parser's |
| Comb.ConsumeAnyString | comb.py:90-91 | `consume_any_string` is ordered choice over `consume_string` of each literal, in order |
| Comb.CharFitsSpec | comb.py:141-148 | on a character the predicate accepts: success, one character consumed, that character returned. At the end or on a rejected character: failure with the original view |
| Comb.IsCharSpec | comb.py:151-152 | `is_char(c)` accepts exactly `c` and consumes one character; otherwise it fails with the original view |
| Comb.AnyCharSpec | comb.py:159-162 | `any_char` consumes one character, or fails with the original view at the end |
| Comb.ConsumeStringFromSpec | comb.py:62-70 | loop invariant of `consume_string`: success iff `t` is next in the input. On success the view is `|t|` further and the value is `t`; on failure the view is the original |
| Comb.ConsumeStringSpec | comb.py:62-70 | `consume_string(t)` halts, succeeds iff `t` is next in the input, and then advances exactly `|t|` returning `t`. On a mismatch it returns the original view; an empty `t` succeeds without moving |
| Comb.ReadIntegerFromSpec | comb.py:73-87 | loop invariant of `read_integer`: the digits read so far extend to the maximal digit run |
| Comb.ReadIntegerSpec | comb.py:73-87 | `read_integer` succeeds iff a digit is next. It consumes the maximal digit run and returns its decimal value; on failure it returns the original view |
| Comb.WhitespaceFromSpec | comb.py:49-59 | loop invariant of `consume_whitespace`: stop at the first non-whitespace, fail with the original view at the end |
| Comb.WhitespaceSpec | comb.py:49-59 | `consume_whitespace` returns the view at the first non-whitespace character. When only whitespace is left it fails with the original view |
| Comb.WhitespaceFailsAtEnd | comb.py:53-55 | `consume_whitespace` fails at the end of the input, the empty input included |
| Comb.TryFromSpec | comb.py:94-102 | the first alternative from `k` that does not fail decides the result. If all fail, the result is failure with the original view |
| Comb.TryParsersSpec | comb.py:94-102 | `try_parsers` runs every alternative on the original view and returns the first that does not fail. If all fail it returns `(False, orig_view, None)` |
| Comb.OrderedChoice | comb.py:94-102 | when the first alternative succeeds, the second is never consulted |
| Comb.ConsumeAnyStringSpec | comb.py:90-91 | `consume_any_string` returns the first listed literal that is next in the input |
| Comb.KleeneFromAcc | comb.py:105-114 | the values kleene collects are kept in encounter order after those already collected, and kleene never fails |
| Comb.KleeneNeverFails | comb.py:105-114 | `kleene` never fails and returns a list |
| Comb.KleeneUnroll | comb.py:105-114 | kleene stops with the view unchanged when the inner parser fails. Otherwise it puts the inner value in front of the rest, and diverges when the inner parser succeeds without moving |
| Comb.OptionalSpec | comb.py:117-123 | `optional` never fails. When the inner parser fails, the view is unchanged and the value is None |
| Comb.TakeUntilFromAcc | comb.py:126-138 | take_until keeps the taken values in order after those already taken |
| Comb.TakeStepAcc | comb.py:129-137 | the taker step keeps the taken values in order |
| Comb.TakeUntilSpec | comb.py:126-138 | one round of take_until: the untiller's success stops it without consuming. When the taker fails, the result is failure with the current, already advanced view |
| Comb.TakeUntilStopsAtOnce | comb.py:130-132 | when the untiller succeeds at once, take_until returns an empty list and discards the untiller's view |
| Comb.TakeUntilLeaks | comb.py:134-135 | take_until does not restore the view on failure: on "ab" it fails at position 2, not 0 |
| Comb.GeneratedFromShift | comb.py:33-46 | running the remaining steps of a generator after the first value is known is the same generator on the rest of the steps |
| Comb.GeneratedFromFails | comb.py:40-42 | a failure anywhere in the steps returns `(False, orig_view, None)` |
| Comb.GeneratedEmpty | comb.py:33-46 | a generator with no steps succeeds at once with its return value |
| Comb.GeneratedSpec | comb.py:33-46 | the first yielded parser runs on the starting view. Its failure fails the whole generator on the starting view; its success sends its value back and runs the rest from its view |
| Comb.Backtracking | comb.py:33-162 | every parser but take_until that fails returns the view it was given |
| Comb.LiteralScenario | comb.py:62-70 | `consume_string("foo")` on "foobar" succeeds at position 3 with "foo" |
| Comb.IntegerScenarios | comb.py:73-87 | `read_integer` reads 123 from "123abc" and stops at 3; on "abc" it fails at 0 |
| Comb.CompositeScenario | comb.py:33-46 | a generator of whitespace, integer and comma reads 42 from "  42," and ends at 5 |
| Comb.RunParserScenario | comb.py:164-168 | `run_parser` on that generator gives 42 |
| Comb.TakeUntilScenario | comb.py:126-138 | `take_until(any_char, ",")` on "ab,cd" collects 'a' and 'b' and stops before the comma |
| Comb.ExecPrim | comb.py:49-87 | the loops of the primitives compute exactly the primitive's reply |
| Comb.Exec | comb.py:33-168 | running any parser with the source's loops gives exactly `Run` |
| Comb.ExecTry | comb.py:94-102 | the loop over the alternatives gives exactly ordered choice |
| Comb.ExecKleene | comb.py:105-114 | kleene's loop gives exactly kleene's meaning |
| Comb.ExecTakeUntil | comb.py:126-138 | take_until's loop gives exactly take_until's meaning |
| Comb.ExecGenerated | comb.py:33-46 | the generator driver loop gives exactly the sequencing meaning |
| Basics.Count | day10.py:17-18 | `sum(1 for i in diffs if i == v)` is the multiplicity of `v` |
| Basics.MapAll | day19.py:61 | a list comprehension whose element may raise succeeds iff every element succeeds, and then holds one result per element, in order |
| Sorting.Sort | day10.py:7 | sorting in place leaves the array sorted and a permutation of what it held, and equal to `SortedOf` of its old contents |
| Sorting.Insert | day10.py:7 | one insertion step: the prefix one longer is sorted, holds the old prefix plus the moved element, and the rest of the array is untouched |
| Sorting.SortedUnique | day10rs/src/main.rs:10 | two sorted arrangements of the same values are equal, so every correct sort gives the same list |
| Sorting.SortedOf | day10rs/src/main.rs:10 | the sorted list as a value: sorted, and a permutation of the input |
| Day10.Diffs | day10.py:8-15 | the steps list is one longer than the adaptor list |
| Day10.Steps | day10.py:12-13 | consecutive differences: one fewer than the elements |
| Day10.DiffsSum | day10.py:8-15 | the steps add up to the device's rating, the last adaptor plus 3 |
| Day10.StepsSum | day10.py:12-13 | consecutive differences add up to last minus first |
| Day10.SortedSteps | day10.py:7-15 | in a sorted list every step is non-negative, the first is the lowest adaptor and the last is 3 |
| Day10.CountsPartition | day10.py:17-20 | when every step is 1, 2 or 3, the three counts add up to the number of steps |
| Day10.Part1 | day10.py:6-20 | the caller's array ends sorted and a permutation of itself. The result is (count of 1-steps) times (count of 3-steps); an empty list raises |
| Day10.DiffsOf | day10.py:8-15 | the loop builds `[a[0]]` + consecutive differences + `[3]` |
| Day10.Part2 | day10.py:36-39 | the caller's array ends sorted and a permutation; the result is `try_path(0, sorted, 0)`, which is the number of ways to take or skip each sorted adaptor with every adaptor at most 3 above the last one taken before it |
| Day10.Choices | day10.py:23-34 | every choice listed has one entry (take or skip) per adaptor |
| Day10.ChoicesComplete | day10.py:23-34 | every take-or-skip choice over the adaptors is listed |
| Day10.ChoicesDistinct | day10.py:23-34 | no choice is listed twice, so the count is a count of distinct choices |
| Day10.AdmissibleCons | day10.py:29-33 | a choice is admissible exactly when its first adaptor is within 3 of `current` and the rest is admissible from the rating it leaves (taken: the adaptor; skipped: `current`) |
| Day10.CountSplit | day10.py:29-34 | the choices split into those that take the first adaptor and those that skip it; none count when it is more than 3 above `current` |
| Day10.TryPathCounts | day10.py:23-34 | `try_path(current, adaptors, idx)` is the number of admissible choices over the adaptors from `idx` on |
| Day10.ArrangementsCount | day10.py:23-34 | the corrected count is the number of admissible choices that take the last adaptor |
| Day10.ArrangementsAtMost | day10.py:23-34 | `try_path` never counts fewer than the corrected count, on any list |
| Day10.TryPathOvercounts | day10.py:23-34 | `try_path` on [1, 2, 3] gives 8, where the chains that reach the device number 4 |
| Day10.NextChoicesFrom | day10.py:23-34 | the recursion index does not change the count of remaining choices |
| Day10.NextChoicesTooHigh | day10.py:30-31 | in a sorted list, once the next adaptor is more than 3 above the current one, no later adaptor can follow |
| Day10.ArrangementsAreChains | day10.py:23-34 | on a sorted list the corrected count (the last adaptor cannot be skipped) is the number of chains from `current` that take the last adaptor |
| Day10Rs.Mul | day10rs/src/main.rs:35 | the product of two n-by-n matrices is n-by-n |
| Day10Rs.Pow | day10rs/src/main.rs:29-36 | matrix powers stay n-by-n |
| Day10Rs.Row | day10rs/src/main.rs:29-36 | row 0 of a power has length n |
| Day10Rs.RowSum | day10rs/src/main.rs:29-36 | the sum of the first rows has length n |
| Day10Rs.RowTimesUnit | day10rs/src/main.rs:35 | the unit row times the matrix picks out row 0 |
| Day10Rs.RowTimesZeros | day10rs/src/main.rs:35 | the zero row times the matrix is zero |
| Day10Rs.RowTimesAdd | day10rs/src/main.rs:35 | a row product distributes over adding rows |
| Day10Rs.RowStep | day10rs/src/main.rs:35 | row 0 of power `k+1` is row 0 of power `k` times the matrix |
| Day10Rs.RowSumStep | day10rs/src/main.rs:33-36 | summing powers 0..k is the unit row plus (powers 0..k-1) times the matrix |
| Day10Rs.RowTimesUpper | day10rs/src/main.rs:21-27 | with no link backwards, rows at or after `j` add nothing to entry `j` |
| Day10Rs.RowTimesPaths | day10rs/src/main.rs:33-36 | a row holding the chain counts, times the matrix, counts the chains into `j` through earlier indexes |
| Day10Rs.RowSumIsPaths | day10rs/src/main.rs:33-36 | entry `j` of the sum of enough powers is the number of chains from 0 to `j` |
| Day10Rs.RowSumTotal | day10rs/src/main.rs:31-36 | the loop's total is the last entry of the summed rows, less the unit entry |
| Day10Rs.TotalIsPaths | day10rs/src/main.rs:29-38 | for a strictly upper-triangular matrix the total over the first n powers is the number of chains from the outlet to the device |
| Day10Rs.TotalOfAdjacency | day10rs/src/main.rs:19-38 | for the adjacency matrix of a sorted list the power total is the number of chains from the first index to the last |
| Day10Rs.Max | day10rs/src/main.rs:7 | `iter().max()` is an element at least as large as every element |
| Day10Rs.LastIndexes | day10rs/src/main.rs:12-17 | `reverse_indexes` maps exactly the list's values, each to an index holding it, and to the last such index |
| Day10Rs.Adjacency | day10rs/src/main.rs:19-27 | the matrix is n-by-n |
| Day10Rs.AdjacencyUpper | day10rs/src/main.rs:21-27 | on a sorted list every link leads to a later index (strictly upper triangular) |
| Day10Rs.AdjacencyDistinct | day10rs/src/main.rs:21-27 | with distinct values, `matrix[i][j]` is 1 iff `b[j] - b[i]` is 1, 2 or 3, and 0 otherwise |
| Day10Rs.SortedBounds | day10rs/src/main.rs:10 | a sorted list holding its least and largest values starts and ends with them |
| Day10Rs.AugmentedEnds | day10rs/src/main.rs:6-10 | after the pushes and the sort, the list starts with 0 and ends with max+3, two longer than the input |
| Day10Rs.AugmentRange | day10rs/src/main.rs:6-8 | every value of the augmented list lies between 0 and max+3 |
| Day10Rs.ReverseIndexes | day10rs/src/main.rs:12-17 | inserting the (value, index) pairs in order builds the last-index map |
| Day10Rs.FillAdjacency | day10rs/src/main.rs:21-27 | the nested loops set exactly the links for r = 1..3 |
| Day10Rs.PowerSum | day10rs/src/main.rs:29-38 | the loop computes the sum of entry (0, n-1) of the first n powers |
| Day10Rs.Augmented | day10rs/src/main.rs:6-10 | the array holds the sorted augmented list, two longer than the input |
| Day10Rs.AdjacencyMatrix | day10rs/src/main.rs:12-27 | the map and the matrix built from it equal the adjacency of the list |
| Day10Rs.Part2 | day10rs/src/main.rs:5-39 | the result is the power sum, and it equals the number of chains from the outlet to the device |
| Day13.PyMod | day13.py:5 | Python's `%`: the remainder of floor division, with the divisor's sign |
| Day13.PyModPositive | day13.py:5 | for a positive divisor Python's `//` and `%` agree with Euclidean ones |
| Day13.EGcd | day13.py:28-33 | `egcd(a, b) = (g, x, y)` with `a*x + b*y == g`, `g` dividing both, and `g >= 0` for non-negative inputs |
| Day13.EGcdStep | day13.py:32-33 | the recursive step keeps Bezout's identity and the common divisor |
| Day13.EGcdGreatest | day13.py:28-33 | every common divisor of `a` and `b` divides `g`, so `g` is the gcd |
| Day13.ModInv | day13.py:35-38 | a result `x` has `b*x ≡ 1 (mod n)` and lies in [0, n) for positive `n` |
| Day13.InverseFromBezout | day13.py:36-38 | `x % n` from Bezout's identity is an inverse |
| Day13.PyModUnique | day13.py:38 | Python's remainder is the unique one in the divisor's range |
| Day13.ModInvComplete | day13.py:35-38 | for `b >= 0, n > 0`, `modinv` gives an inverse iff `b` and `n` are coprime, and None iff no inverse exists |
| Day13.ModInvFound | day13.py:35-38 | a found inverse is an inverse, and `b`, `n` are coprime |
| Day13.GcdOneCoprime | day13.py:37 | `egcd` reporting 1 means coprime |
| Day13.ModInvMissing | day13.py:35-38 | None means no inverse exists and `b`, `n` are not coprime |
| Day13.NoInverse | day13.py:35-38 | a common divisor above 1 rules out every inverse |
| Day13.DivisorAtMost | day13.py:28-33 | a positive number's divisors are at most the number |
| Day13.Others | day13.py:45 | the moduli without the entry at `k`, in order |
| Day13.ProductAppend | day13.py:42 | `reduce(mul)` of a concatenation is the product of the products |
| Day13.ProductPositive | day13.py:42 | the product of positive moduli is positive |
| Day13.ProductOthers | day13.py:45 | `prod` is `n_i` times the product of the other moduli, so `prod // n_i` is exact |
| Day13.EntryDividesProduct | day13.py:42 | every modulus divides `prod` |
| Day13.CoprimeBezout | day13.py:28-33 | coprime arguments have Bezout coefficients for 1 |
| Day13.CoprimeProduct | day13.py:45-46 | a product of numbers coprime to `n` is coprime to `n` |
| Day13.CofactorFacts | day13.py:45-46 | `p = prod // n_i` is positive, coprime to `n_i`, and a multiple of every other modulus |
| Day13.CrtRound | day13.py:44-46 | after round `k`, the sum is congruent to `a_j` modulo `n_j` for every `j <= k`, and to 0 for the later ones |
| Day13.CrtStepAt | day13.py:46 | one round's effect on the residue modulo one modulus |
| Day13.TermMod | day13.py:46 | the term a round adds is `a_i` modulo its own modulus and 0 modulo the others |
| Day13.ChineseRemainder | day13.py:40-47 | for positive, pairwise coprime moduli the result lies in [0, prod) and is congruent to `a_i` modulo each `n_i`. A missing remainder (`zip` stops early) counts as 0 |
| Day13.Wait | day13.py:5 | for a positive id the wait `i - t % i` lies in [1, i] and reaches a departure |
| Day13.PyModPositiveIf | day13.py:5 | `t + wait` is a multiple of the id |
| Day13.Part1 | day13.py:1-9 | the result is id × wait of the first bus with the least wait below the starting minimum. If no wait beats the start, it is the starting product |
| Day13.Buses | day13.py:50-51 | the listed buses as (index, id), indexes increasing, each matching the input |
| Day13.BusListed | day13.py:50-51 | every listed bus appears in that list |
| Day13.Part2NotBad | day13.py:49-57 | for positive, pairwise coprime ids the result `t` has `(t + i) % id == 0` for every listed bus at index `i` |
| Day13.Departures | day13.py:51-57 | a solution of `r ≡ m - i (mod id)` gives `r - m + i ≡ 0` |
| Day13.BusIdsCoprime | day13.py:51-52 | the ids passed to `chinese_remainder` are positive and pairwise coprime |
| Day13.OffsetResidue | day13.py:57 | subtracting `m` turns the residue `m - i` into a departure at offset `i` |
| Day15.LastTurn | day15.py:9-23 | the last turn that spoke `x`: it did speak `x`, and no later turn did |
| Day15.PrevTurn | day15.py:21-23 | the turn that spoke `x` before its last mention, with none in between; 0 when there is none |
| Day15.Game | day15.py:13-23 | the game's history starts with the starting numbers and has `t` turns |
| Day15.LastTurnAppend | day15.py:21-23 | speaking `v` makes it the last mention of `v` and changes nothing else |
| Day15.PrevTurnAppend | day15.py:21-23 | speaking `v` moves its last mention to the earlier one |
| Day15.DistinctPrevTurn | day15.py:9-11 | starting numbers spoken once have no earlier mention |
| Day15.RepeatedNotDistinct | day15.py:9-11 | an earlier mention means a repeated number |
| Day15.Seed | day15.py:9-11 | after seeding, each starting number maps to `(0, its last turn)` and the last number is the last starting one (0 for none) |
| Day15.Part1 | day15.py:4-25 | with `n <= len(nums)` the result is the last starting number. Otherwise it is below `n` and non-negative, and, for distinct starting numbers, it is turn `n` of the game |
| Day15.Finish | day15.py:25 | the loop's final state gives part1's answer |
| Day15.Turn | day15.py:13-23 | one turn of the loop keeps its invariant |
| Day15.ReplayStep | day15.py:14-23 | the number a turn speaks is the game's next one, and the dictionary keeps following the game |
| Day15.SeedFacts | day15.py:9-11 | the seeded dictionary is bounded by the turn number and, for distinct starting numbers, replays them |
| Day15.BoundedStep | day15.py:14-23 | each spoken number is in [0, turn), and entries stay ordered and bounded |
| Day15.GameStep | day15.py:14-23 | after turn i+1, `ls[spoken]` is `(previous latest turn, i+1)`, and the dictionary still holds the last two mentions of every number |
| Day17.CodeDecode | day17.py:5 | positions 0..26 of `product([1, 0, -1], repeat=3)` decode to cube vectors and back |
| Day17.DecodeCode | day17.py:5 | every cube vector has one position in the product |
| Day17.OffsetsAre | day17.py:5 | `offsets` are exactly the 26 non-zero vectors of {-1, 0, 1}^3, each once |
| Day17.OffsetsDistinct | day17.py:5 | no offset repeats |
| Day17.OffsetCode | day17.py:5 | offset `k` sits at product position `k`, or `k+1` past the zero vector |
| Day17.OffsetMember | day17.py:5 | a vector is an offset iff it is a non-zero cube vector |
| Day17.CountFrom | day17.py:59-60 | the count over the first `k` offsets is at most `k` |
| Day17.CountLive | day17.py:59-60 | `count_live` lies in [0, 26] |
| Day17.CountFromReached | day17.py:59-60 | the count over the first `k` offsets is the number of live cells they reach |
| Day17.ReachedStep | day17.py:59-60 | each further offset reaches one new cell, not reached before |
| Day17.ReachedAdjacent | day17.py:59-60 | the cells the 26 offsets reach from `c` are exactly the cells adjacent to `c` |
| Day17.CountLiveAdjacent | day17.py:59-60 | `count_live(space, c)` is the number of live cells adjacent to `c` |
| Day17.Interval | day17.py:40-42 | `range(lo, hi)` holds exactly lo..hi-1 |
| Day17.Line | day17.py:39-43 | the cells of one line of the product |
| Day17.Plane | day17.py:39-43 | the cells of one plane of the product |
| Day17.Product | day17.py:39-43 | `itertools.product(xs, ys, zs)` holds exactly the cells with coordinates in those lists |
| Day17.Box.Expanded | day17.py:17-36 | `expand(c)` only widens the bounds, and then contains `c` |
| Day17.Box.Range | day17.py:38-43 | `range()` holds exactly the cells of the box grown by one on each side |
| Day17.ExpandedLeast | day17.py:17-36 | the expanded box is the least box that covers the old one and holds `c` |
| Day17.Bounds.constructor | day17.py:9-15 | the fields are the given limits |
| Day17.Bounds.Expand | day17.py:17-36 | the fields become the expanded box |
| Day17.NextSpacePrefix | day17.py:77-87 | visiting one more cell adds it to the output iff the rule makes it live |
| Day17.NextBoxPrefix | day17.py:85-87 | visiting one more cell expands the box by it iff that cell is born |
| Day17.Step | day17.py:73-89 | the output is the rule applied to the cells of `range()`. The new bounds are a fresh copy, expanded for each birth, and the input bounds are unchanged |
| Day17.NextBoxCovers | day17.py:85-87 | the new box covers the old one and every cell born |
| Day17.NextBoxLeast | day17.py:85-87 | and it is the least such box |
| Day17.CountFromOutside | day17.py:38-43 | with every live cell inside the box, a cell outside the grown box has no live neighbour |
| Day17.StepKeepsInside | day17.py:73-89 | a step keeps every live cell inside the new bounds |
| Day17.StepIsRule | day17.py:73-89 | with every live cell inside the bounds, a step applies the rule to all of Z^3: live survives with 2 or 3 neighbours, dead is born with exactly 3 |
| Day17.InitialInside | day17.py:93-99 | the first bounds hold the live cells of the grid |
| Day17.RunInside | day17.py:101-104 | from bounds that hold the live cells, every state of the run has its live cells inside its bounds |
| Day17.RunIsRule | day17.py:101-104 | every step of the run applies the rule to all of Z^3 |
| Day17.Seed | day17.py:96-99 | the loops add exactly the live cells of the grid, on plane z = 0 |
| Day17.Part1 | day17.py:92-106 | the number of live cells after six steps; an empty grid raises |
| Day17Part2.CodeDecode | day17_part2.py:5 | positions 0..80 of `product([1, 0, -1], repeat=4)` decode to cube vectors and back |
| Day17Part2.DecodeCode | day17_part2.py:5 | every 4-D cube vector has one position in the product |
| Day17Part2.OffsetsAre | day17_part2.py:5 | `offsets` are exactly the 80 non-zero vectors of {-1, 0, 1}^4, each once |
| Day17Part2.OffsetsDistinct | day17_part2.py:5 | no offset repeats |
| Day17Part2.OffsetCode | day17_part2.py:5 | offset `k` sits at product position `k`, or `k+1` past the zero vector |
| Day17Part2.OffsetMember | day17_part2.py:5 | a vector is an offset iff it is a non-zero cube vector |
| Day17Part2.CountFrom | day17_part2.py:73-74 | the count over the first `k` offsets is at most `k` |
| Day17Part2.CountLive | day17_part2.py:73-74 | `count_live` lies in [0, 80] |
| Day17Part2.CountFromReached | day17_part2.py:73-74 | the count is the number of live cells the offsets reach |
| Day17Part2.ReachedStep | day17_part2.py:73-74 | each further offset reaches one new cell, not reached before |
| Day17Part2.ReachedAdjacent | day17_part2.py:73-74 | the cells the 80 offsets reach from `c` are exactly the cells adjacent to `c` |
| Day17Part2.CountLiveAdjacent | day17_part2.py:73-74 | `count_live` is the number of live cells adjacent to `c` |
| Day17Part2.Interval | day17_part2.py:50-53 | `range(lo, hi)` holds exactly lo..hi-1 |
| Day17Part2.Line | day17_part2.py:49-54 | the cells of one line of the product |
| Day17Part2.Plane | day17_part2.py:49-54 | the cells of one plane of the product |
| Day17Part2.Solid | day17_part2.py:49-54 | the cells of one 3-D slice of the product |
| Day17Part2.Product | day17_part2.py:49-54 | the 4-way product holds exactly the cells with coordinates in those lists |
| Day17Part2.ExpandedCovers | day17_part2.py:21-46 | `expand(c)` only widens the bounds on all four axes, and then contains `c` |
| Day17Part2.Box.Range | day17_part2.py:48-54 | `range()` holds exactly the cells of the box grown by one |
| Day17Part2.ExpandedLeast | day17_part2.py:21-46 | the expanded box is the least box covering the old one and `c` |
| Day17Part2.Bounds.constructor | day17_part2.py:8-16 | the eight fields are the given limits |
| Day17Part2.Bounds.Expand | day17_part2.py:21-46 | the fields become the expanded box |
| Day17Part2.NextSpacePrefix | day17_part2.py:81-91 | visiting one more cell adds it iff the rule makes it live |
| Day17Part2.NextBoxPrefix | day17_part2.py:89-91 | visiting one more cell expands the box by it iff that cell is born |
| Day17Part2.Step | day17_part2.py:77-93 | the output is the rule applied to `range()`; the new bounds are a fresh copy expanded for each birth |
| Day17Part2.NextBoxCovers | day17_part2.py:89-91 | the new box covers the old one and every cell born |
| Day17Part2.NextBoxLeast | day17_part2.py:89-91 | and it is the least such box |
| Day17Part2.CountFromOutside | day17_part2.py:48-54 | a cell outside the grown box has no live neighbour |
| Day17Part2.StepKeepsInside | day17_part2.py:77-93 | a step keeps every live cell inside the new bounds |
| Day17Part2.StepIsRule | day17_part2.py:77-93 | with every live cell inside the bounds, a step applies the rule to all of Z^4 |
| Day17Part2.InitialInside | day17_part2.py:97-103 | the first bounds hold the live cells of the grid |
| Day17Part2.RunInside | day17_part2.py:105-109 | from bounds that hold the live cells, every state of the run has its live cells inside its bounds |
| Day17Part2.RunIsRule | day17_part2.py:105-109 | every step of the run applies the rule to all of Z^4 |
| Day17Part2.Seed | day17_part2.py:100-103 | the loops add exactly the live cells of the grid, at z = w = 0 |
| Day17Part2.Part2 | day17_part2.py:96-111 | the number of live cells after six steps; an empty grid raises |
| Day19.Rule.constructor | day19.py:20-23 | a new rule is not exported |
| Day19.Validate | day19.py:8-11 | a successful match never reports more than the message's length |
| Day19.Alternatives | day19.py:35-40 | the same bound for the first alternative that matches |
| Day19.Sequence | day19.py:25-33 | a success is bounded by the message length, and a failure reports length 0 |
| Day19.ValidateRule | day19.py:8-11 | the rule's `validate` computes exactly the matching meaning. A `CharRule` on empty input reports `(False, 0)`; otherwise length 1, succeeding iff the first character matches |
| Day19.ValidateInner | day19.py:25-33 | the loop over a sequence computes exactly the sequence meaning: every rule on what the previous ones left, lengths added, `(False, 0)` on failure |
| Day19.ValidateSound | day19.py:8-40 | a successful match of length `l` means the message's first `l` characters are derivable from the rule |
| Day19.AlternativesSound | day19.py:35-40 | a successful alternative derives the matched prefix |
| Day19.SequenceSound | day19.py:25-33 | a successful sequence derives the matched prefix |
| Day19.NoBacktracking | day19.py:25-40 | there is a grammar and a message ("aab") that rule 0 derives but `validate` rejects: no backtracking into an alternative |
| Day19.ExampleDerives | day19.py:25-40 | "aab" is derivable in that grammar |
| Day19.ExampleFails | day19.py:25-40 | and `validate` reports `(False, 0)` on it |
| Day19.RuleMap | day19.py:65 | `{r.n: r for r in rules}` maps every rule's number to a rule with that number, and a later rule replaces an earlier one |
| Day19.Bodies | day19.py:65 | the rule bodies, under the same keys |
| Day19.CountMatches | day19.py:69-75 | the count is at most the number of lines |
| Day19.CountedLinesDerive | day19.py:72 | a counted line is derivable from rule 0 in full |
| Day19.Part1 | day19.py:64-75 | part1 counts the lines that rule 0 matches in full, or raises `KeyError` without rule 0 |
| Day19.AsRe | day19.py:13-14 | flags only go from unexported to exported. A `CharRule` gives its character. An exported `RefRule` gives `(?&rule_n)` and changes nothing; otherwise it becomes exported and gives `(?P<rule_n>...)` with one part per alternative |
| Day19.AsReInner | day19.py:42-43 | the joined regex of the rules of a sequence; a missing rule raises `KeyError` |
| Day19.ConcatAppend | day19.py:43 | `"".join` of one more part appends it |
| Day19.Part2Regex | day19.py:77-83 | the rule map holds every input rule number plus 8 and 11. Rule 8 becomes the alternatives `42 8` or `42`, rule 11 becomes `42 11 31` or `42 31`, and every other number keeps its rule. Without rule 0 it raises `KeyError`; otherwise the regex is `^` + `as_re` of rule 0 + `$`: its character, a reference to its group when already exported, or its group with one part per alternative |
| Day19.ParseInts | day19.py:61 | `[int(y) for y in ...]` keeps one integer per piece |
| Day19.ParseAlts | day19.py:61 | one integer list per alternative |
| Day19.AltTexts | day19.py:61 | the text of each alternative |
| Day19.Numbers | day19.py:61 | each rule number written out with `str` |
| Day19.NumbersChars | day19.py:61 | an alternative's text holds only digits, signs and spaces |
| Day19.AltTextsChars | day19.py:61 | a rule body's text holds only digits, signs, spaces and bars |
| Day19.AltTextsAt | day19.py:61 | the texts are per alternative |
| Day19.AltTextEnds | day19.py:58-61 | an alternative's text starts and ends with no space and no bar, and does not start with a quote |
| Day19.ParseAltsTexts | day19.py:61 | parsing the alternatives' texts gives back the alternatives |
| Day19.ParseAltText | day19.py:61 | stripping and splitting one alternative's text gives back its numbers |
| Day19.ParseNumbers | day19.py:61 | parsing the written numbers gives them back |
| Day19.StripLeadingSpace | day19.py:55 | `strip` removes the space after the colon |
| Day19.BodyTextShape | day19.py:55-58 | a written body has no colon and no surrounding whitespace |
| Day19.ParseRefText | day19.py:58-62 | a written `RefRule` body is not a quoted character and parses back to its alternatives |
| Day19.RuleTextSplit | day19.py:55 | `line.split(":")` of a written rule gives its number and its body |
| Day19.ParseRuleText | day19.py:54-62 | `parse_rule` of a written rule `n: "c"` or `n: a b \| c d` gives back that rule |
| Day19.ParseBodyText | day19.py:58-62 | the right-hand side of a written rule, quoted character or alternatives, parses back to that rule |
| Day19.SplitRuleLine | day19.py:55 | `line.split(":")` of `n: body` gives the number and the body, when neither holds a colon |
| Day20.Reverse | day20.py:44 | `s[::-1]` has the same length, with positions mirrored |
| Day20.ReverseReverse | day20.py:44-48 | reversing twice gives back the edge |
| Day20.GeneratePossibleJoins | day20.py:38-56 | exactly 8 pairs, positions 0..7 in order, each the requested side of that orientation |
| Day20.OrientZero | day20.py:40-55 | position 0 is the tile's own sides, unchanged |
| Day20.RotateFour | day20.py:43-44 | four rotations restore the sides |
| Day20.FlipTwice | day20.py:46-49 | flipping twice restores the sides |
| Day20.OrientTops | day20.py:38-56 | the tops of the eight orientations are T, rev L, rev B, R, rev T, L, B, rev R |
| Day20.InvertSide | day20.py:58-59 | `invert_side` never gives the same side |
| Day20.InvertSideInvolution | day20.py:58-59 | `invert_side` is an involution |
| Day20.Set | day20.py:75 | `setattr` changes exactly one side |
| Day20.Merge | day20.py:70-77 | the sides `to_add` knows overwrite, the others and `ti` are kept |
| Day20.MergeIdempotent | day20.py:70-77 | merging the same record twice changes nothing more |
| Day20.MergeKeepsKnown | day20.py:72-75 | a side `to_add` does not know keeps its value |
| Day20.UpdateWithAssignment | day20.py:61-78 | a new map: `to_add` added when the tile is absent, otherwise merged into a copy. All other tiles are unchanged and the input map is never modified |
| Day20.FilledAmong | day20.py:84-87 | the count over some sides is at most their number |
| Day20.Filled | day20.py:83-87 | a record knows at most 4 sides |
| Day20.CountFilled | day20.py:83-87 | the inner loop counts the known sides |
| Day20.CountAssignments | day20.py:80-90 | `count_assignments` as written returns 0 for every input |
| Day20.AssignedSides | day20.py:80-90 | the corrected count is positive only when every record knows 2 to 4 sides |
| Day20.SumFilled | day20.py:80-90 | the total is at most 4 per record |
| Day20.CountAssignmentsCorrected | day20.py:80-90 | the corrected loop computes the number of known sides, or 0 for an invalid record |
| Day20.SolvedSquareCount | day20.py:227 | a solved 2-by-2 grid has `4*w*w - 4*w` known sides, which the corrected count finds |
| Day20.UnfilledSides | day20.py:193-194 | exactly the unknown sides, in the order top, left, bottom, right |
| Day20.NoneOf | day20.py:194 | the filter keeps exactly the unknown sides, in order |
| Day20.NoneOfAll | day20.py:194 | on a fresh record nothing is filtered out |
| Day20.GenerateRemainingAssignments | day20.py:196-197 | one `AssignmentToFill` per listed side and no other |
| Day20.RemainingCount | day20.py:196-197 | distinct sides give as many entries as sides |
| Day20.FreshTileToFill | day20.py:193-197 | a fresh record has all four sides to fill |
| Day20.GetAtCoord | day20.py:260-268 | the loops follow `bottom` `y` times and `right` `x` times, raising on a missing link |
| Day20.FollowDown | day20.py:262-264 | in a grid, following `bottom` k times moves k rows down |
| Day20.FollowRight | day20.py:265-267 | in a grid, following `right` k times moves k columns right |
| Day20.AtCoordInGrid | day20.py:260-268 | in a grid, `get_at_coord(x, y)` from the top-left gives the record at row y, column x |
| Day20.FindCorner | day20.py:199-207 | empty assignments raise `StopIteration`; otherwise the walk starts from the first record in insertion order |
| Day20.WalkFindsCorner | day20.py:201-206 | a corner found has neither of the two directions set |
| Day20.WalkToTopLeft | day20.py:199-207 | in a grid, walking top/left from any tile finds the top-left tile |
| Day20.Drop | day20.py:356 | Python's `s[k:]`, empty past the end |
| Day20.Column | day20.py:362-364 | the first (or last) character of every row |
| Day20.ParseTileText | day20.py:354-366 | parsing a tile's text gives its number and rows, the first row as top, the last as bottom, the first column as left and the last as right |
| Day20.ParseTileLines | day20.py:355-366 | a tile's lines give that tile |
| Day20.TileLines | day20.py:355 | a tile's text splits into its header and rows |
| Day20.ColonsStripped | day20.py:356 | `strip(":")` removes the header's colon |
| Day22.Deck.constructor | day22.py:7-9 | the deck holds the given number and cards |
| Day22.Deck.Draw | day22.py:14-15 | removes and returns the top card; the rest is the old tail |
| Day22.Deck.Win | day22.py:17-18 | appends the won cards at the bottom, in order |
| Day22.Deck.Score | day22.py:20-28 | the sum of card × weight, weights from the deck size down to 1; 0 for an empty deck |
| Day22.ScoreAppend | day22.py:20-28 | putting cards under a deck adds their count to every weight above |
| Day22.SeparateApart | day22.py:31 | the copied decks are pairwise different objects |
| Day22.SeparateAppend | day22.py:31 | adding a new deck keeps them apart |
| Day22.Hands | day22.py:55 | the cards of every deck, in seating order |
| Day22.Numbers | day22.py:32 | the number of every deck, in seating order |
| Day22.NewDecks | day22.py:72 | fresh, separate decks with the given numbers and cards |
| Day22.Copy | day22.py:31 | `deepcopy` gives fresh, separate decks with the same numbers and cards, so the caller's decks are never changed |
| Day22.Seat | day22.py:32 | `players_map[n]` is a deck numbered `n` |
| Day22.SeatLast | day22.py:32 | and the last one with that number |
| Day22.Table | day22.py:35 | the table's entries come from players with those numbers |
| Day22.AfterDraw | day22.py:35 | drawing keeps the number of hands |
| Day22.Best | day22.py:36 | `max(..., key=card)` picks an entry of the table |
| Day22.BestFirstMax | day22.py:36 | and it is the first entry with the highest card |
| Day22.Award | day22.py:41 | giving the table to the winner keeps the number of hands |
| Day22.Settle | day22.py:35-41 | a round keeps the number of hands |
| Day22.Holders | day22.py:43 | `sum(p.hascards() ...)` is at most the number of players |
| Day22.FirstHolder | day22.py:44-46 | the first player with cards |
| Day22.HoldersFront | day22.py:43 | the holder count unrolled once |
| Day22.Final | day22.py:43-46 | the game's result is the first holder's number and score |
| Day22.Cards | day22.py:38-39 | one card per table entry |
| Day22.DrawPool | day22.py:35 | drawing moves exactly the drawn cards onto the table |
| Day22.WinningsPool | day22.py:38-41 | the winnings are the table's cards, rearranged |
| Day22.AwardPool | day22.py:41 | giving cards adds exactly those cards to the ones in play |
| Day22.SettleConserves | day22.py:35-41 | a round conserves the cards in play |
| Day22.WinnerFirst | day22.py:38-41 | with distinct numbers the winner takes its own card first, then the others in seating order |
| Day22.OwnCards | day22.py:38 | the winner's own cards on the table are its one card |
| Day22.NoCards | day22.py:38-39 | a number not at the table has no cards there |
| Day22.OtherCards | day22.py:39 | the other cards are the table without the winner's entry |
| Day22.Close | day22.py:41-46 | after a round, the game either ends with a winner among the players or continues with as many hands |
| Day22.Round1Of | day22.py:35-46 | a round of part1 keeps the number of hands |
| Day22.Game1Over | day22.py:43-46 | a round that ends the game gives the game's result |
| Day22.Game1Next | day22.py:34-46 | a round that continues leaves the rest of the game to the next hands with one round less |
| Day22.Prefix | day22.py:72 | Python's `xs[:c]`: a prefix, exactly `c` long when `c` is in range |
| Day22.SubHands | day22.py:72 | one sub-deck per table entry |
| Day22.TableNumbers | day22.py:72 | the numbers of the table's players |
| Day22.Game2 | day22.py:48-85 | a finished game's winner is one of the players |
| Day22.Round2Of | day22.py:54-85 | a round of part2 keeps the number of hands, and any winner is a player |
| Day22.Contest2 | day22.py:60-85 | the drawing and settling part of a part2 round does the same |
| Day22.ContestRecurses | day22.py:71-73 | when every player can recurse, the round is settled for the sub-game's winner, who is one of the players |
| Day22.ContestHighest | day22.py:74-75 | otherwise the table is not empty and the round is settled for the highest card |
| Day22.Game2Over | day22.py:54-85 | a round that ends the game gives the game's result |
| Day22.Game2Next | day22.py:54-85 | a round that continues plays on with the next hands, the position added to `previous_rounds`, one round less |
| Day22.SeatMap | day22.py:32 | `players_map` maps each number to the last deck with it |
| Day22.DrawHolders | day22.py:35 | every player with cards draws; the table and the new hands are as specified |
| Day22.TablePrefix | day22.py:35 | the table of one more player adds that player's entry when it has cards |
| Day22.DrawOne | day22.py:14-15 | a player with cards puts its number and top card on the table and keeps the rest; an empty deck adds nothing |
| Day22.DrawNext | day22.py:35 | one step of the comprehension: the table gains player `i`'s entry, player `i` has drawn, and the other players are as before |
| Day22.Highest | day22.py:36 | the winner is the number of the first entry with the highest card |
| Day22.Winner | day22.py:44-46 | the loop returns the first holder's result |
| Day22.Take | day22.py:41 | the winner's deck takes the won cards; the other decks are unchanged |
| Day22.CloseRound | day22.py:38-46 | the decks' new state is what `Close` specifies |
| Day22.Round1 | day22.py:35-46 | one round on the decks is `Round1Of` on their values |
| Day22.Play1 | day22.py:34-46 | the loop plays `Game1` on the decks' values |
| Day22.Part1 | day22.py:30-46 | part1 is `Game1` on the callers' hands, on copies |
| Day22.CanRecurse | day22.py:64-69 | `win_by_rec` is true iff every drawn card is at most its player's remaining count |
| Day22.SubDecks | day22.py:72 | each sub-deck holds the first `c` remaining cards of its player |
| Day22.Part2 | day22.py:48-85 | part2 is `Game2` on the callers' hands, on copies |
| Day22.Play2 | day22.py:52-85 | the loop plays `Game2` with `previous_rounds` starting empty |
| Day22.Round2 | day22.py:55-85 | a repeated position goes to player 1; otherwise one round on the decks is `Round2Of` |
| Day22.Contest | day22.py:60-85 | drawing, the sub-game or the highest card, and the award are `Contest2` |
| Day22.SubRound | day22.py:71-85 | the sub-game on copies of the first cards and the award to its winner are the recursive branch of `Contest2` |
| Day22.ParseCards | day22.py:90 | one card per line |
| Day22.CardLines | day22.py:90 | one line per card |
| Day22.CardLinesAt | day22.py:90 | each line is the card written out |
| Day22.CardLinesNoBreak | day22.py:88 | card lines hold no line break and are not empty |
| Day22.ParseDeckText | day22.py:87-90 | parsing the text of a deck gives back its number and cards |
| Day22.ParseDeckOf | day22.py:87-90 | a deck's lines determine the parse |
| Day22.DeckTextLines | day22.py:88 | a deck's text splits into its heading and its card lines |
| Day22.HeadNumber | day22.py:89 | the number parses back from `Player <n>:` |
| Day22.NoLineBreak | day22.py:88 | a number written out has no line break |
| Day22.StripNumber | day22.py:89 | `strip(": ")` removes the colon after the number |
| Day22.NoColonOrSpace | day22.py:89 | a number written out starts and ends with neither colon nor space |
| Day22.ParseCardLines | day22.py:90 | the cards parse back from their lines |
| Day22.ParseCardsAll | day22.py:90 | the list comprehension succeeds when every line parses |
| Day22.ParseCardsCons | day22.py:90 | the comprehension unrolled once |
| Day23.SeekLeast | day23.py:14-18 | the search ends on a free label, the first one in count-down order |
| Day23.Destination | day23.py:14-18 | the destination is free. Below `current`, no label between it and `current` is free; after a wrap, every free label lies in [current, destination] |
| Day23.SeekStep | day23.py:15-18 | one step of the search keeps its result and moves on in count-down order |
| Day23.SeekNotCurrent | day23.py:14-18 | when another free label exists, the destination is not `current` |
| Day23.IndexOf | day23.py:20 | Python's `index`: the first position of `x` |
| Day23.SplicePermutes | day23.py:11-23 | a move rearranges the same cups, still distinct |
| Day23.Move | day23.py:11-23 | a move keeps the circle's size, its labels and their range, and permutes the cups |
| Day23.Searching | day23.py:11-15 | the first cup is current and the next three are picked up, so the search can run |
| Day23.DestinedInRest | day23.py:14-20 | the destination is among the cups not picked up |
| Day23.Play | day23.py:10-23 | `n` moves keep the circle arranged |
| Day23.AfterOneOrder | day23.py:24-26 | the labels after cup 1 go once round the circle, clockwise, without 1 |
| Day23.Min | day23.py:6 | Python's `min` |
| Day23.Max | day23.py:7 | Python's `max` |
| Day23.InputArranged | day23.py:5-8 | distinct input cups form a circle between their least and largest labels |
| Day23.InsertThree | day23.py:21-23 | the three inserts at one index leave a, b, c in order |
| Day23.MoveSpliced | day23.py:11-23 | re-inserting the picked cups after the destination completes the move |
| Day23.FindTarget | day23.py:14-18 | the search loop computes the destination |
| Day23.MoveCups | day23.py:11-23 | the deque operations of one move compute `Move` |
| Day23.Part1 | day23.py:4-26 | part1 is the labels after cup 1 of the circle after `moves` moves |
| Day23.Range | day23.py:31 | `list(range(lo, hi))` |
| Day23.LinksNext | day23.py:32 | the zipped dictionary maps each cup but the last to the next |
| Day23.CircleLinked | day23.py:32-33 | with the last cup mapped to the first, the dictionary links the circle |
| Day23.SpliceLinked | day23.py:54-70 | the three writes of a move turn a dictionary linking the circle into one linking the moved circle |
| Day23.UpdatedOther | day23.py:54-70 | the writes keep every other cup's successor |
| Day23.LinkAt | day23.py:54-70 | successive positions of the moved circle are linked |
| Day23.AfterOneLinked | day23.py:79-81 | the two labels after cup 1 are `map[1]` and `map[map[1]]` |
| Day23.CircleArranged | day23.py:29-33 | part2's circle holds every label from 1 to the top once |
| Day23.FindTargetBelow | day23.py:48-52 | part2's search loop computes the destination |
| Day23.MoveLinks | day23.py:39-77 | one move on the dictionary links the moved circle, and the next current cup is its first cup |
| Day23.Part2 | day23.py:28-81 | part2 is the product of the two labels after cup 1 after `moves` moves |
| Day23Rs.WrapFirstStep | day23.rs:27-33 | Rust's wrap-then-decrement step keeps the search result and its progress |
| Day23Rs.FindTarget | day23.rs:27-33 | the `u32` search loop computes the destination without underflow |
| Day23Rs.StoreAgrees | day23.rs:35-37 | a store at a label keeps the vector in step with the dictionary |
| Day23Rs.Relink | day23.rs:35-37 | the three stores are the dictionary's three writes |
| Day23Rs.MoveArray | day23.rs:22-38 | one move on the vector links the moved circle, and the next current cup is its first cup |
| Day23Rs.InitAt | day23.rs:7-17 | position by position, the initialisation links part2's circle |
| Day23Rs.InitAgrees | day23.rs:7-17 | after the initialisation the vector agrees with the circle's dictionary |
| Day23Rs.ProductFits | day23.rs:44 | the `u64` product of two `u32` values cannot overflow |
| Day23Rs.NumberedLabels | day23.rs:2-3 | input labels 1..n have largest label n |
| Day23Rs.LinkInput | day23.rs:7-9 | each input cup but the last maps to the next |
| Day23Rs.LinkAbove | day23.rs:13-15 | each label from max+1 below the top maps to the next; lower entries are unchanged |
| Day23Rs.Init | day23.rs:5-17 | the vector, of length `inp.len() + top`, agrees with part2's circle |
| Day23Rs.Answer | day23.rs:41-44 | the `u64` result is the product of the two labels after cup 1 |
| Day23Rs.Part2 | day23.rs:1-45 | the Rust part2 gives the same answer as the Python part2 |
| Strings.Digit | comb.py:73-87 | a digit's character reads back as its value |
| Strings.NatToString | day23.py:26 | `str(n)` is a non-empty digit string whose value is `n` |
| Strings.IntToString | day22.py:89 | `str(n)` has no surrounding whitespace |
| Strings.LStripBy | day19.py:55 | left strip: a suffix whose first character is kept |
| Strings.RStripBy | day19.py:55 | right strip: a prefix whose last character is kept |
| Strings.ParseIntToString | day22.py:89-90 | `int(str(n)) == n` |
| Strings.Split | day19.py:55 | `split(sep)` gives at least one piece, none holding the separator |
| Strings.SplitLines | day22.py:88 | `splitlines()` gives lines without line breaks |
| Strings.JoinSplit | day19.py:61 | joining the pieces of a split gives back the string |
| Strings.SplitJoin | day19.py:61 | splitting a join gives back the pieces when none holds the separator |
| Strings.SplitLinesJoin | day20.py:355 | the lines of a text without a final line break are its pieces |

## Left out

- Printing and I/O: every `print`, `print_s`, `__repr__`/`__str__`, the Rust `main` functions and the puzzle inputs. They do not affect results.
- day17/src/main.rs: a GPU convolution through a foreign library.
- numpy: day10.py `part2np`, and day20.py `generate_tile_array`, `match_pattern`, `print_image` and `part2`. They compute floating-point and array-library results.
- day20.py `try_with_assignment` and `part1`: a backtracking search that pops from Python sets, whose order the language does not fix. `find_corner` and the counting helpers are modelled; the search is not.
- day13.py `part2`: it calls the z3 solver. `part2_notbad` solves the same congruences and is modelled.
- day19.py `part2`'s `regex.fullmatch` and the count of matching lines: a regex engine. The model stops at the regex text.
- Day19.Part2Regex: the regex is stated as far as Day19.AsRe states it (the outer group and one part per alternative), not character by character.
- Comb.GeneratedFrom: the steps of a `parser_generator` are a fixed list, and only the final value depends on the earlier values. A Python generator may choose its later parsers from earlier values; that is not modelled.
- Comb.Run: the parsers hold no Python exception, such as `int` of an over-long run. Python's recursion limit is not modelled.
- Day19.Validate: Python's recursion limit is a `fuel` budget that yields `RecursionError` when exhausted.
- Day19.AsRe: the regex text is not escaped and is not checked against a regex engine. The contract states the shape of the exported group (one part per alternative), not its characters.
- Day22.Part1, Day22.Part2: `while True` loops become a round budget `fuel`, with `OutOfFuel` when it runs out. Python's recursion limit on sub-games is not modelled.
- day22.py:61 adds a generator object to `previous_rounds`. It never equals a state tuple, so it has no effect and is not modelled.
- Day22.Play2: a repeated position returns player 1's score. Without a player 1 the model gives `Fails` where Python raises `KeyError`.
- Day20.FindCorner: `while True` takes a `fuel` budget, and the dictionary's insertion order is a `keys` parameter.
- Day20.CountAssignments: `assignments.values()` is given as a sequence in insertion order.
- Day15.Part1: its result equals turn `n` of the game only for distinct starting numbers. With a repeated starting number the seeding loop records `(0, turn)` and forgets the earlier mention, so the dictionary no longer follows the game. The result is still below `n`.
- Day23.Part1, Day23.Part2, Day23Rs.Part2: the literal 100 moves, 1,000,000 cups and 10,000,000 moves are parameters (`moves`, `top`).
- Day23.Part2, Day23Rs.Part2: the input must be the labels 1..n, each once, as the puzzle gives them. Python's part2 loop does not check that a label exists.
- Day23Rs.Part2: the `u32` labels require `top + 1 < 2^32`.
- Day23.Part1: the input must hold distinct labels including 1, and at least 4 cups when any move is played. Python raises `IndexError` (day23.py:11) with fewer than 4 cups, raises `ValueError` (day23.py:24) without cup 1, and plays on with repeated labels; none of these paths is modelled.
- Day10Rs.Part2: the matrix entries and the total are unbounded integers. `usize` overflow is not modelled; the count of chains is far below it for the puzzle's sizes.
- Day13.Part1: the ids must be non-zero, as Python raises `ZeroDivisionError` on a zero id. For a negative id the contract states only the result's form.
- Day13.ChineseRemainder: the contract holds for positive, pairwise coprime moduli. For others `modinv` can give None and Python raises a `TypeError`.
- `functools.cache` on `try_path` is transparent to results and is left out.
- Strings: `str.isspace` and `str.isnumeric` are modelled on ASCII only; `splitlines` breaks on '\n' only. `ParseInt` accepts ASCII digits only: it gives None for digit-group underscores ("1_0") and non-ASCII digits, which Python's `int` reads.
- Sorting.Sort: Python's and Rust's library sorts are an insertion sort here. `SortedUnique` shows that every correct sort gives the same list.

## Findings

| source | as written | input that shows it | evidently intended | confidence | as-written member | corrected member |
|---|---|---|---|---|---|---|
| day10.py:23-34 | `try_path` returns 1 at the end of the list even when the last adaptor was skipped. It counts chains that stop before the highest adaptor, from which the device (3 above it) may be out of reach | adaptors [1, 2, 3]: `try_path` gives 8, but only 4 chains reach the device at 6 | count only the chains that take the highest adaptor | not executed | Day10.TryPathOvercounts | Day10.ArrangementsAreChains |
| day20.py:80-90 | `count_assignments` never adds `for_this` to `total`, so it returns 0 for every input. The "all sides assigned" test in `try_with_assignment` therefore never fires for a grid of width 2 or more | the solved 2-by-2 grid: 8 sides are known, `4*w*w - 4*w` = 8 are needed, yet the count is 0 | add `for_this` to `total` for every record | not executed | Day20.CountAssignments | Day20.CountAssignmentsCorrected |
