# Advent of Code 2023 solutions, days 1–5 and 7–9, in Dafny

This project models eight Rust programs that each read a puzzle input from standard input and print two answers. It proves what their answers mean.

- **Trebuchet calibration** (`src/bin/01.rs`). The first and last digit of every line form a two-digit value. Part two first rewrites every spelled number word with the `"one" → "one1one"` replacement table.
- **Cube game** (`src/bin/02.rs`). Game lines list the cube sets drawn from a bag. Part one sums the ids of the games that a 12-red/13-green/14-blue bag allows. Part two sums the powers of the fewest cubes each game needs.
- **Gear ratios** (`src/bin/03.rs`). This is a schematic of digit runs and symbols. Part one sums the numbers that have a symbol in the 3×n window around them. Part two sums the products at the `*` cells that touch exactly two numbers.
- **Scratchcards** (`src/bin/04.rs`). Each card has winning and held numbers. The first answer is the points, doubling per match. The second is the total number of cards once copies are won, computed with a queue of owed copies.
- **Seed almanac** (`src/bin/05.rs`). Blocks of `dst src len` rules move values from one category to the next. Part one runs a set of points: `SimpleState` on a `BTreeSet`. Part two runs a set of intervals: `RangeState`, a `BTreeMap` in which each interval is stored as the two entries `lo ↦ hi` and `hi ↦ lo`. Both answers are the lowest location.
- **Camel cards** (`src/bin/07.rs`). Hands are typed from the counts of their sorted cards: `groups` and `triplets`. They are ordered by the derived `Ord` on (type, card indices, bid) and paid bid × rank. Part two counts jokers as wild and as the weakest card.
- **Haunted wasteland** (`src/bin/08.rs`). This is a walk through a left/right network. Part one counts the moves from `AAA` to `ZZZ`. Part two finds, for every node ending in `A`, the first repeat of a (node ending in `Z`, instruction index) pair. It then folds the periods with `acc * (e / gcd(acc, e))`.
- **Mirage maintenance** (`src/bin/09.rs`). This extrapolates each history forwards and backwards through its table of differences.

Text handling common to several days is in `ascii_text.dfy`. It covers `split`, `split_once`, `split_ascii_whitespace`, `trim`, `trim_matches`, and `str::parse` into `u32`, `u64` and `i64`.

Integers are mathematical. Where the program parses into a fixed width, the parse fails exactly when the value would not fit, as `parse` does. A line that the program would `unwrap` and panic on makes the model's answer `None`.

Day 5 is modelled twice:
- The point engine (`PointState`) is the specification.
- The interval engine (`RangeState`, over the symmetric tree `RangeMap`) is proved to refine it.

## Model

| member | source | states |
|---|---|---|
| Calibration.GetValue | src/bin/01.rs:3-6 | No value exactly when the line has no ASCII digit. Otherwise the value is ten times the first digit plus the last digit, so it is below 100. |
| Calibration.LoneDigit | src/bin/01.rs:3-6 | A line with a single digit `d` reads as `11·d`: the first and last digit are the same character. |
| Calibration.DigitsEmpty | src/bin/01.rs:4 | The digit filter yields nothing exactly when the line has no digit. |
| Calibration.DigitsHead | src/bin/01.rs:4-5 | The first item of the filtered digits, which is the one `peek` sees, is the leftmost digit of the line. |
| Calibration.DigitsTail | src/bin/01.rs:4-5 | The last item of the filtered digits, which is the one `last` takes, is the rightmost digit of the line. |
| Calibration.DigitsAppend | src/bin/01.rs:4 | Extending the line by a character extends the filtered digits by it exactly when it is a digit. |
| Calibration.Replacement | src/bin/01.rs:8-21 | The k-th replacement is the k-th number word, then the digit k+1, then the word again. |
| Calibration.PatternInReplacement | src/bin/01.rs:8-21 | Every number word survives, as a subsequence, in its own replacement. |
| Calibration.ReplaceAbsent | src/bin/01.rs:42 | `replace` leaves a text that lacks the pattern unchanged. |
| Calibration.ReplaceInserts | src/bin/01.rs:42 | Replacing an occurring word `w` by `w c w` puts `c` in the result. |
| Calibration.ReplaceGrows | src/bin/01.rs:42 | When the pattern is a subsequence of its replacement, the text is a subsequence of the replaced text. |
| Calibration.RewriteGrows | src/bin/01.rs:39-42 | The fold over the nine replacements loses no character: the line is a subsequence of the rewritten line. |
| Calibration.RewriteIdle | src/bin/01.rs:39-42 | A line with no number word is left as it is by the fold. |
| Calibration.RewriteFindsWord | src/bin/01.rs:39-42 | If some number word occurs, the rewritten line contains a digit. |
| Calibration.Rewrite | src/bin/01.rs:39-42 | The line is a subsequence of the rewritten line: every replacement keeps its word. |
| Calibration.DigitSurvives | src/bin/01.rs:38-42 | A digit of the original line is still there after rewriting. |
| Calibration.RealValueNone | src/bin/01.rs:38-44 | Part two's reading fails exactly when the line has neither a digit nor a number word. |
| Calibration.RealValueWithoutWords | src/bin/01.rs:38-44 | Without number words, part two reads a line exactly as part one does. |
| Calibration.GetRealValue | src/bin/01.rs:38-44 | Part two's reading, when there is one, is also a two-digit value below 100. |
| Calibration.Total | src/bin/01.rs:49-56 | A block of lines none of which reads sums to 0: `unwrap_or(0)`. |
| Calibration.TotalConcat | src/bin/01.rs:49-56 | The fold is additive: the total of two blocks of lines is the sum of their totals. |
| Calibration.TotalSkips | src/bin/01.rs:49-56 | A line that does not read can be dropped from anywhere in the input without changing the total. |
| Calibration.TotalBound | src/bin/01.rs:49-56 | Each answer is at most 99 per line. |
| CubeGame.Put | src/bin/02.rs:23-28 | Setting one colour's count leaves the other two colours as they were. |
| CubeGame.ParseColour | src/bin/02.rs:23-28 | Exactly `red`, `green` and `blue` are colours, and each reads back to its own name. |
| CubeGame.ParseColourName | src/bin/02.rs:23-28 | Printing a colour's name and reading it gives the colour back. |
| CubeGame.ParseItem | src/bin/02.rs:21-22 | A read item has a count that fits in `u32`, and its trimmed text holds the separating space. |
| CubeGame.ApplyLastWins | src/bin/02.rs:19-30 | Each colour's count in a set is the count of the last item naming that colour, or 0 if no item names it. |
| CubeGame.ParseCubes | src/bin/02.rs:17-31 | The three counts of a read set fit in `u32`. |
| CubeGame.ParseCubesFails | src/bin/02.rs:17-31 | A set fails to read exactly when one of its comma-separated items fails. |
| CubeGame.ParseShowItem | src/bin/02.rs:21-28 | An item printed as `count colour` reads back as itself. |
| CubeGame.ParseShowSet | src/bin/02.rs:17-31 | A non-empty item list, printed with commas, reads as the counts its items set. |
| CubeGame.EmptySetFails | src/bin/02.rs:20-21 | An empty set text is an error: its one empty item has no space to split on. |
| CubeGame.ParseLine | src/bin/02.rs:40-51 | A read game line contains `:`, and its id fits in `u32`. |
| CubeGame.ParseShowLine | src/bin/02.rs:40-51 | A game printed as `Game id: set; set; …` reads back as its id and sets. |
| CubeGame.Fewest | src/bin/02.rs:70-77 | The colour-wise maximum contains every set of the game. |
| CubeGame.FewestAttained | src/bin/02.rs:70-77 | Each colour of the maximum is reached by some set, and is 0 when the game has no sets. |
| CubeGame.FewestLeast | src/bin/02.rs:70-77 | Any bag that contains every set contains the maximum, so it is the fewest cubes possible. |
| CubeGame.PossibleIffFewestWithin | src/bin/02.rs:60-67 | A game is possible with the 12/13/14 bag exactly when its fewest cubes fit in that bag. |
| CubeGame.PowerLeast | src/bin/02.rs:70-79 | The power of the fewest cubes is at most the power of any bag that allows the game. |
| CubeGame.PossibleIdsBound | src/bin/02.rs:60-67 | The sum of possible ids is at most the sum of all ids. It is 0 when no game is possible and the full sum when every game is. |
| CubeGame.Answers | src/bin/02.rs:53-80 | Both answers exist exactly when every line reads as a game. |
| GearRatios.Symbols | src/bin/03.rs:3-6 | A cell is flagged exactly when it is neither a digit nor `.`. |
| GearRatios.GearLocations | src/bin/03.rs:8-14 | The listed columns are exactly the `*` cells of the line, in ascending order. |
| GearRatios.NumbersExact | src/bin/03.rs:16-35 | Every listed number is a maximal run of digits whose value is what its digits spell. The runs are in order, apart from each other, and cover every digit of the line. |
| GearRatios.NumbersFrom | src/bin/03.rs:18-34 | Every number found from column `i` on lies at or after `i` and inside the line. |
| GearRatios.ZipOr | src/bin/03.rs:46-48 | The zip-or is cell-wise disjunction, cut to the shorter row. |
| GearRatios.NearbyAt | src/bin/03.rs:44-48 | The folded row flags a column exactly when some row among the previous, current and next rows has a symbol in that column. |
| GearRatios.Nearby | src/bin/03.rs:44-48 | The folded row is never wider than the row itself, and it flags every column where the row itself has a symbol. |
| GearRatios.PartIffSymbolNear | src/bin/03.rs:43-56 | A number counts as a part exactly when a symbol lies in one of the three rows, from the column before it to the column after it. |
| GearRatios.TouchesIffDigitNear | src/bin/03.rs:66 | The range test `s <= loc + 1 && loc <= e + 1` holds exactly when some digit of the number is in a column next to the gear's column or in the same column. |
| GearRatios.Touching | src/bin/03.rs:65-66 | The kept numbers of a row are exactly those that touch the gear column. |
| GearRatios.Adjacent | src/bin/03.rs:63-67 | The gathered numbers are exactly those in the three rows around the gear that touch its column. |
| GearRatios.Ratio | src/bin/03.rs:68-71 | A gear without exactly two adjacent numbers adds nothing. |
| GearRatios.PartSum | src/bin/03.rs:42-57 | The first answer: the part numbers of every row, summed. It has no contract of its own; `GearRatios.PartIffSymbolNear` states which numbers it adds. |
| GearRatios.RatioSum | src/bin/03.rs:60-73 | The second answer: the ratios of every gear, row by row. It has no contract of its own; `GearRatios.Adjacent` and `GearRatios.Ratio` state what each gear adds. |
| GearRatios.Answers | src/bin/03.rs:31-58 | There are no answers exactly when the program panics before printing. That happens when some number is `2^32` or more, where `parse::<u32>().unwrap()` fails, or when some number's slice `adj_symbols[s-1..(e+2).min(len)]` starts past its end. |
| GearRatios.AnswersFailOnWideNumber | src/bin/03.rs:31-39 | The parse fails exactly when the digits of some run spell a value of `2^32` or more. On a rectangular schematic that is the only way the answers fail. |
| GearRatios.RectangularFits | src/bin/03.rs:44-50 | On a rectangular schematic every fold is as wide as its row, so no slice of the first question panics. |
| GearRatios.RaggedSchematicPanics | src/bin/03.rs:44-50 | The ragged schematic `...5` over `.` has no wide number and still gets no answers: the second row cuts the first row's fold to one column, and the slice `[2..1]` for the `5` panics. |
| GearRatios.AnswersOfQuietSchematic | src/bin/03.rs:37-74 | When the answers exist, a schematic with no symbol has part sum 0 and one with no `*` has ratio sum 0. |
| Scratchcards.ParseLine | src/bin/04.rs:6-27 | A read card line contains `:`, and its id and every number fit in `u32`. |
| Scratchcards.ParseShowCard | src/bin/04.rs:6-27 | A card printed as `Card id: wins \| haves` reads back as itself. |
| Scratchcards.Matches | src/bin/04.rs:29-32 | The count is at most the number of held numbers. It is 0 exactly when none is winning and the full count exactly when all are. |
| Scratchcards.MatchesAppend | src/bin/04.rs:29-32 | Counting over two lists of held numbers adds up. |
| Scratchcards.MatchesSameSet | src/bin/04.rs:29-32 | Only the set of winning numbers matters: order and repeats do not, as for the `HashSet`. |
| Scratchcards.Points | src/bin/04.rs:42 | A card scores nothing exactly when it has no match. |
| Scratchcards.PointsDouble | src/bin/04.rs:42 | One match scores 1, and each further match doubles the score. |
| Scratchcards.Instances | src/bin/04.rs:43 | Every card is held at least once: the original plus the copies the earlier cards won. |
| Scratchcards.QueueStep | src/bin/04.rs:43-51 | Processing one card keeps the queue's meaning: slot `m` holds the copies owed to the card `m + 1` places further on, and no card beyond the queue is owed any. |
| Scratchcards.CountCards | src/bin/04.rs:37-52 | The queue loop computes the points and the total instances given by the reference definitions. |
| Scratchcards.Answers | src/bin/04.rs:34-54 | Answers exist exactly when every line reads as a card. They are the reference sums, and the total is at least the number of cards. |
| AlmanacRules.Numbers | src/bin/05.rs:25-28 | The numbers kept from the words fit in `u64`. There are at most as many numbers as words. |
| AlmanacRules.NumbersSkipsNonNumeric | src/bin/05.rs:25-28 | A word that does not parse, wherever it stands, changes nothing: `filter_map` drops it. |
| AlmanacRules.ParseRange | src/bin/05.rs:23-38 | A rule reads exactly when the line holds three numeric words, taken as dst, src and len in that order. |
| AlmanacRules.ParseShowRange | src/bin/05.rs:23-38 | A rule printed as `dst src len` reads back as itself. |
| OrderedSets.Ascending | src/bin/05.rs:52-57 | Iterating a `BTreeSet` visits exactly its elements, once each, in strictly increasing order. |
| OrderedSets.Within | src/bin/05.rs:54 | `range(a..b)` keeps exactly the elements in `[a, b)`. |
| OrderedSets.LastBelow | src/bin/05.rs:164-170 | `range(..src).last()` is the greatest key below `src`, and is absent exactly when no key is below it. |
| OrderedSets.Least | src/bin/05.rs:226 | `first()` of a non-empty set is its least element. |
| PointState.MoveEach | src/bin/05.rs:57-60 | The loop removes each listed value from the pending set and adds its shifted image to the resolved set. |
| PointState.MapRange | src/bin/05.rs:51-61 | A rule takes exactly the pending values in `[src, src+len)` out of the pending set and adds exactly their images to the resolved set. |
| PointState.Finish | src/bin/05.rs:63-65 | `append` leaves the resolved set empty and the pending set holding both, with sizes that add when the two sets are apart. |
| PointState.ImageSize | src/bin/05.rs:51-61 | A rule's image has as many values as the pending values it covers: the shift is injective. |
| PointState.MapRangeConserves | src/bin/05.rs:51-61 | Unless an image lands on a value already resolved, a rule neither creates nor loses values. |
| PointState.ImageUnion | src/bin/05.rs:51-61 | The image of a union is the union of the images. |
| PointState.ImageApart | src/bin/05.rs:51-61 | Values that are apart have images that are apart. |
| RangeMap.Insert | src/bin/05.rs:95-98 | `insert(x, y)` keys both ends, each pointing at the other, and leaves every other key alone. |
| RangeMap.Remove | src/bin/05.rs:100-105 | `remove(x)` drops `x` and its partner, or nothing when `x` is absent, and leaves every other key alone. |
| RangeMap.WfMeans | src/bin/05.rs:81-105 | A well-formed tree pairs every key with a partner that points back, and its intervals are apart. |
| RangeMap.InsertInterval | src/bin/05.rs:95-98 | Inserting an interval that is apart from the tree keeps it well formed and adds exactly the interval's values. |
| RangeMap.RemoveInterval | src/bin/05.rs:100-105 | Removing either end of an interval keeps the tree well formed and takes away exactly that interval's values. |
| RangeMap.AppendValues | src/bin/05.rs:180-182 | Appending a tree whose values are apart gives the union of the two value sets. |
| RangeMap.AppendKeepsWf | src/bin/05.rs:180-182 | Appending a tree whose values are apart keeps the tree well formed. |
| RangeMap.FromPairsValues | src/bin/05.rs:112-121 | Building from (start, length) pairs gives a well-formed tree whose values are exactly the seed ranges. |
| RangeMap.FromPairsDone | src/bin/05.rs:115 | Fewer than two remaining seeds add nothing: a trailing unpaired value is ignored. |
| RangeMap.FirstKey | src/bin/05.rs:227 | `first_key_value` is absent only for an empty tree, and is otherwise the least key. |
| RangeMap.FirstKeyIsLeastValue | src/bin/05.rs:227 | The first key of a well-formed tree is the least value it stands for. |
| RangeState.CoveredKeys | src/bin/05.rs:135-140 | The snapshot is the keys in `[src, src+len)`, ascending. |
| RangeState.Finish | src/bin/05.rs:180-182 | `append` moves every resolved entry into the pending tree, and the resolved entry wins on a clash. |
| RangeState.StepWhole | src/bin/05.rs:142-146 | An interval lying inside the rule moves whole, and no other pending interval changes. |
| RangeState.StepHead | src/bin/05.rs:147-154 | An interval that starts inside the rule and ends past it moves its head, and its tail stays pending. |
| RangeState.StepTail | src/bin/05.rs:155-160 | An interval met at its upper end, starting before the rule, moves its tail, and its head stays pending. |
| RangeState.SplitMoves | src/bin/05.rs:164-177 | An interval that straddles the whole rule is cut in three, and the middle moves. |
| RangeState.MapRange | src/bin/05.rs:134-178 | The program's step: the loop over the snapshot, then the split. Nothing resolved before the step is unresolved by it. `RangeRefinement.MapRangeRefines` states what it computes for a rule of positive length. |
| RangeState.MapRangeChecked | src/bin/05.rs:134-178 | The corrected step of the finding below: a rule of length zero leaves the state unchanged, and any other rule is the program's step. |
| RangeRefinement.StraddleSkipsScan | src/bin/05.rs:134-178 | When one interval straddles the whole rule, the scan finds no key and only the split acts. |
| RangeRefinement.SplitIdle | src/bin/05.rs:164-177 | The split changes nothing when `src` lies in no pending interval. |
| RangeRefinement.MapRangeRefines | src/bin/05.rs:134-178 | For a rule of positive length, the interval engine's step stands for exactly the point engine's step, and it keeps both trees well formed. |
| RangeRefinement.FinishRefines | src/bin/05.rs:180-182 | The interval `finish` stands for the point `finish`. |
| RangeRefinement.ZeroLengthRuleAddsValues | src/bin/05.rs:164-176 | A rule of length zero makes the interval engine resolve a value that the point engine never produces (see Findings). |
| RangeRefinement.MapRangeCheckedRefines | src/bin/05.rs:134-178 | With zero-length rules skipped, the interval step refines the point step for every rule. |
| AlmanacPipeline.ParseSeedsShow | src/bin/05.rs:200-208 | A `seeds: n n …` line reads back as its numbers. |
| AlmanacPipeline.PointRun | src/bin/05.rs:212-225 | The loop over the lines on the point engine. A run that finishes ends with nothing left resolved: every stage is closed by `finish`. |
| AlmanacPipeline.RangeRun | src/bin/05.rs:212-225 | The same loop on the interval engine, as written: every rule, a rule of length zero included, goes through the unguarded `map_range`. A run that finishes ends with an empty resolved tree. |
| AlmanacPipeline.CheckedRangeRun | src/bin/05.rs:212-225 | The loop with the corrected step `RangeState.MapRangeChecked`, which skips rules of length zero. A run that finishes ends with an empty resolved tree. |
| AlmanacPipeline.CheckedRunAgrees | src/bin/05.rs:212-225 | When no rule of the input has length zero, the program's loop and the corrected loop give the same result. |
| AlmanacPipeline.CheckedRunRefines | src/bin/05.rs:212-225 | On any block of lines, the corrected interval run succeeds exactly when the point run does, and it ends in a tree standing for the point run's result. |
| AlmanacPipeline.RunRefines | src/bin/05.rs:212-225 | For input without rules of length zero, the program's interval run succeeds exactly when the point run does, and it ends in a tree standing for the point run's result. |
| AlmanacPipeline.Lowest | src/bin/05.rs:226 | The answer exists exactly when the final set is non-empty, and it is then the least value. |
| AlmanacPipeline.SeedSet | src/bin/05.rs:210 | The starting points are exactly the listed seeds. |
| AlmanacPipeline.PartOne | src/bin/05.rs:197-226 | Part one fails without a readable `seeds:` line. Otherwise its answer is the least value of the point run from the seeds. |
| AlmanacPipeline.FirstOf | src/bin/05.rs:227 | `first_key_value` after the run: absent when the run failed or the tree is empty, and otherwise the least key of the tree. |
| AlmanacPipeline.PartTwo | src/bin/05.rs:197-227 | Part two as written, on `RangeRun`. It fails without a readable `seeds:` line. |
| AlmanacPipeline.CheckedPartTwo | src/bin/05.rs:197-227 | Part two on the corrected loop `CheckedRangeRun`. It fails without a readable `seeds:` line. |
| AlmanacPipeline.CheckedPartTwoRefines | src/bin/05.rs:197-227 | The corrected part two's first key is the lowest location the point engine reaches from every value of every seed range. |
| AlmanacPipeline.PartTwoRefines | src/bin/05.rs:197-227 | For input without rules of length zero, the program's part two equals the corrected one, and so it is the lowest location the point engine reaches from every seed value. |
| CamelCards.ParseHand | src/bin/07.rs:29-39 | A hand reads exactly when the line has five characters before its first space and a `u64` after it. These are the cards and the bid. |
| CamelCards.ParseShowHand | src/bin/07.rs:29-39 | A hand printed as `cards bid` reads back as itself. |
| CamelCards.SortedCards | src/bin/07.rs:12-13 | The sorted cards are an ordered permutation of the hand. |
| CamelCards.FacesCountChanges | src/bin/07.rs:14 | In sorted cards, one plus the number of adjacent unequal pairs counts the distinct cards. |
| CamelCards.Windows5 | src/bin/07.rs:14-18 | For five sorted cards, `groups` counts the distinct cards and `triplets` counts the three-card windows of equal cards. |
| CamelCards.GroupsTriplets | src/bin/07.rs:11-20 | A hand has at least one group. `CamelCards.Windows5` and `CamelCards.TypeIsKind` state what the two counts mean. |
| CamelCards.FromGroupsTriplets | src/bin/07.rs:54-74 | The table from (groups, triplets) to a hand type. It has no contract of its own; `CamelCards.TypeIsKind` states that it gives the poker type. |
| CamelCards.TypeIsKind | src/bin/07.rs:54-79 | The type found from groups and triplets is the poker type of the hand's card counts. For example, four of a kind is some card four times, and a full house is three plus two. |
| CamelCards.FromGroupsTripletsMonotone | src/bin/07.rs:54-74 | Fewer groups or more triplets never give a weaker type. |
| CamelCards.JokersNeverWeaker | src/bin/07.rs:81-85 | The joker rule never makes a hand weaker. |
| CamelCards.JokerType | src/bin/07.rs:81-85 | The joker rule: one group fewer and one more triplet per joker. It has no contract of its own; `CamelCards.JokersNeverWeaker` and `CamelCards.NoJokerSameType` state what it gives. |
| CamelCards.NoJokerSameType | src/bin/07.rs:81-85 | A hand without `J` keeps its type under the joker rule. |
| CamelCards.StrengthInjective | src/bin/07.rs:42-51 | Distinct hand types have distinct places in the declaration order. |
| CamelCards.CardIndex | src/bin/07.rs:96-101 | A card's index is its position in the strength string. |
| CamelCards.IndexAt | src/bin/07.rs:96 | Looking up the card at a position gives that position back. |
| CamelCards.JokerIsWeakest | src/bin/07.rs:96-119 | `J` sits between `Q` and `T` in part one and is the weakest card in part two. |
| CamelCards.SameOrderBesideJoker | src/bin/07.rs:96-119 | Apart from `J`, the two strength strings order the cards alike. |
| CamelCards.Rank | src/bin/07.rs:98-108 | The ranked hand holds one in-range index per card, pointing at that card. |
| CamelCards.RankedLeTotal | src/bin/07.rs:88-93 | The derived order on (type, card indices, bid) is a total order. |
| CamelCards.AnySortSameWinnings | src/bin/07.rs:140-147 | Every sorted permutation of the ranked hands pays the same winnings, so the sort algorithm does not matter. |
| CamelCards.TotalWinnings | src/bin/07.rs:140-147 | Bid times rank, summed over the sorted hands. It has no contract of its own; `CamelCards.AnySortSameWinnings` and `CamelCards.WinningsByRank` state its value. |
| CamelCards.WinningsByRank | src/bin/07.rs:140-147 | With no identical ranked hands, the winnings are the sum of each bid times one plus the number of hands weaker than it. |
| CamelCards.Answers | src/bin/07.rs:134-158 | Answers exist exactly when every line reads as a hand of known cards. |
| Sorting.SortedUnique | src/bin/07.rs:141 | Two sorted permutations of the same values under a total order are equal. |
| Sorting.SumOfPerm | src/bin/07.rs:142-147 | A sum over the elements does not depend on their order. |
| Euclid.GcdLoop | src/bin/08.rs:4-12 | The swapping remainder loop returns Euclid's gcd, whose divisors are exactly the common divisors of the inputs. |
| Euclid.GcdDivisors | src/bin/08.rs:4-12 | The divisors of the gcd are exactly the common divisors. |
| Euclid.GcdIsGreatest | src/bin/08.rs:4-12 | The gcd divides both inputs, and every common divisor divides it. |
| Euclid.GcdSymmetric | src/bin/08.rs:5-7 | The initial swap does not change the result. |
| Euclid.GcdScale | src/bin/08.rs:4-12 | Scaling both inputs scales the gcd. |
| Euclid.LcmStepLeast | src/bin/08.rs:73 | One fold step divides every common multiple of the accumulator and the element. |
| Euclid.LcmIsLeast | src/bin/08.rs:73 | The fold from 1 is a multiple of every period and divides every common multiple, and it is positive when the periods are. |
| Euclid.LcmSameElements | src/bin/08.rs:73 | The fold depends only on which periods occur, not on their order or repeats. |
| Wasteland.ParseNode | src/bin/08.rs:21-31 | A line without `=` is an error. A read node has trimmed names, no `=` in its name and no `,` in its left name. |
| Wasteland.ParseShowNode | src/bin/08.rs:21-31 | A node printed as `AAA = (BBB, CCC)` reads back as itself. |
| Wasteland.NetworkOf | src/bin/08.rs:19-31 | The network's keys are exactly the node names of the lines. |
| Wasteland.NetworkLastWins | src/bin/08.rs:28-31 | A name's edges come from the last line naming it, as `HashMap::insert` overwrites. |
| Wasteland.Move | src/bin/08.rs:40-41 | A move from an unknown node fails. Otherwise `L` goes left and any other instruction goes right, with instructions taken cyclically. |
| Wasteland.PositionStuck | src/bin/08.rs:40 | Once the walk has failed at an unknown node, it stays failed. |
| Wasteland.WalkFrom | src/bin/08.rs:34-43 | A walk that arrives does so after at most `fuel` further moves. A walk that panics names a node missing from the network. |
| Wasteland.StepsToZZZExact | src/bin/08.rs:34-43 | Part one's count is `s` exactly when move `s` is the walk's first arrival at `ZZZ` (within the fuel). |
| Wasteland.PeriodExact | src/bin/08.rs:46-69 | The period found for a start is `s - f`, where move `s` first repeats the (Z node, instruction index) pair first recorded at move `f`. |
| Wasteland.DetectFrom | src/bin/08.rs:49-69 | A found period is positive and at most the number of moves made. A walk that panics names a node missing from the network. |
| Wasteland.PeriodRepeats | src/bin/08.rs:52-57 | From the first recording on, the walk repeats with the found period. |
| Wasteland.PeriodPositive | src/bin/08.rs:55-56 | A found period is positive. |
| Wasteland.Starts | src/bin/08.rs:48 | The starts are exactly the network's keys ending in `A`. |
| Wasteland.Periods | src/bin/08.rs:46-70 | Periods exist exactly when every start finds one, and they come in the order of the starts. |
| Wasteland.PeriodsAnyOrder | src/bin/08.rs:48 | The order in which the starts are visited changes neither success nor the folded answer. |
| Wasteland.Answers | src/bin/08.rs:14-74 | There is no answer without an instruction line. With no instructions at all, both loops stop at once and the answers are 0 and 1. |
| Wasteland.AnswersMeaning | src/bin/08.rs:14-74 | Part one is the first arrival at `ZZZ`. Part two is a positive common multiple of every start's period that divides every other common multiple. |
| Mirage.Predict | src/bin/09.rs:3-9 | The forward prediction is the sum of the last entries of the difference rows. |
| Mirage.DiffsAt | src/bin/09.rs:7 | Each difference is the later entry minus the earlier one. |
| Mirage.PredictExtends | src/bin/09.rs:3-9 | Appending `x` to a history makes its last difference row `[0]` exactly when `x` is the prediction. |
| Mirage.PredictBack | src/bin/09.rs:11-17 | The backward prediction is the alternating sum of the first entries of the difference rows. |
| Mirage.PredictBackExtends | src/bin/09.rs:11-17 | Prepending `x` makes the last difference row `[0]` exactly when `x` is the backward prediction. |
| Mirage.PredictBackReverse | src/bin/09.rs:11-17 | Predicting backwards is predicting forwards on the reversed history. |
| Mirage.PredictNegate | src/bin/09.rs:3-9 | Negating a history negates its prediction. |
| Mirage.ConstantHistory | src/bin/09.rs:3-17 | A constant history predicts its constant in both directions. |
| Mirage.ArithmeticForward | src/bin/09.rs:3-9 | An arithmetic history `a, a+d, …` of length `n ≥ 2` predicts `a + n·d`. |
| Mirage.ArithmeticBackward | src/bin/09.rs:11-17 | An arithmetic history of length `n ≥ 2` predicts `a − d` backwards. |
| Mirage.ParseHistory | src/bin/09.rs:22-27 | A history reads exactly when every word is an `i64`, and it has one entry per word. |
| Mirage.SumBackwardReverse | src/bin/09.rs:30-33 | The backward sum is the forward sum over the reversed histories. |
| Mirage.Answers | src/bin/09.rs:19-34 | Answers exist exactly when every line reads. Part two equals part one's sum on the reversed histories. |
| AsciiText.ParseUnsigned | src/bin/04.rs:14-15 | `parse::<uN>` succeeds exactly when the text, after an optional `+`, is a non-empty digit string whose value fits. |
| AsciiText.ParseShow | src/bin/04.rs:14-15 | A printed number, with or without `+`, reads back as itself. |
| AsciiText.ParseSigned | src/bin/09.rs:25 | `parse::<i64>` reads `-digits` as the negative value when it fits, and otherwise parses as unsigned. |
| AsciiText.ParseShowSigned | src/bin/09.rs:25 | A printed signed number reads back as itself. |
| AsciiText.ParseAllShow | src/bin/04.rs:20-25 | Printed number lists read back as themselves. |
| AsciiText.Words | src/bin/04.rs:10-11 | `split_ascii_whitespace` yields non-empty words without whitespace that together spell the text's non-whitespace characters. |
| AsciiText.WordsJoinSpaces | src/bin/04.rs:20-25 | Splitting words joined by single spaces gives the words back. |
| AsciiText.SplitOnce | src/bin/02.rs:42 | `split_once(c)` fails exactly when `c` is absent. Otherwise it splits at the first `c`. |
| AsciiText.Split | src/bin/02.rs:20 | `split(c)` gives at least one piece, none containing `c`, and the pieces joined by `c` rebuild the text. |
| AsciiText.SplitJoin | src/bin/02.rs:47 | Splitting pieces free of `c` that were joined by `c` gives the pieces back. |
| AsciiText.TrimBy | src/bin/08.rs:22-25 | Trimming cuts a stripped prefix and suffix, so that the result starts and ends with a kept character. |
| Wrappers.MapAll | src/bin/09.rs:22-27 | Collecting unwrapped reads succeeds exactly when every read does, with the results in order. |

## Left out

- Reading standard input and printing are left out. Each program is modelled as a function from its lines to its answers (`Answers`, `PartOne`, `PartTwo`). The diagnostic `println!` in `src/bin/08.rs:59-62` is left out too.
- `u32`/`u64`/`i64` arithmetic is left out. Sums, products, `1 << x` and the lcm fold are computed on unbounded integers, so the model has no overflow, where the program would panic in debug builds or wrap in release builds. Parsing still respects each width.
- `HashMap` and `BTreeMap`/`BTreeSet` are modelled by their contents, not their implementations. The network is a Dafny `map`, and the starts of `src/bin/08.rs:48` are taken in line order. `Wasteland.PeriodsAnyOrder` shows the visiting order cannot matter.
- `sort_unstable` is modelled by one insertion sort. `Sorting.SortedUnique` and `CamelCards.AnySortSameWinnings` show that any correct sort gives the same answer.
- Wasteland.StepsToZZZExact: the walks of `src/bin/08.rs` may loop forever. The model runs them with a `fuel` bound and reports exhaustion instead of looping. Every statement holds for the given fuel.
- Wasteland.PeriodExact: also bounded by `fuel`. The model does not prove that a start ever finds a period; for a finite network it always does.
- Wasteland.AnswersMeaning: states part two's meaning only for the periods the program measures. It does not claim the lcm is a step count at which all walks stand on `Z` nodes at once. The program assumes that; it holds for inputs in which each walk first reaches its `Z` node after exactly one period.
- CamelCards.JokersNeverWeaker: does not prove that `from_hand_jokers` equals the best type over all joker substitutions. Only the monotonicity and the no-joker case are proved.
- CamelCards.WinningsByRank: needs every ranked hand to differ. Two identical lines would tie, and the derived order would then place them arbitrarily.
- GearRatios.NearbyAt: assumes a rectangular schematic, as the puzzle's input is. A ragged row would change what the zip-fold of `src/bin/03.rs:46-48` cuts off. `GearRatios.Answers` itself takes any schematic and fails where the slice of `src/bin/03.rs:50` panics.
- GearRatios.PartIffSymbolNear: states which numbers count only for a rectangular schematic. On a ragged one the fold is cut to the narrowest row of the window, so a symbol beyond that width is not seen.
- RangeRefinement.MapRangeRefines: assumes no value is moved onto one already resolved in the stage. Merging intervals is outside what `RangeMap` can represent, and the puzzle's maps are bijective.
- AlmanacPipeline.RunRefines: assumes the same no-collision condition (`Clean`) for each stage. It also assumes no rule has length zero (`PositiveRules`). For such a rule the program's step resolves values that the point engine never produces (see Findings). `AlmanacPipeline.CheckedRunRefines` proves the refinement for every input on the corrected loop.
- AlmanacPipeline.PartTwoRefines: also assumes no rule has length zero, for the same reason, on top of the seed condition of `AlmanacPipeline.CheckedPartTwoRefines`. `AlmanacPipeline.CheckedPartTwoRefines` drops that assumption for the corrected part two.
- AlmanacPipeline.CheckedPartTwoRefines: assumes the seed ranges are non-empty and apart from each other, so that `RangeMap::from_iter` builds a well-formed tree. A length-0 range stores the reversed pair `start ↦ start-1` and is not modelled.
- The division in `e / gcd(acc, e)` has a zero divisor when both are 0, where Rust panics. The model returns 0 there; the fold from 1 over positive periods never meets the case.
- Calibration.Total: its own contract covers only input in which no line reads. `Calibration.TotalSkips` shows that any unread line adds nothing, and `Calibration.TotalBound` bounds the sums. The `unwrap_or("")` on an unreadable line of standard input is left out, because input is modelled as already-read lines.
- Wasteland.Answers: a line that does not read, or a move from a missing node, panics in the program and gives no answer in the model.

## Findings

| source | as written | input that shows it | evidently intended | confidence | as-written member | corrected member |
|---|---|---|---|---|---|---|
| src/bin/05.rs:164-176 | For a rule of length 0, the split after the scan still cuts the pending interval that contains `src`. It inserts the resolved pair `dst ↦ dst + 0 - 1`, which `RangeMap` reads as the interval `[dst-1, dst]`. | Pending tree `{0 ↦ 10, 10 ↦ 0}`, rule `dst 100, src 5, len 0`: the interval state resolves 99 and 100, though the rule covers no value. | A rule of length 0 covers nothing and changes nothing, as in the point engine `SimpleState`. | high, not executed | RangeRefinement.ZeroLengthRuleAddsValues | RangeRefinement.MapRangeCheckedRefines |
