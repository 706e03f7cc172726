# HDK storage, join flattening, pattern rewriting and decimals in Dafny

This project models five parts of HDK and proves what they promise:

* **Arrow storage.** A table is a list of chunked columns and a list of fragments with
  offsets, row counts and metadata. Appends merge into the last partial fragment; fetches
  slice the columns. Proved: after any run of appends the fragments tile the table, their
  metadata is that of a fresh scan, and every fetch returns exactly the fragment's rows. The
  locks are a state machine over single steps of any number of threads. Metadata objects
  that readers share with the table are modelled as objects, and it is proved exactly when a
  reader that keeps one sees it change.
* **Left-deep join flattening.** A chain of INNER and LEFT joins with an optional filter
  becomes one n-ary join, whose condition the executor splits into conjuncts and places at
  nest levels. Proved: under three-valued logic the nested joins, the flattened node and the
  executed plan yield the same rows in the same order, exactly which conjuncts the executor
  drops, and that the rewriting of the parents is complete, value preserving and stable.
* **Pattern rewriting.** A regular expression becomes a LIKE pattern, and a simple LIKE
  pattern becomes substring search. Proved: the first always preserves the language, the
  second exactly when no escaped escape character stands before a special one.
* **Import loops.** Bitmap expansion, chunk-parallel NULL replacement and the signed offsets
  of variable-length arrays, each against a row by row specification.
* **Fixed-point arithmetic.** Rescaling with rounding half away from zero, exact overflow
  detection, and decimal parsing, with the exact condition under which rounding twice is
  wrong.

## Layout

| file | content |
|---|---|
| Basics.dfy | what several modules share |
| Expressions.dfy | expressions, their value under three-valued logic, rewriting of references |
| LeftDeepJoin.dfy | join trees, nested and flattened evaluation, the flattened node |
| JoinFlattening.dfy | flattening preserves meaning |
| JoinExecution.dfy | placing the conjuncts at nest levels, the executed plan |
| ParentRewriting.dfy | redirecting the parents of a flattened join |
| LikeMatching.dfy | LIKE and the run-time matcher |
| PatternRewriting.dfy | regular expressions to LIKE |
| SimpleLike.dfy | LIKE to substring search, and the predicates built from both |
| Decimals.dfy, NumericParsing.dfy | rescaling, casts, parsing |
| ParsingExactness.dfy | exactly which numerals are parsed correctly |
| ChunkStatistics.dfy | statistics of a chunk, the parallel reduction |
| ArrowColumns.dfy, TextFetch.dfy | chunked columns, slices, string buffers |
| Fragments.dfy, FragmentMerging.dfy, TableStorage.dfy | fragments, appends, fetches |
| SharedMetadata.dfy | metadata objects shared with readers |
| LockProtocol.dfy | the lock hand-over |
| DictCatalogue.dfy | tables, columns and dictionaries |
| Bitmaps.dfy, NullReplacement.dfy, VarlenArrays.dfy | import loops |

## Where the code does not do what one would expect

* A join condition that is the boolean NULL literal is read as TRUE, because NULL is stored
  as a nonzero byte. The result stays right when each such join is a LEFT join that has
  nothing to join with but a row of NULLs (`FlatteningPreservesMeaning`). For chains of any
  length with boolean literals as conditions `NullResultExactly` says on which databases it
  changes.
* The executor takes a LEFT join without a condition, or with the literal TRUE, for an inner
  join. If an input that such a join adds is empty, the whole plan yields nothing, otherwise
  it is right (`PlanExactly`); `A LEFT JOIN B ON TRUE` with an empty `B` loses every row of
  `A` (`DroppedLeftExample`).
* The executor gives a conjunct of the inner condition to the first level without an outer
  condition at or above the highest table it mentions. If there is none, the conjunct is
  dropped (`DroppedExactly`). Only conjuncts of a filter above an outermost LEFT join are
  dropped (`DroppedFromFilter`), and the plan keeps exactly that filter above the join, so
  the rows of the whole plan are right (`RetainedFilterCompletes`). The executed join alone
  is not: below LEFT joins only, the filter has no effect on it (`FilterNotApplied`).
* `Node::replaceInput` replaces only the first occurrence of an input (`ReplaceEachExactly`).
* `%\\%` is a simple LIKE pattern, but the rewriting makes it a search for `\%`.
  `SimpleLikeExactly` gives the condition under which the rewriting is right.
* `parse_numeric` rounds a long fraction to 18 digits and then to the scale, so
  `0.499999999999999995` at scale 0 gives 1 (`LongFractionExample`). This happens exactly when
  the digits from the scale on are a four followed by nines and the first dropped digit is at
  least five (`LongFractionExactly`).
* `parse_numeric` ignores the fraction after 18 or more integer digits, and fills with zeros
  when the scale asks for more than 18 digits. `ParseExactly` gives the condition under which
  a numeral of any length is read correctly at any scale.
* In `parse_numeric` a missing fraction counts as one digit, so eighteen nines are refused
  although they fit (`EighteenNines`, `WithoutDotExactly`).
* A reader that keeps the metadata of `getTableMetadata` while an append merges into the last
  fragment holds a row count and statistics of different moments (`StaleExample`). This
  happens exactly for the last fragment, if it had room, the table had rows and some are
  appended (`ReadAcrossAppends`). Readers that copy are not affected
  (`ReaderSeesWholeAppends`).
* `createTable` that hits the dictionary limit leaves the table's name and the columns done so
  far in the schema, without a table (`CreateTable`). The name can then never be created
  again, nor the table dropped (`OrphanStays`).
* The element count of a variable-length array column is tested, its byte count is not, so
  larger columns get wrapped offsets (`ByteCountExactly`).
* The last offset of a variable-length array column counts elements that lie in the range of
  a NULL list (`ConservativeExactly`), and a NULL list at the end of a chunk that is not the
  last leaves no mark (`NegativeExactly`).

## Model

| member | source | states |
|---|---|---|
| `Expressions.MapRefsPreservesValue` | omniscidb/IR/ExprRewriter.h:39-61 | for every expression, a rewriting that sends each reference to one that reads the same value leaves the value of the expression unchanged under three-valued logic |
| `Expressions.MapRefsTargets` | omniscidb/IR/ExprRewriter.h:63-85 | the references of a rewritten expression are exactly of the kind the rewriting produces, so a complete rewriting leaves none of the old kind |
| `Expressions.MapRefsCompose` | omniscidb/IR/ExprRewriter.h:175-190 | two rewritings in a row are one when their effect on every reference composes |
| `Expressions.MapRefsIdentity` | omniscidb/IR/ExprRewriter.h:33-36 | a rewriting that fixes every reference of an expression gives back the expression |
| `LeftDeepJoin.CollectInputs` | omniscidb/IR/LeftDeepInnerJoin.cpp:29-44 | walking down the left spine gives the inputs from left to right and the joins from the outermost inwards |
| `LeftDeepJoin.LowerBound` | omniscidb/IR/LeftDeepInnerJoin.cpp:85-89 | the binary search with less-or-equal finds the first prefix sum greater than the index, also with repeated sums |
| `LeftDeepJoin.FirstGreaterUnique` | omniscidb/IR/LeftDeepInnerJoin.cpp:85-97 | that position is the only one whose neighbours enclose the index |
| `LeftDeepJoin.LeftDeepInnerJoin.constructor` | omniscidb/IR/LeftDeepInnerJoin.cpp:110-165 | the loop collects the filter and all inner conditions into one conjunction and the rebound LEFT conditions per level |
| `JoinFlattening.LookupIsDescent` | omniscidb/IR/Node.cpp:631-652 | for every column of the tree, also with inputs of width zero, the search over prefix sums finds the input and local index that the recursive descent reaches |
| `JoinFlattening.DescentInverse` | omniscidb/IR/LeftDeepInnerJoin.cpp:71-98 | input and local index determine the flat index, and the descent inverts that |
| `JoinFlattening.DescentReads` | omniscidb/IR/Node.cpp:645-652 | a column of a join is, on the bound rows, the column the descent leads to |
| `JoinFlattening.RebindingReads` | omniscidb/IR/LeftDeepInnerJoin.cpp:82-101 | a rebound reference reads from the bound input rows what it meant on the tuple of its subtree |
| `JoinFlattening.RebindingPreservesValue` | omniscidb/IR/LeftDeepInnerJoin.cpp:274-278 | a condition in scope of a subtree has its original value once rebound |
| `JoinFlattening.NestedIsSelectedSpread` | omniscidb/IR/LeftDeepInnerJoin.cpp:121-158 | all inner conditions may wait until every level is bound, although LEFT joins lie between |
| `JoinFlattening.LevelsAreSpread` | omniscidb/IR/LeftDeepInnerJoin.cpp:174-193 | extending by the reported join type and outer condition of each level computes the same tuples as the joins of that depth |
| `JoinFlattening.CollectedConditionMeaning` | omniscidb/IR/LeftDeepInnerJoin.cpp:129-164 | the rebound condition of the node is true on a tuple exactly when the filter and every inner condition is true on it, each in its own scope |
| `JoinFlattening.FlatteningTheorem` | omniscidb/IR/LeftDeepInnerJoin.cpp:110-165 | for every well-formed tree, filter and database the flattened node yields exactly the tuples of the nested joins and filter, with conditions read as the constructor reads them |
| `JoinFlattening.FlatteningPreservesMeaning` | omniscidb/IR/LeftDeepInnerJoin.cpp:46-65 | flattening preserves the query result, in order, for all conditions and filters, when every join on the NULL literal is a LEFT join whose input is empty or one row of NULLs |
| `JoinFlattening.NullResultExactly` | omniscidb/IR/LeftDeepInnerJoin.cpp:123-129 | for every chain of joins whose conditions are absent or TRUE, FALSE or NULL and every database, flattening is right if and only if every join on NULL is harmless in that sense, or the leftmost input or one added by an inner join is empty, or an inner join is on FALSE |
| `JoinFlattening.NullConditionExactly` | omniscidb/IR/LeftDeepInnerJoin.cpp:123-129 | for such chains flattening is right for every database if and only if no condition is the NULL literal or an inner join is on FALSE |
| `JoinExecution.TranslateLeftDeepJoinFilter` | omniscidb/QueryEngine/RelAlgExecutor.cpp:2781-2819 | the loop over the levels puts every conjunct at one level or none: at a LEFT level only its outer condition, elsewhere every conjunct not placed earlier whose tables are all bound; the plans are the types and conditions that the executed levels use |
| `JoinExecution.ConjunctsTrue` | omniscidb/QueryEngine/RelAlgTranslator.cpp:680-700 | splitting a condition into conjuncts keeps when it is true, under three-valued logic |
| `JoinExecution.DroppedExactly` | omniscidb/QueryEngine/RelAlgExecutor.cpp:2781-2819 | a conjunct is placed nowhere if and only if every level from the highest table it mentions up has an outer condition |
| `JoinExecution.PlanSelects` | omniscidb/QueryEngine/RelAlgExecutor.cpp:2754-2776 | running the levels with the placed conjuncts equals running them without and then keeping the tuples on which every placed conjunct is true, also with LEFT levels between |
| `JoinExecution.DroppedFromFilter` | omniscidb/QueryEngine/RelAlgExecutor.cpp:2781-2819 | a dropped conjunct is the literal TRUE or comes from the filter, and all levels above its tables are LEFT joins; no conjunct of an inner join is dropped |
| `JoinExecution.InnerRootPlacesAll` | omniscidb/IR/LeftDeepInnerJoin.cpp:252-266 | below an inner root, where the filter is taken into the node, nothing is dropped |
| `JoinExecution.ExecutionPreservesMeaning` | omniscidb/QueryEngine/RelAlgExecutor.cpp:2496-2512 | for every tree and database on which every conjunct is placed, the executed levels yield the rows of the flattened node, or none if an input of a LEFT join without a condition is empty |
| `JoinExecution.RetainedFilterCompletes` | omniscidb/IR/LeftDeepInnerJoin.cpp:252-272 | applying the filter once more to the executed rows gives the rows of the flattened node, whatever was dropped, or none if an input of a LEFT join without a condition is empty |
| `JoinExecution.PlanExactly` | omniscidb/IR/LeftDeepInnerJoin.cpp:252-272 | for every tree, filter and database the plan as built yields the rows of the flattened node, or none if an input of a LEFT join without a condition is empty; it is the query if and only if no such input is empty or the query is empty |
| `JoinExecution.FilterNotApplied` | omniscidb/QueryEngine/RelAlgExecutor.cpp:2781-2819 | with LEFT joins only, a filter inside the node has no effect on the executed rows |
| `JoinExecution.DroppedLeftExactly` | omniscidb/QueryEngine/RelAlgExecutor.cpp:2496-2512 | for every chain of joins whose conditions are absent or TRUE, FALSE or NULL, execution is right for every database if and only if no condition is NULL and no LEFT join is without a condition, or an inner join is on FALSE |
| `JoinExecution.DroppedLeftExample` | omniscidb/QueryEngine/RelAlgExecutor.cpp:2496-2512 | A LEFT JOIN B ON TRUE with B empty: the plan yields nothing, the query a row for every row of A |
| `ParentRewriting.ResolveTwice` | omniscidb/IR/Node.cpp:23-32 | a resolved reference leads to an input or is unchanged, so resolving twice is resolving once |
| `ParentRewriting.ChainIsOnePass` | omniscidb/IR/LeftDeepInnerJoin.cpp:292-304 | replacing the candidate and then every join of the chain equals one rebinding pass |
| `ParentRewriting.NoOriginalReferenceRemains` | omniscidb/IR/LeftDeepInnerJoin.cpp:290-306 | afterwards no reference to the original filter or to any original join remains |
| `ParentRewriting.RebindingIsIdempotent` | omniscidb/IR/Node.cpp:47-57 | rebinding again changes nothing |
| `ParentRewriting.RewritingPreservesValue` | omniscidb/IR/Node.cpp:176-185 | every rewritten expression of a parent has its original value on every tuple |
| `ParentRewriting.ReplaceEachExactly` | omniscidb/IR/Node.h:133-141 | after a run of replacements all inputs to be replaced are, if and only if none is among the inputs more often than it is replaced |
| `ParentRewriting.Parent.ReplaceInput` | omniscidb/IR/Node.cpp:176-185 | one replacement: the first matching input changes and every expression is rebound for it |
| `ParentRewriting.Parent.RedirectTo` | omniscidb/IR/LeftDeepInnerJoin.cpp:290-306 | the loop over the chain leaves every expression rebound to the flattened node in one pass, and the candidate and every join replaced among the inputs, each at its first occurrence |
| `LikeMatching.StringLikeSimple` | omniscidb/Utils/StringLike.cpp:43-57 | true exactly when the pattern occurs in the string |
| `LikeMatching.StringLikeMatch` | omniscidb/Utils/StringLike.cpp:94-232 | the backtracking matcher decides LIKE; an abort means no later start matches either, an error means no string matches |
| `LikeMatching.StringLike` | omniscidb/Utils/StringLike.cpp:246-255 | decides LIKE for every string and pattern, malformed patterns included, and every escape character but the two wildcards |
| `PatternRewriting.TranslateToLikePattern` | omniscidb/Analyzer/Analyzer.cpp:56-85 | the character loop computes the translation, and on failure leaves the pattern as it was |
| `PatternRewriting.TranslationPreservesLanguage` | omniscidb/Analyzer/Analyzer.cpp:56-85 | whenever the translation succeeds, a string matches the LIKE pattern exactly when the whole string matches the regular expression |
| `PatternRewriting.TranslatedExactly` | omniscidb/Analyzer/Analyzer.cpp:60-82 | a pattern is accepted if and only if it is made of letters, digits, spaces, dots, and stars or pluses directly after a dot |
| `SimpleLike.TestIsSimple` | omniscidb/Analyzer/Analyzer.cpp:87-106 | decides whether a pattern is simple, for every pattern and escape character the code reads within bounds |
| `SimpleLike.EraseControlChars` | omniscidb/Analyzer/Analyzer.cpp:107-124 | the loop computes the erased form that the following rows relate to LIKE |
| `SimpleLike.CleanSimpleIsSubstring` | omniscidb/Analyzer/Analyzer.cpp:807-819 | for a clean simple pattern, LIKE is substring search for the erased form |
| `SimpleLike.ErasedVersusShortest` | omniscidb/Analyzer/Analyzer.cpp:107-124 | the erased form is never shorter than the shortest match, and equals it only for clean patterns |
| `SimpleLike.UncleanDiffers` | omniscidb/Analyzer/Analyzer.cpp:807-819 | for every simple pattern that is not clean, a string on which LIKE and the substring search differ |
| `SimpleLike.SimpleLikeExactly` | omniscidb/Analyzer/Analyzer.cpp:87-124 | the substring search agrees with LIKE on all strings if and only if the pattern is clean |
| `SimpleLike.EscapedEscapeExample` | omniscidb/Analyzer/Analyzer.cpp:107-124 | a simple pattern, its erased form and a string that matches the first and does not contain the second |
| `SimpleLike.GetLikeExpr` | omniscidb/Analyzer/Analyzer.cpp:807-829 | refuses a pattern that ends in the escape character; the planned predicate is LIKE on all strings exactly when the pattern is not simple or is clean |
| `SimpleLike.GetRegexpExpr` | omniscidb/Analyzer/Analyzer.cpp:831-874 | a planned LIKE predicate holds of exactly the strings the whole regular expression matches |
| `SimpleLike.RegexToSubstring` | omniscidb/Analyzer/Analyzer.cpp:853-863 | a regular expression whose translation is simple is substring search |
| `SimpleLike.RunLikePlan` | omniscidb/Utils/StringLike.cpp:43-57 | evaluating a planned predicate with the run-time matchers gives its meaning |
| `Decimals.RoundingUnique` | omniscidb/IR/Datum.cpp:54-63 | rounding half away from zero determines one integer |
| `Decimals.ScaleDownRounds` | omniscidb/IR/Datum.cpp:50-63 | scaling down never fails and rounds half away from zero, for every scale difference |
| `Decimals.ScaleUpExact` | omniscidb/IR/Datum.cpp:64-74 | scaling up is the exact product when it fits and an error otherwise |
| `Decimals.ScaleMonotone` | omniscidb/IR/Datum.cpp:46-74 | rescaling is monotone in both directions |
| `Decimals.UpThenDown` | omniscidb/IR/Datum.cpp:46-74 | a value that was scaled up comes back |
| `Decimals.TwoStepRounding` | omniscidb/IR/Datum.cpp:56-62 | rounding a magnitude in two steps gives the result of one step or one more, and one more exactly when the remainder lies within half a first step below a tie |
| `Decimals.TwoStepScaling` | omniscidb/IR/Datum.cpp:46-74 | two rescalings down differ from one by at most one unit and never toward zero, and agree exactly under that condition on the remainder |
| `Decimals.CastIsRescaling` | omniscidb/IR/Expr.cpp:45-120 | all integer and decimal casts are one rescaling followed by the range check of the target |
| `Decimals.CastRoundTrip` | omniscidb/IR/Expr.cpp:631-741 | a cast to decimal and back gives the integer again |
| `NumericParsing.ParseNumeric` | omniscidb/IR/Datum.cpp:77-121 | every numeral, whatever its number of digits, is refused exactly when the integer part with the kept digits appended leaves the range, and otherwise is the correctly rounded value of the kept digits |
| `NumericParsing.ParsedOnce` | omniscidb/IR/Datum.cpp:77-121 | that description determines the result |
| `NumericParsing.LongFractionExactly` | omniscidb/IR/Datum.cpp:104-119 | a fraction longer than 18 digits gives a result within one unit, correct if and only if the digits from the scale to the last kept are not a four followed by nines or the next digit is below five |
| `NumericParsing.LongFractionExample` | omniscidb/IR/Datum.cpp:104-119 | 0.499999999999999995 at scale 0 gives 1, although 0 is correct |
| `NumericParsing.TwoStepsWithinOneUnit` | omniscidb/IR/Datum.cpp:104-119 | a fraction cut at 18 digits and then rescaled ends within one unit of the correct value, and on it exactly under the condition on the remainder |
| `NumericParsing.KeptIsRounded` | omniscidb/IR/Datum.cpp:104-113 | keeping the first digits and looking at the next one is rounding the fraction half up |
| `NumericParsing.DroppedDigitsRound` | omniscidb/IR/Datum.cpp:108-113 | the next digit alone decides the rounding of the dropped digits |
| `NumericParsing.CorrectDigits` | omniscidb/IR/Datum.cpp:112-119 | with up to 18 digits the result is the correctly rounded value of all digits, or a refusal when that does not fit |
| `NumericParsing.EighteenNines` | omniscidb/IR/Datum.cpp:90-120 | eighteen nines without a fraction are refused although the value fits |
| `NumericParsing.WithoutDotExactly` | omniscidb/IR/Datum.cpp:90-120 | a numeral without a dot is parsed correctly if and only if the scale is positive, or the numeral is out of range, or ten times its magnitude fits |
| `ParsingExactness.ParseExactly` | omniscidb/IR/Datum.cpp:77-121 | for every numeral and scale, the result is the correctly rounded value of all digits, or a refusal exactly of what does not fit, if and only if a condition on the digits holds |
| `ParsingExactness.CutExactly` | omniscidb/IR/Datum.cpp:100-119 | a fraction cut short of the scale and filled with zeros is read correctly if and only if the digits cut off are zeros before the next rounding, or nines that carry, or the value is out of range with and without them |
| `ParsingExactness.IgnoredFractionExample` | omniscidb/IR/Datum.cpp:100-103 | 100000000000000000.9 at scale 0 loses its fraction |
| `ParsingExactness.LastDigitExample` | omniscidb/IR/Datum.cpp:104-113 | 0.000000000000000001 at scale 18 gives 0 |
| `ParsingExactness.RefusedExample` | omniscidb/IR/Datum.cpp:93-96 | twenty nines and a half are refused at scale 0, which is right |
| `ChunkStatistics.ScanDescribes` | omniscidb/DataMgr/NoneEncoder.h:92-104 | a fresh scan gives the exact extremes of the values that are not NULL and whether a NULL occurs |
| `ChunkStatistics.DescribedOnce` | omniscidb/DataMgr/ChunkMetadata.h:35-41 | that description determines the statistics |
| `ChunkStatistics.ScanFromSeed` | omniscidb/DataMgr/NoneEncoder.h:88-90 | the seed of the reduction is no identity, but any accumulator that already accounts for it scans like the seed, merged |
| `ChunkStatistics.MergeIsConcatenation` | omniscidb/DataMgr/ChunkMetadata.h:96-137 | merging statistics is scanning the concatenation |
| `ChunkStatistics.ParallelReduce` | omniscidb/DataMgr/NoneEncoder.h:88-112 | for every split tree, and every choice of reseeding or carrying the accumulator, the reduction is the sequential fold |
| `ChunkStatistics.NoneEncoder.UpdateStatsEncoded` | omniscidb/DataMgr/NoneEncoder.h:83-113 | an update seeded with the current statistics is the fold from them |
| `ChunkStatistics.ComputeStats` | omniscidb/ArrowStorage/ArrowStorage.cpp:863-893 | chunk after chunk equals one scan of the concatenation |
| `ArrowColumns.SliceCells` | omniscidb/ArrowStorage/ArrowStorage.cpp:179-180 | a slice of a chunked column holds exactly the rows asked for, for every chunking |
| `ArrowColumns.CellsAppend` | omniscidb/ArrowStorage/ArrowStorage.cpp:583-586 | joining chunk lists joins the rows |
| `TextFetch.OffsetsSpell` | omniscidb/ArrowStorage/ArrowStorage.cpp:191-238 | the offsets start at zero, end at the byte count, and with the bytes give back every string |
| `TextFetch.SpellingUnique` | omniscidb/ArrowStorage/ArrowStorage.cpp:191-238 | no other pair of buffers spells the same strings |
| `TextFetch.TextAppend` | omniscidb/ArrowStorage/ArrowStorage.cpp:595-599 | bytes and byte counts add up when rows are appended |
| `TextFetch.ComputeTotalStringsLength` | omniscidb/ArrowStorage/ArrowStorage.cpp:40-64 | the sum over the chunks is the byte count of exactly the asked rows |
| `TextFetch.FetchVarLenOffsets` | omniscidb/ArrowStorage/ArrowStorage.cpp:203-213 | the running correction modulo 2^32 writes the offsets of the concatenated rows |
| `TextFetch.FetchVarLenData` | omniscidb/ArrowStorage/ArrowStorage.cpp:224-237 | the copied pieces are the bytes of the rows side by side |
| `Fragments.MergeMetaIsConcatenation` | omniscidb/ArrowStorage/ArrowStorage.cpp:595-603 | merging the metadata of two pieces is computing it for the joined rows, for integer and text columns |
| `Fragments.TilesWithin` | omniscidb/ArrowStorage/ArrowStorage.h:132-145 | in a tiling every fragment lies within the rows and none is over full |
| `Fragments.FragmentsCoverTable` | omniscidb/ArrowStorage/ArrowStorage.cpp:162-189 | the fragments together are all rows, each once and in order |
| `Fragments.NewFragmentStarts` | omniscidb/ArrowStorage/ArrowStorage.cpp:455-472 | every new fragment starts inside the appended rows, so the remaining count does not underflow, and only the last may be short |
| `FragmentMerging.PieceEnds` | omniscidb/ArrowStorage/ArrowStorage.cpp:526-534 | each new fragment ends where the next starts, the last at the last appended row |
| `FragmentMerging.JoinedTiles` | omniscidb/ArrowStorage/ArrowStorage.cpp:589-614 | merging into the last partial fragment and shifting the others tiles the longer table |
| `FragmentMerging.JoinedAgrees` | omniscidb/ArrowStorage/ArrowStorage.cpp:589-612 | after the merge the metadata of every fragment is that of a scan of its rows |
| `FragmentMerging.AgreementDescribes` | omniscidb/ArrowStorage/ArrowStorage.cpp:536-552 | agreeing metadata gives the exact extremes, NULL flag, element and byte count of the fragment |
| `FragmentMerging.FragmentsDetermined` | omniscidb/ArrowStorage/ArrowStorage.cpp:452-620 | two tables with the same rows have the same fragments and metadata, however the rows were split into appends, once neither ends in an empty fragment |
| `TableStorage.ComputeMetadata` | omniscidb/ArrowStorage/ArrowStorage.cpp:536-572 | the metadata of a column of a new fragment is that of its rows, for every chunking |
| `TableStorage.BuildFragments` | omniscidb/ArrowStorage/ArrowStorage.cpp:469-576 | the loops over columns and fragments give the pieces of the appended rows with agreeing metadata |
| `TableStorage.CompareSchemas` | omniscidb/ArrowStorage/ArrowStorage.cpp:843-861 | accepts exactly equal schemas |
| `TableStorage.AppendKeepsConsistent` | omniscidb/ArrowStorage/ArrowStorage.cpp:579-614 | appending keeps columns typed and of equal length, fragments tiling and metadata agreeing |
| `TableStorage.TableData.constructor` | omniscidb/ArrowStorage/ArrowStorage.h:138-145 | a new table is valid and empty |
| `TableStorage.TableData.AppendArrowTable` | omniscidb/ArrowStorage/ArrowStorage.cpp:437-623 | refuses another schema and changes nothing; otherwise every column grows by exactly the new rows and all invariants hold again |
| `TableStorage.TableData.MergeFragments` | omniscidb/ArrowStorage/ArrowStorage.cpp:579-614 | in a table with rows, merging the chunk lists, the last fragment and the metadata adds exactly the new rows and keeps all invariants |
| `TableStorage.TableData.ReplaceFragments` | omniscidb/ArrowStorage/ArrowStorage.cpp:615-620 | in a table without rows, also after appends of no rows, taking over the new columns and fragments does the same |
| `TableStorage.TableData.FetchFixedLenData` | omniscidb/ArrowStorage/ArrowStorage.cpp:162-189 | writes exactly the values of the rows from the fragment's start on, as many as the byte count asks for, or the fragment's rows for a byte count of zero |
| `TableStorage.WholeFragment` | omniscidb/ArrowStorage/ArrowStorage.cpp:162-178 | the byte count of a fragment asks for exactly its rows |
| `TableStorage.TableData.GetZeroCopyBufferMemory` | omniscidb/ArrowStorage/ArrowStorage.cpp:117-160 | a token exposes what the copying fetch writes; there is one for every integer column of one chunk and none for text |
| `TableStorage.TableData.TextOfFragment` | omniscidb/ArrowStorage/ArrowStorage.cpp:564-572 | the byte count in the metadata of a text column is that of the fragment's rows, also after merges |
| `TableStorage.TableData.FetchVarLenOffsets` | omniscidb/ArrowStorage/ArrowStorage.cpp:191-214 | writes the offsets of the fragment's strings |
| `TableStorage.TableData.FetchVarLenData` | omniscidb/ArrowStorage/ArrowStorage.cpp:216-238 | writes the bytes of the fragment's strings |
| `TableStorage.FragmentsGiveContents` | omniscidb/ArrowStorage/ArrowStorage.cpp:162-189 | the rows of all fragments in order are the contents of every column |
| `TableStorage.ImportAll` | omniscidb/ArrowStorage/ArrowStorage.cpp:408-426 | after any run of appends the table holds the accepted rows in order, is valid, and its fragments give them back |
| `SharedMetadata.SharedTable.GetTableMetadata` | omniscidb/ArrowStorage/ArrowStorage.cpp:266-311 | hands out every fragment's row count with the table's own metadata objects, which at that moment agree, or two empty fragments for a table without any |
| `SharedMetadata.SharedTable.AppendArrowTable` | omniscidb/ArrowStorage/ArrowStorage.cpp:437-623 | builds the new fragments of the appended rows; a table with rows merges them, changing only the last fragment's objects and leaving the values of the merge proved for values; a table without rows takes them over with objects of their own |
| `SharedMetadata.ReadAcrossAppends` | omniscidb/ArrowStorage/ArrowStorage.cpp:266-295 | after any run of appends, the metadata a reader kept for a fragment agrees with its row count if and only if the fragment was not the last, or was full, or the table was empty, or no append had a row |
| `SharedMetadata.StaleExample` | omniscidb/ArrowStorage/ArrowStorage.cpp:595-603 | a table of one row, a reader and one append, after which the reader's row count is 1 and its element count 2 |
| `LockProtocol.ReferencesProtected` | omniscidb/ArrowStorage/ArrowStorage.cpp:71-76 | wherever a thread still refers to a table it holds the data mutex or the table's mutex |
| `LockProtocol.StepKeepsInv` | omniscidb/ArrowStorage/ArrowStorage.cpp:438-447 | every single step of fetch, append, create and drop, by any thread, keeps the invariant |
| `LockProtocol.DestroyKeepsInv` | omniscidb/ArrowStorage/ArrowStorage.cpp:757-759 | when drop destroys a table no other thread refers to it, although drop has already released the table's mutex |
| `LockProtocol.NoDestroyedTableTouched` | omniscidb/ArrowStorage/ArrowStorage.cpp:120-125 | in every state of every run no destroyed table was touched, and every referenced table exists and is protected |
| `LockProtocol.NoReaderMeetsWriter` | omniscidb/ArrowStorage/ArrowStorage.cpp:438-447 | in every state of every run no reader overlaps an appender or dropper of its table, and exclusive holders exclude each other |
| `LockProtocol.ReaderSeesWholeAppends` | omniscidb/ArrowStorage/ArrowStorage.cpp:68-115 | all fields a copying reader looked at, whenever it did, reflect the same appends, namely all that completed |
| `LockProtocol.ReaderSeesEarlierAppends` | omniscidb/ArrowStorage/ArrowStorage.cpp:71-76 | what a reader sees contains every append that completed earlier in the run |
| `DictCatalogue.CheckNewTableParams` | omniscidb/ArrowStorage/ArrowStorage.cpp:783-841 | accepts exactly the parameters that name a new table with distinct, permitted column names and existing dictionaries |
| `DictCatalogue.ResolveColumn` | omniscidb/ArrowStorage/ArrowStorage.cpp:345-371 | named dictionaries stay, new ones were not handed out before, and two columns share a new one exactly when they gave the same negative id |
| `DictCatalogue.ColumnsAdded` | omniscidb/ArrowStorage/ArrowStorage.cpp:384-388 | a new table's columns have the resolved types and no other column changes |
| `DictCatalogue.Catalogue.constructor` | omniscidb/ArrowStorage/ArrowStorage.h:212-214 | an empty catalogue is valid |
| `DictCatalogue.Catalogue.CreateTable` | omniscidb/ArrowStorage/ArrowStorage.cpp:324-406 | keeps the stored dictionaries equal to the referenced ones on every path; says exactly when parameters are bad and when the dictionary limit is hit, and the whole state after each, with the name and the columns that the limit leaves behind |
| `DictCatalogue.Catalogue.DropTable` | omniscidb/ArrowStorage/ArrowStorage.cpp:745-781 | removes exactly the table, its columns and the dictionaries no remaining column refers to; an unknown table changes nothing |
| `DictCatalogue.OrphanStays` | omniscidb/ArrowStorage/ArrowStorage.cpp:745-800 | after any run of creates and drops, a table the limit left behind can neither be created nor dropped |
| `DictCatalogue.RunOperations` | omniscidb/ArrowStorage/ArrowStorage.cpp:324-781 | after any run of creates and drops the stored dictionaries are exactly those a column refers to |
| `Bitmaps.SplitBits` | omniscidb/ArrowStorage/ArrowStorageUtils.cpp:44-48 | head bits, full bytes and tail bits cover exactly the asked bits, for every offset and length |
| `Bitmaps.CopyWithNulls` | omniscidb/ArrowStorage/ArrowStorageUtils.cpp:38-71 | writes exactly the asked rows, each its value or the null value, and nothing else |
| `Bitmaps.ExpandBits` | omniscidb/ArrowStorage/ArrowStorageUtils.cpp:75-99 | the same for a boolean array without NULLs |
| `Bitmaps.CopyReplacingNulls` | omniscidb/ArrowStorage/ArrowStorageUtils.cpp:101-166 | the all-null, no-null and mixed paths meet one row by row specification |
| `Bitmaps.NullCountExtremes` | omniscidb/ArrowStorage/ArrowStorageUtils.cpp:109-118 | a null count of zero or of the length says that no row or every row is NULL |
| `NullReplacement.RowOfColumn` | omniscidb/ArrowStorage/ArrowStorageUtils.cpp:186-193 | the prefix-sum position of a row of a chunk is its position in the concatenated column |
| `NullReplacement.RangesCover` | omniscidb/ArrowStorage/ArrowStorageUtils.cpp:186-193 | every position of the buffer belongs to some row |
| `NullReplacement.RangesDisjoint` | omniscidb/ArrowStorage/ArrowStorageUtils.cpp:186-193 | different rows have different positions |
| `NullReplacement.NothingToReplace` | omniscidb/ArrowStorage/ArrowStorageUtils.cpp:176-179 | the early return hands back rows that are already the replaced ones |
| `NullReplacement.ReplaceNullValues` | omniscidb/ArrowStorage/ArrowStorageUtils.cpp:173-205 | whatever the order of the chunks, the result is the row by row replacement of the column |
| `NullReplacement.AnyInterleaving` | omniscidb/ArrowStorage/ArrowStorageUtils.cpp:184-194 | any interleaving of the single writes of all chunks gives the same |
| `VarlenArrays.ReplaceNullValuesVarlenArray` | omniscidb/ArrowStorage/ArrowStorageUtils.cpp:271-346 | whatever the order of the chunks, refuses exactly the columns with too many elements and otherwise writes every list's elements and signed offset, wrapped to 32 bits |
| `VarlenArrays.ByteCountExactly` | omniscidb/ArrowStorage/ArrowStorageUtils.cpp:282-292 | the last offset is in magnitude the number of bytes written if and only if that number does not exceed 2^31 |
| `VarlenArrays.FillPlain` | omniscidb/ArrowStorage/ArrowStorageUtils.cpp:312-323 | the branch for a chunk without NULL lists meets the same specification as the other |
| `VarlenArrays.FillWithNulls` | omniscidb/ArrowStorage/ArrowStorageUtils.cpp:324-340 | list by list, with the sign carried to the next offset, the branch for a chunk with NULL lists writes the specified offsets and elements and nothing outside its ranges |
| `VarlenArrays.OffsetsConservative` | omniscidb/ArrowStorage/ArrowStorageUtils.cpp:271-346 | if NULL lists occupy empty ranges, every offset is in magnitude the byte count of all lists before it, across chunks |
| `VarlenArrays.ConservativeExactly` | omniscidb/ArrowStorage/ArrowStorageUtils.cpp:282-292 | the last offset counts the elements of the lists if and only if no NULL list has elements in its range |
| `VarlenArrays.ListRecoverable` | omniscidb/ArrowStorage/ArrowStorageUtils.cpp:324-346 | the elements of every list lie between its offset and the next; a NULL list reads as empty |
| `VarlenArrays.NegativeExactly` | omniscidb/ArrowStorage/ArrowStorageUtils.cpp:325-346 | inside a chunk an offset is negative exactly after a NULL list that some element precedes; the first offset of a chunk never is |

## Left out

- JoinFlattening.NullResultExactly: stated for chains whose conditions are absent or boolean literals and without a filter; another condition that is never true can hide the difference.
- JoinFlattening.NullConditionExactly: likewise.
- JoinExecution.DroppedLeftExactly: likewise; for all conditions, filters and single databases there is PlanExactly.
- JoinExecution.TranslateLeftDeepJoinFilter: conditions are split at conjunctions as they are; the normalisation, the factoring of disjunctions, the combination of equalities and the reordering of tables, which precede or follow it, are not modelled.
- ParentRewriting.Parent.ReplaceInput: without the map from old to new column indexes, which flattening does not pass.
- LikeMatching.StringLikeMatch: the case-insensitive mode, which reads the string lower-cased, is not modelled; the escape character is no wildcard, because the trailing wildcards and those after a `%` are taken before it.
- LikeMatching.StringLike: likewise.
- PatternRewriting.TranslateToLikePattern: the escape character is none that the loop itself accepts, such as a letter; the only one its caller passes is the backslash.
- SimpleLike.TestIsSimple: the pattern `%%` with the escape character `%` is excluded, because the code then reads before the string.
- SimpleLike.GetLikeExpr: case-insensitive matching and the negated form are not modelled, and the pattern is not empty, because the check of its last character is undefined there.
- SimpleLike.GetRegexpExpr: the negated form and escape expressions other than the backslash, which is the only one accepted, are not modelled.
- NumericParsing.ParseNumeric: the range ends at the least 64-bit integer plus one, since that integer stands for NULL; texts whose integer part is the least 64-bit integer are excluded, because its absolute value is undefined; texts that are not numerals are parsed, but only numerals are specified.
- ChunkStatistics.ParallelReduce: without the decimal overflow validator, which is off in encoders that have no buffer, as here.
- ChunkStatistics.NoneEncoder.UpdateStatsEncoded: likewise.
- ChunkStatistics.ComputeStats: for integer columns; array columns are not modelled.
- TextFetch.ComputeTotalStringsLength: for strings; the element counts of array columns are not modelled.
- TableStorage.ComputeMetadata: for integer and text columns; array columns are not modelled.
- TableStorage.TableData.AppendArrowTable: the columns are already converted; text columns need at least one row, because the search for the first chunk assumes one; metadata is a value here and an object in SharedMetadata.
- TableStorage.TableData.MergeFragments: likewise.
- TableStorage.TableData.FetchFixedLenData: buffers hold elements, not bytes, and the byte count stays within the table.
- TableStorage.TableData.FetchVarLenData: the byte count is the one the metadata gives, which is the one callers pass.
- VarlenArrays.ReplaceNullValuesVarlenArray: the capacity of the offset buffer is not modelled.
- SharedMetadata.SharedTable.AppendArrowTable: the columns are already converted, as in TableStorage.
- LockProtocol.StepKeepsInv: safety only; the order of the table and dictionary mutexes differs between append and drop, and nothing is said about progress. The dictionary and schema mutexes, which do not guard tables, are not modelled.
- LockProtocol.ReaderSeesWholeAppends: for readers that copy; those that keep metadata objects are in SharedMetadata.
- DictCatalogue.ResolveColumn: columns that are arrays of dictionary strings are not modelled.
- DictCatalogue.Catalogue.CreateTable: likewise, although drop ignores them; identifiers of tables do not wrap around.
- SEMI and ANTI joins: their meaning is in the executor.
- Recognising the root of a left-deep tree in a plan with shared nodes, and several trees in one plan.
- The re-indexing variant of the rebinding visitor, `getEquivCols` and `getColumnType`.
- Expression kinds other than references, constants, unary, binary, IN, CASE and function calls: they would repeat the same recursion.
- Statistics of fixed-length and variable-length array columns, and of floating-point columns.
- Encoders that narrow times and dates, string dictionaries, and the date converters.
- Floating-point casts, width buckets and printing of decimals.
- CSV, JSON and Parquet readers, hashing, printing of plans, and query hints: input and output or easy members.
