# A verified model of dynar

dynar is a small DynamoDB engine on top of SQLite. It encodes keys as bytes whose lexicographic order is
the order of DynamoDB, compiles key conditions into byte-range predicates, evaluates condition
expressions on items, edits nested documents, and runs transactions over several items. This project
models those parts and proves what they promise.

`dafny verify dfyconfig.toml` checks everything.

## How it is organised

| files | what they model |
|---|---|
| `bytes`, `powers`, `decimal`, `numbers`, `permutations`, `wrappers` | byte order, decimal strings as exact rationals, comparison of numbers |
| `keyenc`, `keyrange`, `tables` | key bytes, `begins_with` ranges, the key columns of an item |
| `values`, `limits`, `equality`, `normalforms`, `paths` | attribute values, validation and size, equality, reading and writing at document paths |
| `expr`, `conditions`, `lexer`, `grammar`, `derivations`, `printing`, `textroundtrip`, `spellings`, `parser` | condition expressions: evaluation and meaning, lexer, grammar, the printed form, the cursor parser |
| `query`, `keyconditions`, `roworder`, `paging`, `projection`, `pages` | Query and Scan: compiled predicates, order, pages, projection, and what they return |
| `arithmetic`, `update`, `updateresults`, `commute` | exact arithmetic, the actions of UpdateExpression on values, and what they leave |
| `removal`, `removesort`, `places`, `prune`, `removeorder`, `runorder` | REMOVE: the stable sort, what moves, what is taken out |
| `references`, `reading`, `inplace`, `dropping`, `rightsides`, `steps` | a document of objects that are changed in place and may be stored in several places |
| `byreference`, `unshared`, `valuetwice`, `runinvariants`, `document` | whole updates that store references: when they do what copying does, and what every update keeps |
| `sharing`, `cuts`, `pairs`, `copyremove` | a SET that copies a path, together with another SET or a REMOVE, for any paths |
| `cutreads`, `loops`, `independent`, `independentruns` | SETs and ADDs in any order, stored into themselves or not |
| `aliases`, `removerefs` | REMOVEs in a document that stores containers in several places |
| `store`, `targets`, `transact`, `runs`, `database` | the store, single writes, TransactWriteItems, whole runs |
| `outcomes`, `txoutcomes`, `updaterows`, `validruns`, `tokenwindow` | what each write does, told from the request, the rows and the tokens |

Code that computes is a function, and what it means is stated by lemmas. Code that changes something step
by step is a method, or a class with methods, proved against such a function: the loops of keyenc.go, the
cursor parser (`ParserMachine.Parser`), the update in progress (`Documents.Document`), and the database with
its transaction (`DatabaseEngine.Database`).

An update works on objects: maps and lists refer to other maps and lists, a SET stores a reference to what
its right-hand path names, and every action changes objects in place. `References.Heap` is that state,
`UpdatesByReference.ByReference` is applyUpdate followed by the reading of its result, and the database runs
exactly that. The result is the new item, or a failure, or neither: a container that was stored inside
itself makes validateItem recurse without end, and the request gets no answer (`NeverReturns`; in Go the
recursion uses up the stack and ends the process). `UpdatesByReference.ByCopy` is the same update on values,
with copies for references. A law proved on values holds of the code only where references do what copies do;
the results below say where that is, and what holds elsewhere.

What the operations mean is said a second time, in terms that are not those of the code, and proved of it:
`Conditions.Truth` and `Conditions.Fails` say of which items a condition is true, and where it cannot be evaluated;
`NormalForms.NormalOf` says which values are equal; `Outcomes`, `TransactionOutcomes`, `UpdatesOnRows` and
`TokenWindow` say when a write commits and what the rows and tokens are then; `Pages` says which rows Query and Scan
return, in which order, and what they show of them; `Limits` and `KeyConditions` say which values, keys and key
conditions are accepted.

SQLite is a map from row addresses to items: BLOB columns compare lexicographically, ORDER BY sorts, and a
transaction whose body fails leaves the map as it was. Operations run one after another, as they do on the
single connection. Clock readings, attribute values of requests and the reserved words are parameters.
Strings of type S are byte strings; names and number texts are strings of one-byte characters.

Some results are about what the code does *not* do in general, with the condition under which it does:

* `ratDecimalString` trims zeros of whole numbers, so a sum is exact if and only if it is zero or not a
  multiple of ten (`Arithmetic.AddNumbersExactly`); 5 + 5 gives "1" (`Arithmetic.FivePlusFive`).
* REMOVEs do not always act on the document as it was. What a REMOVE takes out of a container is gone at
  every place where the container is (`RemovesByReference.RemovesShowEverywhere`). If what the other actions
  leave can be read, an update that succeeds takes out, all at once, what was at the places its REMOVEs
  executed at; these are the places they name if and only if, in the order in which they run, none moves the
  target of a later one and none removes from a container that is in two places
  (`RemovesByReference.RemovesArePruned`). A list of distinct elements loses the named ones exactly if the
  indices at which removals show there descend, which for up to twenty REMOVEs, and if nothing is shared,
  means that no two of them stand in ascending order around another REMOVE
  (`RemovesByReference.RemoveSimultaneousIff`). `REMOVE a[0], b, a[1]` fails in one way
  (`RemoveOrder.InterruptedRemove`), `REMOVE a[0], a[1][0]` in the other (`RemoveOrder.MovedRemove`), and
  `SET x = m REMOVE m.a[0]` shortens x.a as well (`CopyAndRemove.CopyThenShorten`).
* References do what copies do as long as no action stores a container that it or a later action changes,
  and none goes into an element that an earlier one has moved (`UpdatesByReference.ReferencesAsCopies`).
  The second guard can be dropped when no right-hand side names a path and no map or list of the request
  is used twice (`UnsharedUpdates.ValuesAsCopies`), but not when one is (`ValueTwice.ValueUsedTwice`). For a
  SET that copies a path the conditions are exact. `SET p = r REMOVE q` does what copying does if and only if
  it fails, or p does not lie below r and q does not either, or is not there
  (`CopyAndRemove.RemoveAsCopiesIff`). `SET p = r, q = :v` does if and only if neither target lies below r,
  or r is not there, or the targets cannot both be written, or only q lies below r and holds the value
  already (`SetPairs.PairAsCopiesIff`).
* A SET sees the SETs before it. `SET p = r` and `SET q = :v` may be exchanged if and only if p or q lies below
  r and r is there, or the targets cannot both be written, or r reads the same after q is written
  (`SetPairs.PairOrderIff`): r and q do not overlap, or q lies below r and holds the value already, or r lies
  at or below q and reads in the value what it read before (`UpdateOrder.ReadsSameIff`). If right-hand paths
  were copied, the first of these conditions would not count (`UpdateOrder.SetsCommuteIff`). SETs and ADDs none
  of which touches what another reads or writes have one outcome in every order, whatever they store
  (`IndependentRuns.AnyOrderByReference`).
* A SET or ADD leaves a document that is never read to the end if and only if it succeeds and stores a container
  that is on the way to its own target, be it through a path, `if_not_exists` or `list_append`
  (`IndependentRuns.WriteEndlessIff`); `SET a.b = a` is the example (`SharedWrites.SelfCopyNeverReturns`). For
  actions none of which touches what another reads or writes it is enough that one of them does
  (`IndependentRuns.IndependentOutcome`). An update whose right-hand sides name no path is always read to the
  end, unless a DELETE that empties a set in a list moves an element that a later action goes into
  (`RemovesByReference.ValuesComeToAnEnd`); `SET l[2] = :v DELETE l[0] :s SET l[1].y = :v` is never
  (`ValueTwice.ValueIntoItself`). In general an update is never read to the end exactly if it leaves some
  container inside itself (`RunInvariants.UpdateEndlessIff`).
* A projection relocates list elements and merges overlapping paths twice. A single path resolves as in the
  item if and only if all its list indices are zero (`Projection.OnePathExactIff`); several together may be
  exact where one alone is not, as `a[0], a[1]` (`Projection.TwoElementsExact`). A path of names together
  with an extension of it is exact if and only if the extension consists of names and reads no list with
  elements (`Projection.ExtensionExactIff`); `Projection.ExtensionOfIndexIff` is the condition for a path
  with an index.
* `begins_with` over a number sort key is an error of the evaluator but compiles to predicates that no row
  satisfies (`QueryCompiler.PrefixOverNumbers`).

## Model

| member | source | states |
|---|---|---|
| Bytes.CompareTransitive | keyenc.go:13-23 | byte order is transitive, strictly if one step is strict |
| Bytes.CompareAntisymmetric | keyenc.go:13-23 | swapping two byte strings negates their comparison |
| Bytes.ComplementReverses | keyenc.go:20-23 | complementing two byte strings that differ at a common position reverses their order |
| Decimal.CheckDigits | keyenc.go:107-111 | the loop accepts a mantissa exactly when all its characters are digits |
| Decimal.SplitNumber | keyenc.go:70-114 | sign, exponent and the two digit strings around the point, or an error, as the text is written |
| Decimal.ParseDecimal | keyenc.go:65-133 | the statements of parseDecimal return the canonical triple of the text, or fail |
| Decimal.NormalizeExact | keyenc.go:65-133 | sign, digits and exponent denote exactly the rational that the text denotes |
| Decimal.TrimmedExact | keyenc.go:119-127 | trimming zeros on the left keeps the number, on the right it keeps the fraction |
| Numbers.DecCanonical | keyenc.go:65-69 | two canonical triples have the same value exactly when they are the same triple |
| Numbers.TripleIffSameNumber | keyenc.go:65-133 | two number texts give the same triple exactly when they denote the same rational |
| Numbers.CompareNumbersIsSign | keyenc.go:242-272 | the comparison fails exactly on texts that do not parse, and is otherwise the sign of the exact difference |
| Numbers.CompareNumbersTotalPreorder | keyenc.go:242-272 | the comparison is a total preorder |
| Numbers.NumbersEqualIffSameTriple | keyenc.go:284-287 | numbersEqual holds exactly when both texts parse to one triple |
| Numbers.PadRight | keyenc.go:276-281 | the loop pads a significand with zeros to the length of the other |
| KeyEncoding.AppendEscaped | keyenc.go:52-63 | the loop appends the text with every zero byte escaped |
| KeyEncoding.EncodeNumberKey | keyenc.go:136-163 | the bytes built step by step are the number key, and an error is returned exactly where there is none |
| KeyEncoding.EncodeParsed | keyenc.go:141-162 | the three cases by sign, with biased exponent, terminator and complement |
| KeyEncoding.EscapedOrder | keyenc.go:52-63 | terminated escaped texts compare like the texts, and two of them differ at a common position |
| KeyEncoding.TerminatedDigitOrder | keyenc.go:17-23 | terminated significands compare like the fractions they denote |
| KeyEncoding.NumberKeyOrder | keyenc.go:136-163 | byte order of number keys is numeric order for all numbers that have a key, and equal keys are equal numbers |
| KeyEncoding.KeyOrder | keyenc.go:29-50 | for S, N and B keys of one type byte order is compareOrder; keys are equal exactly when the values are; distinct keys of any types differ at a common position |
| KeyEncoding.KeysPrefixFree | keyenc.go:29-62 | no key is a proper prefix of another, across S, N and B |
| KeyRanges.Successor | keyenc.go:182-194 | the in-place increment returns the upper bound of the strings with a prefix, or none if all bytes are 0xFF |
| KeyRanges.PrefixRangeExact | keyenc.go:165-194 | b <= s < successor(b) holds exactly when b is a prefix of s, no successor meaning no upper bound |
| KeyRanges.EscapedPrefix | keyenc.go:52-63 | an escaped text is a prefix of a terminated one exactly when the text is a prefix |
| KeyRanges.BeginsWithRange | keyenc.go:165-180 | the byte range of a begins_with prefix selects exactly the keys whose value starts with it |
| Values.NamedSizesSplit | avjson.go:271-277 | the size of a map does not depend on the order of iteration |
| Values.SizeOfItem | avjson.go:271-277 | the loop adds up names and values of all attributes |
| Values.SizeOfValue | avjson.go:282-327 | the recursive size with its loops over lists, sets and maps is the size of the value |
| Limits.TextDenotes | keyenc.go:65-133 | sign, digits around a point and exponent denote sign times mantissa times that power of ten, for exponents up to 100000 |
| Limits.PlainDenotes | keyenc.go:65-133 | the same without an exponent |
| Limits.ValidNumberIff | avjson.go:341-356 | a number is valid exactly if it is zero, or has at most 38 significant digits and lies between 10^-131 and 10^126 |
| Limits.HasKeyIff | keyenc.go:29-50 | exactly the strings and blobs that are not empty have a key, and the numbers that are zero or between 10^-32769 and 10^32767 |
| Limits.ItemKeyIff | keyenc.go:197-224 | an item has a key exactly if its key attributes are there, of their types and with keys |
| Limits.TableKeyIff | ops_item.go:30-66 | a request key is an item with a key and no other attributes |
| Limits.ValidIff | avjson.go:202-256 | a value is valid exactly if whatever lies at one of its paths is acceptable by itself |
| Limits.NumberCounts | avjson.go:331-337 | a number counts one byte and one for every two significant digits it needs |
| Limits.ListCounts | avjson.go:312-317 | a list counts 3, and one more for every element |
| Limits.MapCounts | avjson.go:271-327 | a map counts 3, and its name and one more for every entry; an item counts names and values |
| Limits.SetsCount | avjson.go:282-311 | sets count their elements, other scalars their bytes or one |
| Equality.AvEqualReflexive | expr.go:895-983 | equality is reflexive on valid values of any nesting |
| Equality.AvEqualSymmetric | expr.go:895-983 | equality is symmetric |
| Equality.AvEqualTransitive | expr.go:895-983 | equality is transitive |
| Equality.SetsUnordered | expr.go:914-956 | the order of elements is irrelevant in string, number and binary sets |
| Equality.NumberSetEqual | expr.go:917-936 | greedy matching with the used array decides equality of the multisets of numbers |
| Equality.BinarySetEqual | expr.go:937-956 | greedy matching with the used array decides equality of the multisets of blobs |
| Equality.StringSetEqual | expr.go:985-1000 | counting up and down decides equality of the multisets of strings |
| NormalForms.ValidEqualIff | expr.go:895-983 | valid values are equal exactly if they have the same normal form |
| Equality.EqualValues | expr.go:895-983 | avEqual, case by case and with its loops, decides the equality that `NormalForms.EqualIffSameNormal` describes |
| NormalForms.EqualIffSameNormal | expr.go:895-983 | two values are equal exactly if their numbers can be read and they have the same normal form: numbers as canonical triples, sets as multisets, lists, maps and other scalars as they are |
| Paths.PathsOverlap | update.go:151-164 | the loop decides whether one path is a prefix of the other |
| Paths.WalkPath | expr.go:338-366 | the loop of resolvePath finds the value at a path, or that there is none |
| Paths.OverlapSymmetric | update.go:151-164 | overlap is symmetric |
| Paths.GetOfPut | update.go:399-448 | after a successful write the path reads what was written |
| Paths.GetFrame | update.go:399-448 | a write leaves every path that does not overlap as it was, found or not found |
| Paths.PutOfGet | update.go:399-448 | writing back what is there changes nothing |
| Paths.PutTwice | update.go:399-448 | the last of two writes to one path wins |
| Paths.PutFails | update.go:399-448 | whether a write succeeds does not depend on the value written |
| Paths.PutsCommute | update.go:399-448 | writes to paths that do not overlap commute, intermediate maps included: both orders fail or both give one document |
| Expressions.TermsDecide | expr.go:565-588 | the value, or the failure, of an And or Or in terms of all its terms: the first deciding term counts |
| Expressions.InfixExact | expr.go:788-807 | the recursive search finds a byte string exactly when it occurs in the other |
| Conditions.CompareIsOrder | expr.go:1005-1029 | byte strings compare as in a dictionary |
| Conditions.EvaluationMeans | expr.go:565-866 | evaluation fails exactly where the expression cannot be evaluated, and otherwise tells whether it is true: OR if some term is, AND if all are, NOT if its term is not; comparisons by normal form, exact number and dictionary order; functions by presence, type, prefix, occurrence, membership and count |
| Tables.ExtractedKey | ops_item.go:817-829 | the key attributes of an item encode to the key columns of the item |
| QueryCompiler.ParseKeyCondition | ops_item.go:683-815 | the loop over at most two terms accepts and returns the key condition |
| QueryCompiler.AppendSkPredicates | ops_item.go:521-571 | the switch appends the conjuncts of the sort key condition, or fails |
| QueryCompiler.BuildPredicates | ops_item.go:513-571 | the WHERE conjuncts of a key condition, or an error |
| QueryCompiler.SkPredExact | ops_item.go:526-540 | a comparison of encoded sort keys holds exactly when the order of the values says so |
| QueryCompiler.CompilationExact | ops_item.go:521-571 | for every stored row and every key condition that compiles, except begins_with over numbers: the expression evaluates without error, and to true exactly when the row satisfies the predicates |
| QueryCompiler.CompilationSelects | ops_item.go:521-571 | without that exception: the row is selected exactly when the expression evaluates to true |
| QueryCompiler.PrefixOverNumbers | ops_item.go:555-566 | begins_with over a number sort key fails to evaluate, and its predicates hold of no row |
| KeyConditions.CompilesIff | ops_item.go:511-571 | a key condition is accepted exactly if it is one equality on the partition key, or that and one condition on the sort key in either order, with values of the request that have keys of the declared types; `begins_with` takes any string or blob |
| RowOrder.SortedUnique | ops_item.go:595-600 | a set of keys has one sorted sequence |
| RowOrder.OrderByAfter | ops_item.go:573-600 | selecting the rows behind the i-th row drops exactly the first i + 1 |
| Paging.EmitRows | ops_item.go:640-658 | the loop over the scanned rows filters, projects and remembers the last key; what it returns is described by `Pages.EmitMeans` |
| Paging.RunPage | ops_item.go:591-674 | one page: a row more than the limit is fetched, cut off, and makes the key of the last row the continuation |
| Paging.StartAfter | ops_item.go:573-591 | the start key conjunct of Query in both directions and of Scan selects exactly the rows behind that key |
| Paging.PagingLossless | ops_item.go:573-676 | for any limit of at least 1, following LastEvaluatedKey ends and returns the items, in order, and the ScannedCount of the request without limit; it fails exactly when that fails |
| Paging.QueryIsFilterAndSort | ops_item.go:460-681 | the collected pages of a query are what evaluating its key condition on every item, keeping the true ones and sorting by key gives |
| Projection.ProjectItem | ops_item.go:1006-1017 | the loop merges each wrapped path into the output |
| Projection.MergeIsPut | ops_item.go:1019-1058 | wrapping and merging a value at a name-only path is writing it there |
| Projection.ProjectedExactly | ops_item.go:1006-1065 | each requested path resolves in the output as in the item, for name-only paths that do not overlap |
| Projection.NothingElseProjected | ops_item.go:1006-1065 | what resolves in the output is a prefix or an extension of a requested path that resolves in the item |
| Projection.OnePathExactIff | ops_item.go:1019-1030 | a single path that resolves in the item resolves to the same in the output if and only if all its list indices are zero |
| Projection.MergeBackIff | ops_item.go:1032-1065 | merging what a path reads back into the value changes nothing if and only if the path consists of names and reads no list with elements |
| Projection.ExtensionExactIff | ops_item.go:1006-1065 | a requested path of names and an extension of it, in either order, are both exact if and only if the extension consists of names and reads no list with elements |
| Projection.ExtensionOfIndexIff | ops_item.go:1006-1065 | the exact condition, in either order, for a path with an index and an extension of it |
| Projection.TwoElementsExact | ops_item.go:1006-1065 | a[0] and a[1] together are exact although an index is not zero |
| Pages.EmitMeans | ops_item.go:640-658 | reading fails exactly if the filter cannot be evaluated on a row; otherwise there is one item for each row that passes, in order: the row itself without a projection, else its projection, in which, for name paths that do not overlap, exactly the requested paths resolve as in the row |
| Pages.QueryReturns | ops_item.go:460-681 | following LastEvaluatedKey returns exactly the rows of which key condition and filter are true, so shown, in the order of their sort key values, and counts those of which the key condition is |
| Pages.ScanReturns | ops_item.go:833-975 | the same for Scan: all rows that pass the filter, in dictionary order of their keys |
| Pages.PageReturns | ops_item.go:573-676 | one page from any start key: the rows behind it up to the limit, and the key attributes of the last one if more follow |
| Pages.BadStart | ops_item.go:573-591 | a start key that is no request key, or of another partition, fails |
| Arithmetic.NaturalText | expr.go:325-331 | the number that size() gives denotes the count |
| Arithmetic.RatDecimalString | update.go:756-803 | the loop over the scaled numerator renders the rational, in lowest or any other terms |
| Arithmetic.ScaleUpLeast | update.go:766-782 | the loop stops at the least scale at which the number is whole |
| Arithmetic.ValidScale | avjson.go:341-356 | every valid number is whole at scale 168, so the cap of 400 is never reached |
| Arithmetic.UntrimmedExact | update.go:783-803 | the text before trimming denotes the number, and trimming is a no-op whenever there are decimals |
| Arithmetic.RenderedExactlyUnlessTens | update.go:753-803 | a nonzero number renders exactly if and only if it is not a multiple of ten |
| Arithmetic.AddNumbersExactly | update.go:736-803 | on valid numbers the rendered sum or difference is exact if and only if it is zero or not a multiple of ten |
| Limits.LooseExponentRefused | update.go:738-755 | a number whose exponent is not a whole number of digits is refused by addition |
| Arithmetic.FivePlusFive | update.go:787-794 | 5 + 5 renders as "1" |
| Updates.CheckOverlaps | update.go:138-147 | the loops over all pairs reject exactly the updates with overlapping paths |
| Updates.UnionStrings | update.go:592-605 | the loops with the seen set compute the union |
| Updates.UnionNumbers | update.go:607-622 | the nested loops compute the union by numeric equality |
| Updates.DiffStrings | update.go:641-653 | the loops with the removal set compute the difference |
| Updates.DiffNumbers | update.go:655-670 | the nested loops compute the difference by numeric equality |
| Updates.UnionMembers | update.go:585-639 | the union keeps the first set as prefix, and has an element equal to x exactly when one of the sets has |
| Updates.DifferenceMembers | update.go:641-687 | the difference has exactly the elements that equal none of the removed ones |
| Updates.AddTo | update.go:488-538 | the type switch of ADD: what it writes, or an error |
| Updates.DeleteFrom | update.go:540-583 | the type switch of DELETE: what it leaves of the set, or an error |
| UpdateResults.PutSucceedsIff | update.go:399-448 | a write succeeds exactly if its path leads to a container that takes its last element, or to a map that lacks its next name, where only names follow |
| UpdateResults.GivesIff | update.go:328-374 | a right-hand side gives what its operand stands for, what is at the first path if something is, or the elements of one list behind those of another, and fails otherwise |
| UpdateResults.WrittenYields | update.go:301-538 | SET and ADD store that, the sum or difference of two numbers, or the union of two sets of one type without repetitions, and fail if there is no such value |
| UpdateResults.IndependentResult | update.go:246-287 | on values, actions that do not touch each other succeed together exactly if each could run alone, and then every target holds its value and all other paths read as before |
| UpdateOrder.ActionsCommute | update.go:246-270 | on values, two SET or ADD actions commute if neither touches what the other reads or writes |
| UpdateOrder.AnyOrder | update.go:246-270 | on values, such actions give one document in every order, or fail in every order |
| UpdateOrder.ValueUpdatesCommute | update.go:138-164 | the SETs and ADDs of a parsed update with value references may be permuted freely |
| UpdateOrder.SetsCommuteIff | update.go:256-270 | if right-hand paths were copied, SET p = r and SET q = :v could be exchanged if and only if the targets cannot both be written or r reads the same after q is written |
| UpdateOrder.ReadsSameIff | update.go:399-448 | when r reads the same, told before q is written: no overlap, or the value is there already, or the value reads the same inside |
| ListRemoval.DescendingIsSimultaneous | update.go:469-478 | removing descending indices one by one leaves exactly the elements not named, in order |
| ListRemoval.SimultaneousIffDescending | update.go:469-478 | for distinct elements and indices, removing one by one is simultaneous if and only if the indices descend |
| RemoveSort.SortKeeps | update.go:271-280 | the stable sort, merges included, keeps every REMOVE |
| RemoveSort.SortFalls | update.go:271-280 | REMOVEs of one list are sorted from high to low indices, however many there are |
| Places.GetAfterRemoval | update.go:450-486 | after a removal everything below the parent is found where it was before, elements behind the removed one having moved |
| Places.RemoveInParent | update.go:450-486 | removing at a path is dropping a child from the parent and writing the parent back |
| Places.RemovalFrame | update.go:450-486 | a removal leaves every path alone that does not overlap and does not move |
| Pruning.RemovedThenPruned | update.go:450-486 | removing at a path and then anything else all at once is removing all of it at once, in the places of before |
| Pruning.RemovalsPrune | update.go:281-286 | removals one after another leave the document without what was at the places they executed at, removed all at once |
| Pruning.ExecutedAsNamedIff | update.go:281-286 | these are the places they name if and only if none moves the target of a later one |
| RemoveOrder.SortedIffUninterrupted | update.go:271-280 | the sort of up to twenty REMOVEs makes the indices of one list descend if and only if no two of them stand in ascending order around another REMOVE |
| RemoveOrder.RemovesOfOneList | update.go:246-287 | REMOVEs of one list by indices in range succeed and are simultaneous in whatever order they are written |
| RemoveOrder.InterruptedRemove | update.go:271-280 | REMOVE a[0], b, a[1] loses the element at index 2 instead of the one at index 1 |
| RemoveOrder.MovedRemove | update.go:271-286 | REMOVE a[0], a[1][0] goes into the list that was at a[2] |
| Reading.EndlessIffCycle | avjson.go:202-256 | validation recurses without end if and only if some container is inside itself |
| Reading.DenotedUnfolds | avjson.go:202-256 | a document of objects that denotes a value is read to the end, as that value |
| InPlace.PutSucceeds | update.go:399-448 | whether setPath on objects succeeds is decided by the document, however objects are shared |
| InPlace.PutDenotes | update.go:399-448 | in place, setPath yields the document that it yields on values, if the containers on the way occur once and not in what is stored |
| InPlace.PutKeepsOnce | update.go:399-448 | setPath leaves the containers of other places unshared, unless it stores one of them |
| InPlace.PutKeepsSteps | update.go:399-448 | however objects are shared, setPath changes no step but the last one of its path and those it adds |
| Dropping.RemoveDenotes | update.go:450-486 | in place, applyRemove yields the document that it yields on values, if the containers on the way occur once |
| Dropping.RemoveKeepsOnce | update.go:450-486 | applyRemove leaves containers unshared wherever they move |
| RightHandSides.StoredDenotes | update.go:301-374 | what SET and ADD store denotes the value they write |
| RightHandSides.RvalueReachesNot | update.go:326-374 | what a right-hand side stores reaches no container except those its paths name, and for list_append their elements |
| InPlaceSteps.StepProgress | update.go:391-590 | one action in place does what it does on values, if it stores no container on the way to its target |
| InPlaceSteps.StepReady | update.go:391-590 | it leaves the way to another target unshared, if it stores no container there and moves nothing on it |
| UpdatesByReference.ReferencesAsCopies | update.go:246-287 | whole updates with references give what copying gives, as long as no action stores a container that it or a later one changes and none goes into an element that an earlier one has moved |
| UnsharedUpdates.ValuesAsCopies | update.go:246-287 | without right-hand paths, and with every map or list of the request used once, references make no difference |
| UnsharedUpdates.RemovesAsCopies | update.go:246-287 | nor do they in an update of REMOVEs |
| ValueTwice.ValueUsedTwice | update.go:246-287 | SET l[2] = :v, x = :v REMOVE l[0], l[1].y names no path on the right and differs from copying |
| ValueTwice.ValueIntoItself | update.go:246-590 | SET l[2] = :v DELETE l[0] :s SET l[1].y = :v, with an emptied set at l[0], names no path on the right and is never read to the end |
| SharedRemovals.DroppedEverywhere | update.go:450-486 | what is dropped from one container is gone from the document at every place where the container is |
| SharedRemovals.OneRemoval | update.go:450-486 | applyRemove in place succeeds if it does on values, and is then the removals at all places where its container is |
| RemovesByReference.RemovesShowEverywhere | update.go:246-287 | whatever the other actions have stored in several places, the REMOVEs are removals at every place where their containers are |
| RemovesByReference.RemovesArePruned | update.go:246-287 | an update that succeeds takes out what was at the places its REMOVEs executed at, and these are the named ones if and only if none moves the target of a later one and none removes from a container in two places |
| RemovesByReference.RemoveSimultaneousIff | update.go:246-287 | among any other actions that leave the place of the list alone, a list of distinct elements loses exactly the named ones if and only if the indices at which removals show there descend, and what that means in the expression for up to twenty REMOVEs |
| RemovesByReference.GuardedShowsAsNamed | update.go:246-287 | where no action stores a container that it or a later one changes, or each value of the request is used once, the REMOVEs show only where they are named |
| RemovesByReference.GuardedComesToAnEnd | update.go:246-287 | an update is read to the end, whatever it removes, if none of its other actions stores a container that it or a later one changes or goes into an element that has moved |
| RemovesByReference.ValuesComeToAnEnd | update.go:246-590 | without right-hand paths an update is read to the end, unless a DELETE moves an element that a later action goes into |
| SharedWrites.CopyEndlessIff | update.go:326-448 | SET p = r is never read to the end if and only if it succeeds and p lies below r, and is copying otherwise |
| SharedWrites.SelfCopyNeverReturns | update.go:326-448 | SET a.b = a on a map never returns |
| SharedWrites.WriteShowsTwice | update.go:399-448 | a write below a container that is stored twice shows at both places |
| SetPairs.PairByReference | update.go:246-270 | SET p = r, q = :v in both orders and for any paths: never read to the end or failed if p lies below r; what copying leaves when the copy is made last if q does; otherwise what copying leaves |
| SetPairs.PairAsCopiesIff | update.go:246-270 | that pair equals copying if and only if neither target lies below r, or r is not there, or the targets cannot both be written, or only q lies below r and holds the value already |
| SetPairs.PairOrderIff | update.go:246-270 | its order is irrelevant if and only if p or q lies below r and r is there, or the targets cannot both be written, or r reads the same after q is written |
| SetPairs.PairIntoItself | update.go:246-270 | if p lies below r, either order is never read to the end if copying in that order succeeds, and fails if it fails |
| CopyAndRemove.RemoveByReference | update.go:246-287 | SET p = r REMOVE q for any paths: never read to the end or failed if p lies below r; what is removed is gone at p as well if q does; otherwise what copying leaves |
| CopyAndRemove.RemoveAsCopiesIff | update.go:246-287 | it equals copying if and only if it fails, or p does not lie below r and q does not either, or is not there |
| CopyAndRemove.CopyThenShorten | update.go:246-287 | SET x = m REMOVE m.a[0] shortens the list at x.a as well, and copying does not |
| Loops.SelfStored | update.go:326-374 | what a right-hand side stores into itself is the container at a place above the target, or a new list that has it as an element |
| IndependentRuns.IndependentOutcome | update.go:246-287 | SETs and ADDs none of which touches what another reads or writes fail if copying fails, are never read to the end if one of them is stored into itself, and otherwise leave what copying leaves |
| IndependentRuns.WriteEndlessIff | update.go:301-448 | one SET or ADD with any right-hand side is never read to the end if and only if it succeeds and stores a container on the way to its target, and is copying otherwise |
| IndependentRuns.AnyOrderByReference | update.go:246-287 | SETs and ADDs none of which touches what another reads or writes have one outcome in every order, stored into themselves or not |
| RunInvariants.UpdateEndlessIff | update.go:246-287 | any update is never read to the end if and only if it succeeds and leaves some container inside itself |
| RunInvariants.UpdateKeeps | update.go:246-287 | any update leaves a scalar attribute, or an absent one, alone if it heads none of its paths, however objects are shared |
| Documents.Document.SetAt | update.go:399-448 | the walk down a path, with new maps linked in, and the write at its end are setPath on the objects |
| Documents.Document.RemoveAt | update.go:450-486 | finding the parent and dropping the child is applyRemove on the objects |
| Documents.Document.AddAt | update.go:488-538 | applyAdd on the document in progress |
| Documents.Document.DeleteAt | update.go:540-590 | applyDelete on the document in progress; an emptied set is removed |
| Documents.UpdateItem | update.go:243-287 | the loop over the actions with the REMOVEs collected, sorted and run last, on a clone, is applyUpdate with references |
| RunOrders.RunsAll | update.go:256-286 | every action runs exactly once |
| RunOrders.RunAsWritten | update.go:256-286 | SETs, ADDs and DELETEs run first, in the order in which they are written, and REMOVEs last |
| RunOrders.RunOrderParsed | update.go:138-164 | the paths stay free of overlaps in the order in which the actions run |
| Lexer.LexExpr | expr.go:53-147 | the loop over the text returns the tokens, or an error |
| Lexer.LexOfLaid | expr.go:53-147 | tokens lex back from their texts with any blanks between them, and with none where the next token does not extend the one before |
| Lexer.LexIsLaid | expr.go:53-147 | a text that is lexed consists of the texts of its tokens and blanks, each token as long as it can be |
| Spellings.ExistenceReads | expr.go:465-561 | the texts attribute_exists(a) and attribute_not_exists(a) are read as those functions |
| Spellings.ComparisonReads | expr.go:465-537 | the texts of the six comparisons are read as those, with blanks or without |
| ParserMachine.Parser.ParsePath | expr.go:199-255 | the cursor reads a path as the grammar says, and every token read is in range |
| ParserMachine.Parser.ParseOperand | expr.go:274-310 | operands, with size as a function only before a parenthesis |
| ParserMachine.Parser.ParsePrimary | expr.go:465-537 | parentheses, function calls, comparisons, BETWEEN with its own AND, IN lists |
| ParserMachine.Parser.ParsePredicate | expr.go:539-561 | a function call with its number of arguments |
| ParserMachine.Parser.ParseUnary | expr.go:446-463 | NOT binds tighter than AND |
| ParserMachine.Parser.ParseAnd | expr.go:427-444 | the loop collects the terms of an AND |
| ParserMachine.Parser.ParseOr | expr.go:408-425 | the loop collects the terms of an OR |
| ParserMachine.ParseConditionText | expr.go:392-406 | lexer and cursor parser return what the grammar on token lists returns; `Derivations.AcceptedIsDerived` and `TextRoundTrip.TextRoundTrips` say what that is |
| Derivations.AcceptedIsDerived | expr.go:53-561 | every text that is accepted is derived, from all its tokens, by the rules of the grammar: OR over AND over NOT over parentheses, comparisons and calls with their numbers of arguments, and names that are not reserved |
| Printing.UnaryParses | expr.go:446-561 | a printed tree below AND parses back to the tree |
| Printing.AndParses | expr.go:427-444 | joined printed terms of an AND parse back to that AND |
| Printing.OrParses | expr.go:408-425 | joined printed terms of an OR parse back to that OR |
| Printing.ParsePrinted | expr.go:392-561 | the printed tokens of any condition tree, with any spelling of names and keywords, parse back to that tree |
| TextRoundTrip.TextRoundTrips | expr.go:53-561 | the same from text to tree, with any blanks between the tokens |
| Store.EffectSound | ops_item.go:264-334 | a write that passed validation leaves its row under the key of its item, valid and within 400 KiB |
| Outcomes.AcceptedIffAcceptable | ops_item.go:92-137 | a write passes validation exactly if table, key, item, attribute values and actions are acceptable, and is addressed to the row that its key names |
| Outcomes.UnacceptableRejected | ops_item.go:92-137 | any other write is rejected and changes nothing |
| Outcomes.PutOutcome | ops_item.go:92-176 | PutItem is rejected if the item is over 400 KiB or the condition cannot be evaluated on the stored item, refused if it is false, and otherwise stores exactly the item in its row |
| Outcomes.DeleteOutcome | ops_item.go:378-458 | DeleteItem likewise; the row is gone afterwards |
| Outcomes.UpdateOutcome | ops_item.go:243-360 | UpdateItem: the condition decides first; the new item is valid and within 400 KiB, and no other row changes |
| Outcomes.GuardDecides | expr.go:694-704 | a write guarded by attribute_not_exists of the partition key passes exactly if its row is not there, and one guarded by attribute_exists exactly if it is |
| UpdatesOnRows.RowIsUpdated | ops_item.go:310-334 | the row afterwards is the result of the actions on the row before, or on the request key |
| UpdatesOnRows.UpdateStartsFromRow | ops_item.go:310-334 | every scalar or absent attribute of the row that heads no path is as before; without a row the attributes are those of the request key |
| UpdatesOnRows.UpdateInTransaction | ops_transact.go:246-262 | the same for an Update of a transaction |
| UpdatesOnRows.WritesDecided | ops_item.go:288-334 | SETs and ADDs that do not touch each other: when the update is rejected, committed or not answered, and what every target and every other path of the row holds then |
| UpdatesOnRows.SetOneAttribute | ops_item.go:288-334 | SET of one attribute to a value changes that attribute and no other |
| UpdatesOnRows.RemoveDecided | update.go:450-486 | REMOVE of one path: the attribute is gone, or the elements behind the removed one move up, and nothing else changes |
| UpdatesOnRows.DeleteDecided | update.go:540-590 | DELETE of one path: the set keeps exactly its other elements, and is removed if none is left |
| ValidRuns.EndlessNeverAnswered | avjson.go:202-256 | an update that only moves valid values and leaves a container inside itself is never answered |
| Targets.TargetIdInjective | ops_transact.go:161-166 | table name, pk and sk joined with zero bytes identify one item, although encoded keys contain zero bytes |
| Targets.ParseTargets | ops_transact.go:150-168 | the loop rejects exactly the requests in which a write does not parse or two writes name one item |
| Transactions.AtOnceUnique | ops_transact.go:39-42 | applying all operations to the pre-state at once determines the post-state |
| Transactions.SerialIsSimultaneous | ops_transact.go:39-42 | on distinct items, one after another in any order is the same as all at once |
| Transactions.CommittedIff | ops_transact.go:195-302 | a transaction commits exactly when all conditions hold, all writes leave a valid item, as the references they store leave it, and the counted sizes stay within 4 MiB |
| Transactions.OrderFree | ops_transact.go:195-302 | whether it commits and what it commits do not depend on the order of the operations |
| Transactions.RequestOrderFree | ops_transact.go:150-302 | the same for requests whose writes are permuted, acceptance included |
| TransactionOutcomes.RequestAcceptedIff | ops_transact.go:110-168 | a request passes validation exactly if it has 1 to 100 acceptable writes that name distinct items, and a token of 1 to 36 characters if any |
| TransactionOutcomes.UnacceptableRequest | ops_transact.go:110-168 | any other request is rejected and changes nothing |
| TransactionOutcomes.ConditionsFirst | ops_transact.go:195-226 | rejected if a condition cannot be evaluated, cancelled with exactly the false ones as reasons if one is false; what does not commit changes nothing |
| TransactionOutcomes.GuardsDecide | ops_transact.go:195-226 | with attribute_exists and attribute_not_exists as guards, the reasons name exactly the writes whose row is against its guard |
| TransactionOutcomes.CommittedRows | ops_transact.go:228-292 | what every row holds after a commit, Put, Update, Delete and Check alike, and that the counted sizes stay within 4 MiB |
| TransactionOutcomes.WriteAsSingle | ops_transact.go:228-292 | every write of a committed transaction does to its row what the same write does on its own |
| TransactionOutcomes.SinglesCommit | ops_transact.go:228-292 | if every write commits on its own and the counted sizes stay within 4 MiB, the transaction commits |
| TransactionOutcomes.CommitsUnlessTooLarge | ops_transact.go:233-278 | Puts, Deletes and Checks whose conditions hold commit unless a write is too large; the first one that is carries the reason |
| TokenWindow.FreshRequest | ops_transact.go:170-193 | a request without a record of the last 600 seconds is executed; a commit forgets old records and stamps its token |
| TokenWindow.RepeatedRequest | ops_transact.go:170-193 | a request with such a record executes nothing, succeeds if it is the recorded one and is refused otherwise |
| TokenWindow.RecordsStem | ops_transact.go:170-193 | in every run every record was there from the start or comes from a committed transaction with that token |
| TokenWindow.TokenExpires | ops_transact.go:170-193 | in every run a token is free again 600 seconds after the last transaction that committed with it |
| Runs.StepKeepsSound | ops_transact.go:195-302 | every operation keeps the store invariant |
| Runs.RunSound | ops_item.go:92-176 | in every run every row sits under the key of its item, and its item is valid and within 400 KiB |
| Runs.IdempotentInWindow | ops_transact.go:170-193 | after a commit with a token, every acceptable request with it up to 600 seconds after completion leaves rows and record alone, whatever happened in between, and succeeds exactly if it is the same request |
| Runs.OneWriteTransaction | ops_transact.go:229-292 | a transaction of one write does what the single write does |
| DatabaseEngine.Database.PutItem | ops_item.go:92-176 | the statements of PutItem take the step that `Outcomes.PutOutcome` describes |
| DatabaseEngine.Database.UpdateItem | ops_item.go:243-360 | the statements of UpdateItem, in place and with references, take the step that `Outcomes.UpdateOutcome` and `UpdatesOnRows` describe |
| DatabaseEngine.Database.DeleteItem | ops_item.go:378-458 | the statements of DeleteItem take the step that `Outcomes.DeleteOutcome` describes |
| DatabaseEngine.Database.TransactWriteItems | ops_transact.go:110-320 | either rows and tokens are as before, or all operations took effect at once and the token is stamped; replays and mismatches execute nothing, and old tokens are forgotten; `TransactionOutcomes` and `TokenWindow` describe the step |
| DatabaseEngine.Database.CheckConditions | ops_transact.go:195-226 | one reason per operation, set exactly where its condition is false on the pre-state; the first condition that fails to evaluate ends the request |
| DatabaseEngine.Database.ApplyWrites | ops_transact.go:228-292 | the writes in order leave all operations applied at once, or stop at the first one that is invalid, with its reason, or that never returns |
| DatabaseEngine.ApplyStep | ops_transact.go:233-292 | one write of the loop, told from the pre-state |

## Left out

- HTTP, request decoding, request ids and JSON or base64 encoding of stored items: requests and items start as decoded values. The checks for unknown or legacy parameters go with them.
- SQLite, file opening and schema checks, contexts and closed databases: the store is the map described above, and failures of the engine do not occur.
- CreateTable, DeleteTable, DescribeTable, ListTables, tags and ARNs: the set of tables is fixed during a run; of CreateTable only the pattern for names is used.
- GetItem, ReturnValues, ReturnValuesOnConditionCheckFailure, consumed capacity, Select and COUNT, and all error texts: presentation of results that are modelled. Errors of one kind are one value.
- The reserved-word list is a parameter of the grammar.
- parseUpdateExpr: updates start as parsed action lists; of the parser only the rejection of overlapping paths is kept, as the predicate `Updates.ParsedUpdate`.
- Numbers: strings are one-byte characters, so blanks in front of an exponent are the ASCII ones. As in the code, what follows the digits of an exponent is ignored.
- Values, conditions and rows are values: only an update in progress shares objects. Scalars are never changed in place, so they are values there too; the backing array of a list belongs to that list alone.
- UpdateOrder.SetsCommuteIff: about copies, which the code does not make; `SetPairs.PairOrderIff` is the condition for what it does.
- UpdatesByReference.ReferencesAsCopies: the guards are sufficient, not necessary; the exact conditions are `SetPairs.PairAsCopiesIff` and `CopyAndRemove.RemoveAsCopiesIff` for a copying SET with another action, and `IndependentRuns.IndependentOutcome` for actions that do not touch each other.
- RemovesByReference.RemovesArePruned: the other actions leave a document that can be read. If they leave a container inside itself, a REMOVE may take it out again, as in `SET a.b.c = a, l[2] = a REMOVE l[0], l[1].b`; `RunInvariants.UpdateEndlessIff` covers that, but there is no document from which to prune.
- RemovesByReference.ValuesComeToAnEnd: the condition on DELETE is sufficient, not necessary.
- RemoveOrder.SortedIffUninterrupted: only up to twenty REMOVEs, because the merges of the library's sort may put a higher index of a list in front across another REMOVE; the sort itself is modelled with its merges.
- Store.MayFailFirst: a map is validated in an arbitrary order, so that a document which contains itself and also holds an invalid scalar is refused or never answered.
- Arithmetic.AddNumbersExactly: requires exponents without anything behind their digits, because the rational parser of the library, which reads them a second time, refuses those.
- Grammar.IndexOfText: a list index that does not fit an int counts as 0, as in the code.
- Projection.ProjectedExactly: only for paths of names that do not overlap, because list elements move and lists are appended when merged; `Projection.OnePathExactIff`, `Projection.ExtensionExactIff` and `Projection.ExtensionOfIndexIff` are the exact conditions for one path and for a path with an extension.
- Paging.PagingLossless: the limit is an unbounded integer, so limit + 1 does not overflow, and the client sends at least one request more than there are selected rows.
- Transactions.Accepted: the fingerprint of a request is opaque bytes, equal for equal requests.
- UpdatesOnRows.UpdateStartsFromRow: about scalar and absent attributes, because a container of the row may be stored elsewhere by a SET and changed there; for SETs and ADDs that do not touch each other `UpdatesOnRows.WritesDecided` covers all paths. An attribute with an empty name, which the code accepts in the request key of a table without sort key, is not spoken of.
- ValidRuns.EndlessNeverAnswered: not for sums, sets and size(), whose results may be invalid, so that the update may be refused first.
- Pages.EmitMeans: for paths with an index or an overlap the item is the projection, whose laws are those of `Projection`.
- Runs.IdempotentInWindow: the clock does not run backwards; times are whole seconds.
