# A verified model of apitest

apitest runs manifests of HTTP test cases against a server: it renders a case list, sends
requests, polls until the response matches, compares JSON with control structures, keeps
responses and values in a datastore, and reports. This project models the parts of it that
carry the most logic and proves what they promise.

| File | What it models |
|---|---|
| `json.dfy`, `map_orders.dfy`, `control.dfy` | decoded JSON; the orders of a Go map; `:control` keys, their decoding, the checks on one key, the control of the next array level |
| `matching.dfy` | greedy matching of expected against actual array elements, as a matrix of outcomes |
| `comparison.dfy` | what a match is, without loops or map orders; the object walk over an explicit order |
| `comparison_properties.dfy` | exactness, soundness, reflexivity, strict implies lax, and where these fail |
| `settings.dfy` | what each setting of a control accepts, what several accept together, and what a key with value and control matches |
| `runs.dfy`, `outcomes.dfy` | the outcomes all map orders together can lead to, and the same without any order |
| `settling.dfy`, `clean_keys.dfy` | when there is only one outcome, and which control keys keep it so |
| `choices.dfy`, `comparer.dfy` | the comparer's own loops, proved against `runs.dfy` for any two values |
| `sorting.dfy`, `schedule.dfy` | stable sorting; the groups of the stats report and Graham's bound |
| `report.dfy` | the report tree and its destructive aggregation |
| `datastore.dfy`, `strconv.dfy` | the keyed store, its index notation, decimal integers |
| `testcase.dfy` | the poll loop of one case, its verdict, and the responses it stores |
| `suite.dfy` | parallel clones of a test, includes, the success counter |
| `grouprows.dfy` | `group_rows` and `group_map_rows` |
| `smtp.dfy` | the SMTP message store, part numbering, metadata, and part routing |

What the outside world decides is a parameter: the order in which Go ranges over a map and
the interleaving of goroutines are arbitrary, HTTP answers and clock readings are an
arbitrary sequence, regular expressions, float parsing, printing and marshalling are
functions in `JsonValues.Library`, and the datastore's float parsing is its `floatOf`.

## What the proofs found

- A control object with `is_number: false` and a number range decodes differently depending
  on the order of the Go map, because the range switches `is_number` on
  (`Control.FillOrderIndependentIff`). The checks on a value differ exactly if one of
  `is_bool`, `is_array`, `is_object` is on, `is_string` is not, and the value passes while
  `is_number` stays on (`Control.DecodingsAgreeIff`); `Settling.AmbiguousUnsettled` is an
  instance. The verdict on an object differs exactly if it or an object nested in it has
  such a control and it matches with all controls as they are meant (`Settling.SettledIff`);
  for arrays with such controls in their elements `Outcomes.OutcomesIff` says which verdicts
  are possible.
- A key such as `a:control:control` is read as the control of `a`; the verdict then depends
  on the map order, because a stale actual value is compared. A control key is safe exactly
  if the base read from it is the visible one (`CleanKeys.CleanKeyIffSettled`,
  `Control.CleanKeyIff`).
- Unordered matching is greedy. It misses assignments for structured elements; it is exact
  against all actual arrays iff every expected element may precede every later one or some
  element matches nothing at all (`ComparisonProperties.GreedyExactIff`).
- A control can make a comparison less strict than none: `no_extra` that reaches the
  elements, or `element_no_extra`, without `order_matters` matches arrays that do not match
  without a control (`ComparisonProperties.StricterIff`).
- `timeout_ms` of 0, the default, or below −1 lets a case succeed with collect responses
  outstanding (`TestCase.CollectGuaranteedIff`).
- A push to a key that holds a value other than a list drops that value, although the code
  appends it first (`DatastoreModel.PushKeepsIff`).
- The lowest group is not found once all groups reach 9999 hours
  (`Schedule.LowestGroupIff`, `Schedule.SentinelNeeded`).
- The success counter is compared modulo 2^32, so the verdict can be relied on exactly for
  fewer clones (`Suite.VerdictSoundIff`).
- After n aggregations a failure d levels down is counted binomial(n + d − 1, d) times
  (`Report.RepeatedCount`, `Report.TimesIsBinomial`); after the first one the root's count
  is exact only if nothing below the root failed (`Report.RepeatedExactIff`), but the
  verdict holds.
- Setting a map of values depends on the order of the Go map exactly if two of its keys
  write to the same key of the store and are not both entries of it
  (`DatastoreModel.SetMapOrderFreeIff`).
- A number such as `1e3` is stored as a float; read back and stored again it becomes an
  integer (`DatastoreModel.StoredTwiceIff`).
- With clones in parallel a later poll overwrites the newest response, which may be another
  clone's (`TestCase.OverwrittenResponse`). Each keeps its own last answer, whatever the
  answers are, exactly if none answers again after another one has appended
  (`TestCase.KeptIff`).
- A part path of the SMTP server panics exactly if it leads through existing parts to a
  negative index (`Smtp.PanicIff`).
- The error text of `group_rows` says the column must be >= 0 and < 1000; the code rejects 0
  and runs out of range at 1000. The model follows the code and treats both as errors.

## Model

| member | source | states |
|---|---|---|
| Control.FillOrderIndependent | pkg/lib/compare/comparison_functions.go:42-231 | in every order of the map, decoding fails iff some setting is unknown or ill-typed, and otherwise yields the order-free meaning unless the object is contradictory |
| Control.FillOrderIndependentIff | pkg/lib/compare/comparison_functions.go:45-228 | all orders decode to the same context iff the object does not combine `is_number: false` with a number range |
| Control.FillComparisonContext | pkg/lib/compare/comparison_functions.go:42-231 | the loop, with keys in arbitrary order, fails exactly on invalid objects and returns what some order gives, hence the order-free meaning |
| Control.DecodingsAgreeIff | pkg/lib/compare/comparison_functions.go:42-231 | the checks on an actual value agree for all orders of the control object iff it is not ambiguous or the value fails also with is_number on |
| Control.CleanKeyIff | pkg/lib/compare/comparison_functions.go:40 | the regular expression reads a control key as its visible base iff the base has no newline and `:control` occurs nowhere earlier |
| Control.BaseIs | pkg/lib/compare/comparison_functions.go:40 | any control key is read as the text before its first `:control`, from the start of that line |
| Control.ControlKeyIff | pkg/lib/compare/comparison_functions.go:257 | the control keys are the texts that end in `:control` |
| Control.DownClosedForm | pkg/lib/compare/comparison_functions.go:467-484 | order_matters, no_extra and depth k array levels down in closed form, for every depth |
| Matching.NoExtraMeansSameLength | pkg/lib/compare/comparison_functions.go:450-458 | in both modes no_extra adds exactly that the lengths agree, although ordered mode marks expected positions |
| Matching.OrderedExact | pkg/lib/compare/comparison_functions.go:382-407 | ordered greedy succeeds iff an increasing embedding exists |
| Matching.OrderedNoExtraExact | pkg/lib/compare/comparison_functions.go:382-407 | with no_extra it succeeds iff lengths agree and the diagonal matches |
| Matching.UnorderedSound | pkg/lib/compare/comparison_functions.go:408-458 | unordered success gives an injective assignment, onto under no_extra |
| Matching.UnorderedExact | pkg/lib/compare/comparison_functions.go:408-446 | unordered greedy finds an assignment whenever one exists, if competing elements are nested or disjoint |
| Matching.EmbeddingImpliesUnordered | pkg/lib/compare/comparison_functions.go:379-448 | unordered greedy never takes the slot an ordered embedding still needs |
| Matching.UntakenExists | pkg/lib/compare/comparison_functions.go:412-445 | an untaken actual element is always left to be tried, so a miss records failures |
| Matching.SlotMissed | pkg/lib/compare/comparison_functions.go:408-446 | where one column more than there are rows is matched by these rows only, the greedy run fails |
| Matching.MissHelps | pkg/lib/compare/comparison_functions.go:408-446 | where the second of two expected elements needs the column the first one takes, the pair matches exactly if the first misses it |
| Matching.StepIs | pkg/lib/compare/comparison_functions.go:379-446 | each expected element chooses the first actual one still offered that does not simply differ, which decides match or error, or none |
| Matching.VerdictIs | pkg/lib/compare/comparison_functions.go:360-461 | for any outcomes: an error iff some element, after the choices before it, first meets one; a match iff every element chooses, and the lengths agree under no_extra |
| Comparison.WalkOrderIndependent | pkg/lib/compare/comparison_functions.go:236-350 | with clean keys and controls read as they are meant, every order of the expected object gives the verdict and error-or-not of the conjunction over base keys plus no_extra |
| Comparison.WellFormedIsClear | pkg/lib/compare/comparison_functions.go:42-231 | a value whose controls are all valid and unambiguous and whose keys are clean is clear, so what is proved of its order-free outcome holds of every run |
| Settings.NumberGe | pkg/lib/compare/comparison_functions.go:555-563 | `number_ge` accepts a key iff it is there with a number whose float is at least the bound's; another bound than a number is an error |
| Settings.NumberGt | pkg/lib/compare/comparison_functions.go:564-572 | the same for `number_gt`, above the bound |
| Settings.NumberLe | pkg/lib/compare/comparison_functions.go:573-581 | the same for `number_le`, at most the bound |
| Settings.NumberLt | pkg/lib/compare/comparison_functions.go:582-590 | the same for `number_lt`, below the bound |
| Settings.Match | pkg/lib/compare/comparison_functions.go:598-612 | `match` accepts iff the expression matches the string, or the value as it is printed |
| Settings.NotMatch | pkg/lib/compare/comparison_functions.go:615-629 | `not_match` accepts iff the expression compiles and does not match it |
| Settings.StartsWith | pkg/lib/compare/comparison_functions.go:632-641 | `starts_with` accepts exactly strings that go on from the prefix, which must not be empty |
| Settings.EndsWith | pkg/lib/compare/comparison_functions.go:642-651 | `ends_with` accepts exactly strings that end so |
| Settings.ElementCount | pkg/lib/compare/comparison_functions.go:539-550 | `element_count` accepts exactly arrays of that length |
| Settings.MustExistSetting | pkg/lib/compare/comparison_functions.go:530-532 | `must_exist` accepts iff it is false or the key is there, null or not |
| Settings.MustNotExist | pkg/lib/compare/comparison_functions.go:534-536 | `must_not_exist` accepts iff it is false or the key is missing |
| Settings.NotEqual | pkg/lib/compare/comparison_functions.go:653-695 | `not_equal` accepts: for null a key that is there and not null; for an array what is no array that marshals alike; else anything but the value |
| Settings.IsString | pkg/lib/compare/comparison_functions.go:487-494 | `is_string` accepts iff it is false or the key holds a string |
| Settings.IsNumber | pkg/lib/compare/comparison_functions.go:495-502 | the same for `is_number` |
| Settings.IsBool | pkg/lib/compare/comparison_functions.go:503-510 | the same for `is_bool` |
| Settings.IsArray | pkg/lib/compare/comparison_functions.go:511-518 | the same for `is_array` |
| Settings.IsObject | pkg/lib/compare/comparison_functions.go:519-526 | the same for `is_object` |
| Settings.OnlyIsClear | pkg/lib/compare/comparison_functions.go:42-231 | an expected object with nothing but one setting is clear, so what it accepts holds of every run |
| Settings.UnknownSetting | pkg/lib/compare/comparison_functions.go:226-228 | any other setting is an error |
| Settings.NoControlObject | pkg/lib/compare/comparison_functions.go:269-277 | a control that is no object is an error, with or without a value for its key |
| Settings.SettingsTogether | pkg/lib/compare/comparison_functions.go:486-698 | any control is an error iff one of its settings alone is; otherwise it accepts iff each setting alone does, but of the types asked for only the first counts, a number range asking for a number |
| Settings.GivenTogether | pkg/lib/compare/comparison_functions.go:303-325 | a value with any control matches iff the key is there, the control alone accepts it, and it matches in the context of the control |
| Settings.LayoutContext | pkg/lib/compare/comparison_functions.go:47-76 | that context has order_matters, no_extra and element_no_extra where they are true, and depth 0 if none is set |
| Settings.OrderMattersOnce | pkg/lib/compare/comparison_functions.go:467-484 | order_matters without a depth: the array in order, its elements as without a control |
| Settings.KeysSeparately | pkg/lib/compare/comparison_functions.go:236-350 | an object with clean keys matches iff each key matches with its control alone, plus no_extra; it is an error iff one of them is |
| Settings.PlainObject | pkg/lib/compare/comparison_functions.go:236-350 | without controls: every key given is there with a matching value, and no other under no_extra |
| Settings.Kinds | pkg/lib/compare/comparer.go:27-232 | scalars match exactly themselves, arrays only arrays, objects only objects |
| Outcomes.OutcomesIff | pkg/lib/compare/comparison_functions.go:42-484 | with clean keys at every level, the outcomes of all runs over all orders, in objects, arrays and control objects, are the order-free ones: per base key under each reading of its control, per array over the matrices drawn |
| Settling.Determined | pkg/lib/compare/comparison_functions.go:42-484 | whatever the orders over objects and control objects at every depth, a clear expected value has one outcome, the order-free one |
| Settling.OutcomesSpread | pkg/lib/compare/comparison_functions.go:42-350 | for nested objects with clean keys, and clear values elsewhere, the outcomes are the one that is meant, and false beside true if a control is ambiguous at any level of the objects |
| Settling.SettledIff | pkg/lib/compare/comparison_functions.go:42-350 | for the same values, all runs end alike iff no control is ambiguous at any level of the objects or the value does not match with all controls as meant |
| Settling.AmbiguousUnsettled | pkg/lib/compare/comparison_functions.go:182-228 | a control with `is_number: false`, `number_gt: 0` and `is_bool: true` matches 1 in some runs and not in others |
| CleanKeys.OrdersDecide | pkg/lib/compare/comparison_functions.go:249-333 | with clear values given for the base keys and no ambiguous control, the possible outcomes are the verdicts of the orders of the object, clean keys or not |
| CleanKeys.CleanKeyIffSettled | pkg/lib/compare/comparison_functions.go:257-276 | a control key is clean iff every otherwise clear object with it has one outcome in all orders |
| ComparisonProperties.NeverMalformed | pkg/lib/compare/comparer.go:27-232 | an expected value whose controls are all valid never ends in an error |
| ComparisonProperties.OrderedArrayExact | pkg/lib/compare/comparison_functions.go:379-407 | order_matters: Equal iff the expected elements embed in order into the actual array |
| ComparisonProperties.OrderedNoExtraArrayExact | pkg/lib/compare/comparison_functions.go:450-458 | order_matters and no_extra: Equal iff same length and equal position by position |
| ComparisonProperties.UnorderedArraySound | pkg/lib/compare/comparison_functions.go:408-458 | no order: Equal gives an injective assignment of matching elements, a bijection under no_extra |
| ComparisonProperties.UnorderedArrayExact | pkg/lib/compare/comparison_functions.go:408-458 | no order: if each expected element may precede the later ones, Equal iff an assignment exists, of the whole array under no_extra |
| ComparisonProperties.GreedyExactIff | pkg/lib/compare/comparison_functions.go:408-458 | no order: matching is exact against all actual arrays iff each expected element may precede the later ones, or some element matches nothing |
| ComparisonProperties.ScalarArrayExact | pkg/lib/compare/comparer.go:121-218 | expected scalars: Equal iff multiset inclusion, multiset equality under no_extra |
| ComparisonProperties.Reflexive | pkg/lib/compare/comparer.go:27-232 | a value without control keys equals itself in every context |
| ComparisonProperties.StrictImpliesLenient | pkg/lib/compare/comparison_functions.go:360-484 | Equal with order_matters, or without no_extra on the elements, implies Equal in every context without order_matters, no_extra and element_no_extra |
| ComparisonProperties.StrictImpliesLax | pkg/lib/compare/comparison_functions.go:360-484 | Equal with order_matters at any depth, with or without no_extra and element_no_extra, implies Equal without controls |
| ComparisonProperties.StricterIff | pkg/lib/compare/comparison_functions.go:360-484 | all that matches under a context matches without one iff it has order_matters or puts no no_extra on the elements |
| Comparer.JsonEqual | pkg/lib/compare/comparer.go:27-232 | for any two values the result is one the orders can lead to, and without error it is equal iff no failure was recorded; for a clear expected value it is the order-free outcome |
| Comparer.ObjectComparison | pkg/lib/compare/comparison_functions.go:236-350 | the object loop, visiting keys in arbitrary order and deleting control keys, ends as some run does, with failures recorded iff unequal |
| Comparer.ArrayComparison | pkg/lib/compare/comparison_functions.go:360-461 | the array loop returns the greedy verdict of its mode over outcomes its comparisons may have, with failures recorded iff unequal |
| Sorting.SortUnique | pkg/lib/report/parsing_functions.go:121-123 | being sorted and keeping equal keys in order determines a stable sort |
| Schedule.GetLowestRuntimeGroup | pkg/lib/report/parsing_functions.go:73-85 | the scan returns the group the prefix definition gives |
| Schedule.LowestGroupIff | pkg/lib/report/parsing_functions.go:73-85 | the scan finds a lowest group iff some group is below 9999h or the first is lowest |
| Schedule.LowestGroupIs | pkg/lib/report/parsing_functions.go:73-85 | it is the first of the lowest groups if any is below 9999h, otherwise group 0 |
| Schedule.ParseJsonStatsResult | pkg/lib/report/parsing_functions.go:113-139 | sub tests end up sorted in place, longest first, the runtimes are the groups' sums, the manifests the plan re-sorted by start: earlier starts first, equal ones by descending time |
| Schedule.Conservation | pkg/lib/report/parsing_functions.go:125-135 | the loads of all groups add up to the total, for any weight of the entries |
| Schedule.Spread | pkg/lib/report/parsing_functions.go:125-135 | any two groups differ by at most the longest execution time |
| Schedule.ReportGroups | pkg/lib/report/parsing_functions.go:113-139 | after the final sort: every sub test listed once, by start and then descending time, in a valid group, runtimes adding up to the total time, spread at most the longest |
| Schedule.LongJobFits | pkg/lib/report/parsing_functions.go:121-135 | a shortest last job longer than a third of an achievable bound fits into the lowest group |
| Schedule.GrahamBound | pkg/lib/report/parsing_functions.go:73-135 | 3m times any group's runtime is at most 4m − 1 times the largest runtime of any assignment to m groups |
| Schedule.GrahamBoundTight | pkg/lib/report/parsing_functions.go:121-135 | five sub tests in two groups meet the bound with equality |
| Schedule.SentinelNeeded | pkg/lib/report/parsing_functions.go:77 | four sub tests of 9999h break the bound |
| Report.FirstAggregationExact | pkg/lib/report/report.go:131-143 | the first aggregation gives every node the sums of the local failures and tests over its subtree |
| Report.RepeatedCount | pkg/lib/report/report.go:131-143 | after n aggregations the root counts every local failure, and every test, as often as the depth of its element makes it |
| Report.TimesIsBinomial | pkg/lib/report/report.go:131-143 | that multiplicity, d levels down, is n(n + 1)...(n + d − 1) over d factorial |
| Report.RepeatedExactIff | pkg/lib/report/report.go:131-143 | after n ≥ 1 aggregations the root's count of failures, and likewise of tests, is exact iff n is 1 or no element below the root counted any |
| Report.VerdictSurvives | pkg/lib/report/report.go:45-52 | after any positive number of aggregations the root has failures iff some node recorded one |
| Report.DidFailIff | pkg/lib/report/report.go:38-52 | over every run of NewChild, Leave and aggregations, the report failed iff some element was left with a failure |
| Report.CountsOfRun | pkg/lib/report/report.go:88-143 | over every run without results taken, the root's counts after an aggregation are the leaves left and the elements left with a failure |
| Report.ReportElement.NewChild | pkg/lib/report/report.go:88-107 | a fresh empty element is appended and nothing else in the subtree changes |
| Report.ReportElement.Leave | pkg/lib/report/report.go:116-128 | counts a test on a leaf and a failure on a false result, and changes nothing else |
| Report.ReportElement.GetTestResult | pkg/lib/report/report.go:131-143 | the in-place loop turns the tree of elements into the aggregate of its value |
| Report.ReportElement.DidFail | pkg/lib/report/report.go:45-52 | true iff some element of the tree had recorded a failure |
| Strconv.ItoaRoundTrip | pkg/lib/datastore/datastore.go:231-249 | reading back a written 64-bit integer gives that integer |
| Strconv.ParseIff | pkg/lib/datastore/datastore.go:231-249 | the texts that read as v are its digits after any zeros and a sign that fits, within 64 bits |
| DatastoreModel.IndexNotation | pkg/lib/datastore/datastore.go:141-185 | which index strings push to a key, set an entry of it, or replace it |
| DatastoreModel.Datastore.Set | pkg/lib/datastore/datastore.go:114-190 | integer texts and integral floats are stored as integers, other numbers as floats where they parse, the rest unchanged; the branches on `[]`, `[sub]` and plain keys put exactly that |
| DatastoreModel.Datastore.Get | pkg/lib/datastore/datastore.go:192-269 | the branches of the query read what the specification reads |
| DatastoreModel.Datastore.SetMap | pkg/lib/datastore/datastore.go:104-112 | the entries are set one by one in some order |
| DatastoreModel.SetMapOrderFreeIff | pkg/lib/datastore/datastore.go:104-112 | for a set of keys the order never matters, over all values and stores, iff any two that write to the same key both set entries of it |
| DatastoreModel.ReplayLocal | pkg/lib/datastore/datastore.go:114-190 | after any history the value of a key depends only on the writes to that key |
| DatastoreModel.ListReads | pkg/lib/datastore/datastore.go:204-245 | k[i] and k[-i] are the i-th values pushed from the front and back since the last whole write, out of range is the empty text without error |
| DatastoreModel.PushKeepsIff | pkg/lib/datastore/datastore.go:141-160 | a push keeps what the key held iff that was nothing, null, or a list |
| DatastoreModel.MapReads | pkg/lib/datastore/datastore.go:204-226 | m[x] is the last value set for x since m was last replaced |
| DatastoreModel.WholeReads | pkg/lib/datastore/datastore.go:261-265 | a plain key reads the value last written to it as a whole, if nothing touched it since |
| DatastoreModel.UnwrittenReads | pkg/lib/datastore/datastore.go:261-268 | a plain key never written reads as the empty text |
| DatastoreModel.WholeListReads | pkg/lib/datastore/datastore.go:141-160 | a list key reads as the list of the values pushed |
| DatastoreModel.PushedInOrder | pkg/lib/datastore/datastore.go:141-160 | pushed values stand in the order of their pushes after what was there |
| DatastoreModel.WholeMapReads | pkg/lib/datastore/datastore.go:163-178 | a map key reads as the map of the values last set |
| DatastoreModel.EntryReads | pkg/lib/datastore/datastore.go:216-225 | m[x] reads the value last set for x if only other sub keys were set since |
| DatastoreModel.AllReads | pkg/lib/datastore/datastore.go:199-202 | `-` reads all keys and values |
| DatastoreModel.OtherReads | pkg/lib/datastore/datastore.go:204-245 | a sub key of a missing key is an error, of a list it must be an integer, and where there is no such entry it reads as the empty text |
| DatastoreModel.ResponseReads | pkg/lib/datastore/datastore.go:249-260 | an integer index reads the response list from the front or back, and is an error out of range |
| TestCase.Run | api_testcase.go:371-488 | the poll loop ends when and as the turn-by-turn specification does, and the response list is the old one plus at most the last answer |
| TestCase.CheckCollectResponse | api_testcase.go:187-254 | the entries left are those that stay under this response, in order, or an error |
| TestCase.RemainingEntries | api_testcase.go:214-247 | while polling goes on, what remains are, in order, exactly the entries no poll has struck off |
| TestCase.RemainingShrinks | api_testcase.go:214-247 | each poll, the last one included, leaves an order-preserving sublist |
| TestCase.SuccessMatched | api_testcase.go:397-448 | a success matched the expected response last and met no break response at any poll that reached the check |
| TestCase.SuccessCollected | api_testcase.go:423-443 | with a timeout above 0 or of −1 and no reversal, a success matched every collect response in some poll |
| TestCase.CollectGuaranteedIff | api_testcase.go:430-448 | that guarantee holds over all runs iff the timeout is above 0 or −1 |
| TestCase.PassesIff | api_testcase.go:93-111 | what the polls must be for a case to pass, and for a reversed one: then exactly the other way round, errors included |
| TestCase.GoesOnIff | api_testcase.go:391-448 | after a poll the loop goes on iff the poll is no error, something is left to match, and the timeout is −1 or not exceeded; it ends with an error iff the poll is one |
| TestCase.OneResponsePerRun | pkg/lib/datastore/datastore.go:89-102 | under every interleaving each run of a case that stores adds one response, older ones stay, and no update meets an empty list |
| TestCase.UpdateHitsNewest | pkg/lib/datastore/datastore.go:89-99 | a later answer overwrites the response of whichever run appended last |
| TestCase.KeptIff | pkg/lib/datastore/datastore.go:89-102 | every run's response is its own last answer, for all answers, iff no run answers again after another one has appended |
| TestCase.OverwrittenResponse | pkg/lib/datastore/datastore.go:89-102 | of two runs the second loses its response when the first answers again |
| TestCase.AloneAsRun | api_testcase.go:311-316 | a run alone leaves what the poll loop's specification leaves: one response more, if any was answered |
| Suite.CloneStepKeeps | api_testsuite.go:379-418 | a step consumes the head of the remaining cases and fails only on a failed case or an unusable include |
| Suite.ParallelVerdict | api_testsuite.go:315-330 | under every interleaving the joined test passed iff every clone ran its whole list, each case successful or marked to continue |
| Suite.TestResult | api_testsuite.go:288-331 | a test passes iff its file can be loaded and every clone ran its whole list |
| Suite.VerdictSoundIff | api_testsuite.go:315-330 | for n clones the verdict means that in all runs iff n is below 2^32 |
| Suite.LoaderOfClone | api_testsuite.go:272-286 | at every include depth a case sees the number of its top-level clone as ParallelRunIdx, or the root loader's if that is not negative |
| Suite.CaseIndex | api_testsuite.go:400-409 | a case of a clone's own list is logged with index clone · length + position |
| Suite.AllEnd | api_testsuite.go:379-418 | clones that each get as many moves as their lists hold steps are joined, however the moves interleave |
| Suite.IndicesDistinct | api_testsuite.go:400-409 | clones with equally long lists give their cases different indices below runs times length |
| Suite.RunSuite | api_testsuite.go:212-230 | the suite succeeds iff all its tests do, and stops at the first that does not |
| GroupRows.GroupRows | pkg/lib/template/template_loader.go:338-370 | an error iff some row has no integer of 1..999 in the column, otherwise non-empty groups, increasing in the column, with equal rows in order |
| GroupRows.GroupRowsSorts | pkg/lib/template/template_loader.go:338-370 | the groups flatten to the rows stably sorted by the column |
| GroupRows.GroupsIncrease | pkg/lib/template/template_loader.go:362-370 | groups are non-empty, constant in the column, with strictly increasing keys |
| GroupRows.GroupMapRows | pkg/lib/template/template_loader.go:317-337 | one group per text that occurs, holding its rows in order |
| GroupRows.TextPositions | pkg/lib/template/template_loader.go:320-335 | the rows of a text are those at the positions that hold it, in order |
| Smtp.NewReceivedContent | internal/smtp/message.go:147-213 | the part tree mirrors the raw one with part i numbered i at every level, and fails iff something is unreadable |
| Smtp.RouteMatchesMetadata | internal/smtp/http.go:139-202 | a part path is answered with the part the metadata lists there, and not found iff it lists none |
| Smtp.PanicIff | internal/smtp/http.go:139-202 | routing panics iff the path leads through existing parts to a negative index on a multipart content |
| Smtp.RouteIff | internal/smtp/http.go:139-202 | each answer but "not found" is given exactly to the paths that lead through existing parts and then ask for it: the body, the list of parts, a part, a malformed or a negative index |
| Smtp.Endpoints | internal/smtp/http.go:139-165 | below every part path `body` answers with the body there and `multipart` with its parts |
| Smtp.ListedFields | internal/smtp/http.go:376-467 | the metadata lists of a part its number, body size and whether it has parts |
| Smtp.PartNumber | internal/smtp/message.go:185-210 | the part at a path carries the last index of the path |
| Smtp.Server.AppendMessage | internal/smtp/server.go:71-77 | the message is numbered by its position and appended |
| Smtp.Server.Data | internal/smtp/server.go:128-153 | a readable message is appended with its position as number, an unreadable one changes nothing |
| Smtp.Server.ReceivedMessage | internal/smtp/server.go:93-104 | the message that carries the number asked for, none iff no message carries it, and a panic iff the number is negative |
| Smtp.Receive | internal/smtp/server.go:71-153 | over any sequence of deliveries each readable message is appended, each snapshot is a prefix of every later one and message i stays number i |

## Left out

- Settling.SettledIff: arrays whose elements hold ambiguous controls are excluded; `Outcomes.OutcomesIff` gives their possible verdicts as those of the matrices that may be drawn, and no shorter condition for there being one is given. Since unordered matching is greedy, an element that misses a match can also make the array match (`Matching.MissHelps`).
- Outcomes.OutcomesIff: clean keys only; for keys that are not clean it is shown which keys can break an otherwise clear object, not which combinations of them happen to agree.
- float64 and int64 values in the comparer: values are taken as decoded with UseNumber, so numbers compare by text; number ranges compare reals, without rounding.
- Failure messages and key paths: only the number of failures is kept.
- Schedule.GrahamBound: durations are unbounded integers, so the wrap-around of a 64-bit duration is not modelled.
- TestCase.Run: loading, rendering and sending are inputs; a per-entry response format, which carries over between entries, is not modelled, nor waiting, logging and `store_response_gjson`.
- TestCase.OneResponsePerRun: the order in which the runs' answers reach the store is an input.
- Suite.ParallelVerdict: whether a literal case succeeds is an input of each step; that a scheduler gives every clone its turns is not claimed (with them, `Suite.AllEnd`).
- DatastoreModel.Datastore.Set: floats are reals, so an integral float beyond 64 bits, whose conversion Go leaves open, becomes the integer it is; the sharing of one Go map or slice between keys is not modelled.
- Report.ReportElement.NewChild: the footprint of the elements above is not re-established when a child is added deep in the tree; whole runs are treated on tree values.
- Report times, logs, names, `Flat` and the XML and JSON formats.
- Header searches, bodies, base64, quoted-printable and MIME splitting in the SMTP server; its panics on negative indices appear as an answer, not as a crash.
- HTTP, cookies, OAuth, templates, file access, command line, configuration and the proxy store.
