# Verification of the stream aggregator

A Dafny model of the parts of the aggregator service where being right is hard, with proofs of what
they are for:

* **The stream index** (`src/uthash.h` as used by `src/provider.c`). Elements sit in two doubly linked
  lists at once, the insertion-order list and a bucket chain; the bucket array doubles, deletion relinks
  in place, and the insertion-order list is mergesorted in place. Elements are class objects with
  mutable links (`StreamRecord`, `Chains`, `Buckets`, `Rehash`, `UtTable`, `ListSort`, `UtHash`). Every
  method is tied to two ghost views, the insertion order and the chains. The hash function is a
  parameter throughout. `IndexSpec` says what any run of operations means, and
  `Provider.Provider.Run` refines it, ending early only when a table has to grow past 2^31 buckets.
* **Streams, fetching and listing** (`src/client.c`, `src/provider.c`, `src/types.h`,
  `include/aggregator/aggregator-common.h`). `UpdateMachine` has every interleaving of concurrent
  updates as small steps, `OneCall` says what a single call does, `CounterOrder` decides when a counter
  survives them; `Fetch`, `StreamId` and `ListWire` are the client calls, the ids and the list reply on
  the wire.
* **The random generator and the parameter walk of the test framework** (`tests/munit/munit.c`).
  `Lcg` proves the full period, `Prng` inverts the output permutation, `Generator` has the draws,
  `Bias` decides when bounded draws are uniform, `SharedPrng` has the compare-and-swap loops under any
  number of threads, and `ParamSpec` and `ParamRunner` have the walk over parameter combinations.

`dafny verify dfyconfig.toml` checks everything. `Bits` and `Bytes` hold word arithmetic; `Bits.And`,
`Bits.Xor` and `Bits.Shr` are the C operators on naturals. Nothing was executed.

Places where the code does less than it or its comments suggest, each with its exact condition:

* The check that keeps a counter monotone reads the buffer before taking the lock (src/client.c:101-104).
  Samples stay ordered when calls do not overlap. For any set of updates that threads may make
  concurrently, they stay ordered in every interleaving exactly when all updates of different threads
  that the last sample does not rule out have the same value (`CounterOrder.CounterOrderIff`).
* `munit_rand_state_at_most` takes its rejection threshold from `max` before incrementing it
  (tests/munit/munit.c:971-977), so the rejection does not remove the bias it is there for. Results are
  uniform over a period exactly when `max` is 2^32 - 1 or `max + 1` divides the number of accepted
  words, 2^32 - (2^32 mod max) (`Bias.UniformIff`).
* The parameter setup skips a parameter whose value list is absent, but its second loop stops at the
  first such list (tests/munit/munit.c:1631), so wild parameters listed after it are never set. Every
  combination is run exactly when no wild parameter follows an absent list
  (`ParamRunner.EveryCombinationIff`).
* `aggregator_provider_stream_create` ignores the error of `add_stream` (src/provider.c:153): with an id
  that is taken the call succeeds, and the stream it returns is not in the index
  (`Provider.Provider.CreateStream`).

## Model

| member | source | states |
|---|---|---|
| Chains.PushFront | src/uthash.h:784-791 | a node put on the front of a chain: that chain grows by it, links both ways, and every other chain and its nodes are untouched |
| Chains.DelInBkt | src/uthash.h:802-816 | a node taken out of any place of its chain: exactly it disappears, the neighbours are joined both ways, the head moves if needed, the other chains are untouched |
| Chains.BktDouble | src/uthash.h:441-444 | doubling the table sends a hash value to the same bucket or to the one 2^k further on, as bit k says |
| Chains.BktIsRemainder | src/uthash.h:441-444 | the bucket of a hash value is its remainder modulo the number of buckets |
| Chains.IdealIsCeil | src/uthash.h:831-844 | shift plus masked remainder test is the ceiling of items over buckets, for every item count and every power of two |
| Chains.CeilIs | src/uthash.h:831-844 | what is called the ceiling is (n + d - 1) / d |
| Chains.MultiplierIs | src/uthash.h:869-874 | the expansion multiplier a redistribution leaves, in numbers: 0 up to the ideal length, count - 1 when that is 1, otherwise 1 for one member more and (count - 1) / ideal + 1 beyond |
| Chains.MultiplierBounds | src/uthash.h:869-874 | so every count is at most the multiplier plus one times the ideal length |
| Chains.OverflowIs | src/uthash.h:868-869 | each chain adds its members beyond the ideal length to the non-ideal items |
| Chains.FirstWithFinds | src/uthash.h:758-775 | the first chain member with a key is one that has it, and there is none exactly when no member has it |
| Chains.TotalIsCard | src/uthash.h:534-556 | the chain lengths add up to the number of elements they hold |
| Buckets.RehashNode | src/uthash.h:865-885 | one node arriving in the new array keeps chains, counts, multipliers and the count of non-ideal items those of the chains so far |
| Buckets.UndoPush | src/uthash.h:780-799 | deleting what was just pushed restores the chains |
| Buckets.TotalNodes | src/uthash.h:534-561 | with every element in its bucket and no other there, the chain lengths add up to the element count |
| Rehash.RehashAll | src/uthash.h:863-887 | the double loop over old chains leaves exactly the redistribution of every chain, although each node's own link is overwritten while the chain is walked |
| Rehash.DoubleBuckets | src/uthash.h:846-887 | a doubled array: ideal length is the ceiling for the doubled count, non-ideal items are the sum of what chains have beyond it, every bucket has the count of its chain and exactly the multiplier that count leads to, every node is where its hash says |
| Rehash.RehashSplits | src/uthash.h:863-886 | nothing is lost or duplicated: new chains i and i + 2^k together are old chain i, and hash bit k tells which of them a member is in |
| UtTable.UtTable.constructor | src/uthash.h:223-253 | a new table is an empty valid table of 32 buckets with a clear filter |
| UtTable.UtTable.InstallBuckets | src/uthash.h:887-893 | the doubled array becomes current, an ineffective doubling is counted and an effective one resets the count, two in a row switch expansion off |
| UtTable.UtTable.ExpandBuckets | src/uthash.h:846-896 | either memory is missing and nothing at all changes, or the table is the doubled one with the statistics and multipliers its chains demand |
| UtTable.UtTable.LinkBkt | src/uthash.h:780-791 | the element is first in the chain of its bucket, whose count is one more |
| UtTable.UtTable.UnlinkBkt | src/uthash.h:802-816 | removal from a bucket, also of a node that is detached but still counted |
| UtTable.UtTable.AddToBkt | src/uthash.h:780-799 | expansion is tried exactly when the count reaches ten times the multiplier plus one and expansion is on; a failed expansion leaves chains, buckets and statistics as before the add |
| UtTable.UtTable.RollbackBkt | src/uthash.h:149-157 | the counting of the detached node that lets the ordinary deletion run |
| UtTable.UtTable.BloomAdd | src/uthash.h:209-210 | no stored element's filter bit is clear after an add, and exactly the new element's bit was set |
| Bloom.WithBitSets | src/uthash.h:206-207 | setting a filter bit sets it and changes no other |
| UtTable.UtTable.GateIs | src/uthash.h:206-219 | a lookup passes the gate without a filter, and otherwise exactly when the bit of its hash value's remainder is set |
| UtTable.UtTable.FindInBkt | src/uthash.h:758-775 | the walk returns the first member of the chain with the key; comparing hash values first skips none |
| UtTable.UtTable.CheckBuckets | src/uthash.h:534-561 | the bucket half of the integrity check passes on every valid table |
| UtHash.Index.DeleteHH | src/uthash.h:461-488 | the element is gone from both lists with head, tail and counts right; deleting the last element drops the table |
| UtHash.Index.Delete | src/uthash.h:458-488 | deletion of any stored element closes the gap in the insertion order and keeps the index valid |
| UtHash.Index.UndoAdd | src/uthash.h:324-344 | the out-of-memory path takes an appended element out again and restores chains and buckets exactly |
| UtHash.Index.AddFirst | src/uthash.h:407-426 | an add into an empty index yields the one-element index, or no table at all when memory is missing |
| UtHash.Index.Append | src/uthash.h:289-294 | the new element is last in the insertion order and the tail |
| UtHash.Index.AddToTable | src/uthash.h:324-344 | linking, expansion, filter and roll-back after the append |
| UtHash.Index.AddNext | src/uthash.h:407-426 | an add either extends the index by one element or, when expansion cannot be allocated, restores every link, bucket, count, statistic and filter byte |
| UtHash.Index.Add | src/uthash.h:428-439 | a valid index stays valid; an add fails exactly when memory is missing for a new table or for one that has to grow, and then every link, bucket, statistic and filter byte is as before; otherwise the chains and statistics are those of the push, or of its doubling; once expansion is off it stays off and the bucket count never changes again |
| UtHash.Index.GrowsIff | src/uthash.h:790-791 | an add tries to expand exactly when expansion is on and the chain of its bucket reaches ten times one more than the multiplier |
| UtHash.Index.LookupFinds | src/uthash.h:758-775 | lookup by hash and chain finds a key exactly when some element of the index has it, whatever the hash function |
| UtHash.Index.Find | src/uthash.h:164-182 | with or without the Bloom filter the answer is the same: that of the ungated lookup |
| UtHash.Index.Fsck | src/uthash.h:527-574 | every check of the debug build's integrity test passes on every valid index |
| UtHash.Index.Sort | src/uthash.h:903-985 | the in-place sort leaves the list equal to the functional mergesort of it, so in order, a permutation and stable whenever the comparison is total and transitive, with links, head and tail consistent, and no lookup changes |
| ListSort.MergeStep | src/uthash.h:935-969 | one step of a merge moves the smaller front node, the left one on ties, to the output |
| ListSort.MergeRuns | src/uthash.h:921-970 | two neighbouring runs become their merge, relinked in place |
| ListSort.SortPass | src/uthash.h:913-976 | one pass is the functional pass over all run pairs; at most one merge is counted exactly when one covers the list |
| ListSort.SortList | src/uthash.h:903-985 | the sort terminates, also with 32-bit run lengths, and is the functional mergesort |
| MergeSort.MergeSortCorrect | src/uthash.h:898-985 | under any total preorder the result is sorted, a permutation, and stable |
| ListSort.SortIsStable | src/uthash.h:898-985 | for the lists of the index under a C comparison function: no later element compares below an earlier one, and an element that compares not above a later one stays before it |
| ListSort.LeqIs | src/uthash.h:947-951 | the order of the sort is a comparison result of at most zero |
| MergeSort.StableOrder | src/uthash.h:951-958 | in a stable sort an element not above a later one stands before it |
| MergeSort.MergeStable | src/uthash.h:951-958 | preferring the left run on ties keeps equivalent elements in order |
| IndexSpec.RunMeaning | src/provider.c:313-362 | over every run the ids are exactly the live ones and stand in the order of the creates they stem from, each once |
| IndexSpec.AliveIff | src/provider.c:323-362 | an id is live exactly when some create of it is followed by no remove of it and no remove-all |
| IndexSpec.BirthIs | src/provider.c:323-336 | the create a live id stems from: the id was not live before it and is not removed after it |
| IndexSpec.Answers | src/provider.c:313-362 | the answer to every operation after any run: a create of a live id is refused and of any other done, a remove the opposite, a find tells them apart, a remove-all is done |
| IndexSpec.AnswersFrom | src/provider.c:313-362 | the same for runs from any state |
| Provider.Provider.FindStream | src/provider.c:313-321 | a stream is returned exactly when one with that id is stored |
| Provider.Provider.AddStream | src/provider.c:323-336 | an id that is taken is refused and nothing at all changes; otherwise the stream is last, unless there is no memory for a new table or for one that has to grow, and then the index is as before |
| Provider.Provider.RemoveStream | src/provider.c:338-351 | exactly the stream with the id is unlinked and freed, or an error and no change in the stored streams |
| Provider.Provider.Free | src/provider.c:346-347 | unlinking and freeing a stored stream closes its gap in the order, and freed and stored streams stay apart |
| Provider.Provider.RemoveAllStreams | src/provider.c:353-362 | terminates, visits every stream once in order, frees each, ends empty with count 0 |
| Provider.Provider.NextOf | src/uthash.h:1073-1075 | the iteration asks no freed element for its successor |
| Provider.Provider.CreateStream | src/provider.c:133-161 | null names are refused; otherwise the stream carries the id of its strings and is stored exactly when the id was free; the process ends exactly when an allocation of the index fails |
| Provider.Provider.FoundInAnyTagOrder | src/client.c:206-214 | a stored stream is found under the id computed from its tags in any order |
| Provider.Provider.FillIds | src/provider.c:286-296 | the id loop writes exactly one slot per stream, in insertion order |
| Provider.Provider.Run | src/provider.c:313-362 | any run of creates, removes, finds and remove-alls on the heap structure, from any valid state, gives the ids and answers of the specification, across any number of doublings; it stops early only at a create of a new id whose table has 2^31 buckets and has to grow; over a table's life at most two ineffective expansions are counted, and a table whose expansion is off at the start of a run and that lives through it ends with expansion off and as many buckets |
| StreamId.Hash | include/aggregator/aggregator-common.h:70-81 | the loop computes the hash of the whole string |
| StreamId.Djb2IsPoly | include/aggregator/aggregator-common.h:70-81 | the hash is the polynomial in 33 of the characters modulo 2^32, for signed and unsigned `char` |
| StreamId.HashIs | include/aggregator/aggregator-common.h:71-80 | the hash in plain arithmetic, with its start value, its factor and the value of a signed character |
| StreamId.IdFromStrings | include/aggregator/aggregator-common.h:84-100 | the loop computes the exclusive or over namespace, name and tags |
| StreamId.IdIs | include/aggregator/aggregator-common.h:88-97 | the id is the exclusive or of the two hashes, and of the hash of each further tag |
| StreamId.IdDependsOnParity | include/aggregator/aggregator-common.h:84-100 | the id depends only on which strings occur an odd number of times among namespace, name and tags |
| StreamId.TagOrderIrrelevant | include/aggregator/aggregator-common.h:92-97 | any ordering of the tags gives the same id |
| Bytes.LeRoundTrip | src/types.h:37-41 | a number read back from its bytes is the number |
| Bytes.Le4 | src/types.h:37-49 | the four bytes of a word, lowest first |
| ListWire.IdsRoundTrip | src/types.h:48-49 | an id array read back from its bytes is the array |
| ListWire.EncodingIs | src/types.h:32-49 | the layout of a reply: four bytes of code, eight of count, four for each id |
| ListWire.ProcListOut | src/types.h:32-56 | encoding writes code, count and ids; decoding any encoding gives back exactly that code, count and ids, whatever `calloc(0)` returns; freeing drops the array |
| ListWire.ServeList | src/provider.c:264-306 | the reply encodes success and the first min(num_streams, max_ids) ids in insertion order |
| ListWire.ListStreams | src/client.c:323-355 | the caller's count and buffer receive those ids and the rest of the buffer is untouched |
| ListWire.ListedAreLive | src/client.c:347-350 | the listed ids are distinct and findable; with room for all they are the whole key set |
| UpdateMachine.Step | src/client.c:98-155 | one atomic step of a thread inside an update call; the rows below quantify over all sequences of such steps |
| OneCall.Undisturbed | src/client.c:98-155 | an undisturbed call of either function on any type: when acceptable it records exactly one sample with its value, its thread and the time it read, and otherwise changes nothing; a timer accepts values from zero on, a counter values not below its last sample, a gauge everything, and only a gauge is moved by an amount |
| UpdateMachine.ExecInv | src/client.c:98-155 | mutual exclusion, and that counted slots are complete and in lock order, hold in every interleaving |
| UpdateMachine.SlotsNeverChange | src/client.c:114-121 | slots below the index never change again |
| UpdateMachine.CommittedOnce | src/client.c:114-125 | the index counts the committed calls; each has exactly one sample, the one of its value and thread, in lock order |
| UpdateMachine.TimerNonNegative | src/client.c:105-107 | no timer sample is negative, in any interleaving |
| UpdateMachine.GaugeSum | src/client.c:140-149 | a gauge moved only by fixed amounts stands at 1 plus all diffs but the first committed one, after every commit of every interleaving |
| UpdateMachine.CounterNonDecreasing | src/client.c:101-104 | counter samples never decrease when calls do not overlap |
| UpdateMachine.OverlappingCounters | src/client.c:101-121 | from every idle state and for all admissible values a and b the schedule in which both calls check before either commits appends a and then b |
| CounterOrder.ExecInOrder | src/client.c:101-121 | updates that agree keep a counter's samples in order in every interleaving, and every counted sample is one of them |
| CounterOrder.OutOfOrder | src/client.c:101-121 | of two different admissible values of different threads some interleaving counts the larger first |
| CounterOrder.CounterOrderIff | src/client.c:98-126 | concurrent updates of an idle counter keep its samples in order in every interleaving exactly when all updates of different threads that the last sample does not rule out have the same value |
| CounterOrder.TwoUpdatesIff | src/client.c:98-126 | for two threads with one admissible value each: exactly when the values are equal |
| Fetch.Update | src/client.c:98-126 | a counter refuses values below its last sample and a timer negative ones; refused values change nothing; an accepted one is appended as one sample and no other slot changes |
| Fetch.UpdateByAmount | src/client.c:128-155 | any type but a gauge is refused without change; the appended sample has the previous value plus the amount, or 1 for the first, and no other slot changes |
| Fetch.CopyOut | src/provider.c:209-216 | delivered slot i is buffer slot index - actual + i, for the last min(index, count) samples, and nothing behind them is written |
| Fetch.FetchSamples | src/client.c:216-267 | for every signed requested count the buffer has that size, or 160000000 if the count is negative or not below it, and delivered slot i is buffer slot index - actual + i; an unknown id is an error |
| Fetch.FetchDeliversLog | src/provider.c:209-216 | taken at any point of any interleaving, delivered sample i is that many places from the start of the last committed ones |
| Lcg.OrbitIs | tests/munit/munit.c:882-888 | the recurrence with the constants of the source |
| Lcg.OrbitIsIter | tests/munit/munit.c:885-888 | reducing at every step equals reducing once |
| Lcg.PowerSteps | tests/munit/munit.c:885-888 | 2^k steps add 2^k times an odd number, given in closed form |
| Lcg.NoShorterCycle | tests/munit/munit.c:885-888 | no state comes back in fewer than 2^32 steps |
| Lcg.FullPeriod | tests/munit/munit.c:885-888 | from every state every 32-bit state occurs within 2^32 steps, at one position only, and then the start again |
| Prng.OutputIs | tests/munit/munit.c:890-895 | the output in plain arithmetic: the state folded by its top four bits plus four, times the constant, folded by 22 |
| Prng.DrawIs | tests/munit/munit.c:919-924 | the same for the n-th draw from any state |
| Prng.UnXorShiftLeft | tests/munit/munit.c:890-895 | x ^ (x >> s) is undone from the high bits down, for every s > 0 |
| Prng.UnXorShiftRight | tests/munit/munit.c:890-895 | every value is x ^ (x >> s) of that x |
| Prng.MultiplyBack | tests/munit/munit.c:892 | the multiplier has an inverse modulo 2^32 |
| Prng.FoldKeepsShift | tests/munit/munit.c:892 | the state-dependent shift can be read off its own result |
| Prng.OutputBijection | tests/munit/munit.c:890-895 | the output function is a bijection on words, with an explicit two-sided inverse |
| Prng.EveryWordDrawn | tests/munit/munit.c:919-924 | every 32-bit value is among the draws of a period, from any state |
| Prng.EveryWordOnce | tests/munit/munit.c:919-924 | 2^32 consecutive draws produce every 32-bit value exactly once, from any state |
| Generator.Generator.NextWord | tests/munit/munit.c:919-924 | returns the output of the state it replaces by its successor, both in plain arithmetic |
| Generator.ThresholdIs | tests/munit/munit.c:967-971 | the threshold is 2^32 mod max |
| Generator.SaltedIs | tests/munit/munit.c:980 | a salted draw is the draw, exclusive-or the salt |
| Generator.ByteAtIs | tests/munit/munit.c:944-952 | byte j of a buffer is byte j mod 4 of draw j / 4 |
| Generator.WordsForIs | tests/munit/munit.c:939-953 | a buffer takes a draw for every four bytes begun |
| Generator.PeriodCount | tests/munit/munit.c:979-981 | the salted draws of a period that satisfy any predicate are as many as the words that satisfy it |
| Generator.RejectionsExact | tests/munit/munit.c:979-981 | of the draws of one period exactly t are below t, from any state and with any salt |
| Generator.RejectionsBounded | tests/munit/munit.c:979-981 | so at most t draws in a row are rejected |
| Generator.Generator.AtMost | tests/munit/munit.c:965-984 | terminates for every state, salt and positive max with a result at most max, after at most threshold rejections; exactly the rejected draws and one more are consumed, and it is the first acceptable one |
| Generator.Generator.Memory | tests/munit/munit.c:938-953 | every byte of a buffer of any size is the byte of the draw it belongs to, and exactly that many states are consumed |
| Bias.GivesIs | tests/munit/munit.c:971-983 | which words are accepted and which result they give |
| Bias.PeriodFrequency | tests/munit/munit.c:965-984 | over a period, counting accepted draws with a result is counting words from the threshold on with that remainder |
| Bias.UniformIff | tests/munit/munit.c:967-983 | the results are equally frequent exactly when max is 2^32 - 1 or max + 1 divides 2^32 - (2^32 mod max) |
| Bias.BiasedByTwo | tests/munit/munit.c:967-983 | with max 2 they are not, with max 1 they are |
| SharedPrng.Perform | tests/munit/munit.c:956-963 | what a loop body computes on its private copy is the value and cost the machine commits |
| SharedPrng.Step | tests/munit/munit.c:926-995 | one atomic step of a thread: load, or weak compare-and-swap that may fail without cause |
| SharedPrng.Undisturbed | tests/munit/munit.c:926-995 | an undisturbed begin, load and swap completes that very call: the next draw, a buffer of the next draws, or the first acceptable salted draw reduced, and the states it took are gone |
| SharedPrng.SwapFails | tests/munit/munit.c:930-933 | a swap that finds another state or fails without cause changes nothing and its thread loads again |
| SharedPrng.SharedRuns | tests/munit/munit.c:926-995 | in every interleaving the completed calls take consecutive blocks of the one orbit of the seed, none skipped or taken twice, and each returns what it would when called in its turn |
| SharedPrng.NoStateTwice | tests/munit/munit.c:926-995 | within one period no two words come from the same state, whichever threads draw them |
| SharedPrng.FailureMeansProgress | tests/munit/munit.c:930-933 | a swap fails with cause only when another call completed since the load |
| ParamSpec.CombosAreProduct | tests/munit/munit.c:1538-1545 | the enumeration is the Cartesian product of the value lists after the fixed parameters: one position for every choice and no other, ordered by the first difference |
| ParamSpec.CombinationIs | tests/munit/munit.c:1538-1545 | the combination of a choice, entry by entry |
| ParamSpec.RankOrder | tests/munit/munit.c:1538-1545 | of two choices the one with the smaller value index at the first difference comes first |
| ParamSpec.RunsArePrefix | tests/munit/munit.c:1546-1547 | the runs made are all combinations, unless failures are fatal, and then they end with the first run that does not pass; the counts rise by the failed and the errored runs |
| ParamRunner.Runner.RunWild | tests/munit/munit.c:1519-1549 | the recursive in-place walk runs exactly the enumeration, up to a fatal failure, and leaves the fixed parameters and all names unchanged |
| ParamRunner.Runner.RunWithParams | tests/munit/munit.c:1284-1515 | a run adds one to the failed or the errored count, as its outcome says |
| ParamSpec.GivenIs | tests/munit/munit.c:1591-1599 | the first command line value with a name counts |
| ParamRunner.SplitOne | tests/munit/munit.c:1588-1626 | how one more listed parameter is classified |
| ParamRunner.Runner.Split | tests/munit/munit.c:1588-1626 | parameters given on the command line are fixed, those with values are wild, the others are skipped |
| ParamRunner.Runner.Append | tests/munit/munit.c:1628-1637 | entries are made for the wild parameters listed before the first absent value list, in order |
| ParamRunner.Runner.RunTest | tests/munit/munit.c:1552-1645 | the runs of a whole test, and when the setup is undefined |
| ParamRunner.EveryCombinationIff | tests/munit/munit.c:1588-1641 | every combination is run exactly when no wild parameter is listed after an absent value list |
| ParamRunner.WildDropped | tests/munit/munit.c:1630-1636 | a concrete test with an absent list between two wild parameters, whose second parameter is never set |

## Left out

- Margo, Mercury and Argobots calls, RPC registration, bulk transfer, provider finalisation and the Bedrock glue: foreign libraries. Transport is an exact copy, the mutex an atomic lock, and the Mercury and allocation error returns do not occur.
- `HASH_SELECT`, `HASH_CLEAR`, the `INORDER` adds and the `REPLACE` macros: not used by the provider.
- The hash functions themselves: every theorem about the index holds for any function of the key.
- Element and handle: merged into one object, since their distance `hho` is constant; the handle's table pointer and key pointer are the index's table and the stream's id.
- UtHash.Index.Add: requires fewer than 2^31 buckets before a doubling that gets its memory, and fewer than 2^32 elements, because the 32-bit counters of the original would wrap there. `Provider.Provider.Run` takes the memory of a doubling to be there until then.
- Provider.Provider.CreateStream: copying the strings into their 36 and 200 byte fields is left out, so it says nothing about strings that do not fit; descriptions and tag lists are not stored.
- Use of a stream after `remove_stream` freed it (src/provider.c:248-251): a destroy is the removal from the index only.
- Provider.Provider.AddStream: in the build without `HASH_NONFATAL_OOM` running out of memory ends the process, which is the result `Exited`.
- UtHash.Index.Sort: the comparison is a function of the two elements that does not read their links.
- Fetch.Update: as in the original, callers must leave room in the buffer; an update of a full buffer is outside the model.
- Fetch.FetchSamples: a fetch is one atomic snapshot; names are not copied, so the error reply that carries uninitialised names is only its return code.
- `double` values are real numbers: NaN and rounding are outside the model.
- The byte order of the wire is little-endian, and `ret` is its 32 bits without a sign.
- Generator.Generator.Memory: the host that copies a word's bytes with `memcpy` is little-endian; on a big-endian host the bytes of each word come in the opposite order.
- UpdateMachine.Step: steps are atomic and sequentially consistent; the unlocked reads of the counter check are separate steps, but torn reads are not modelled.
- CounterOrder.CounterOrderIff: starts from a counter with no call under way, its samples in order and room for two more, since an update of a full buffer is outside the model.
- Generator.Generator.AtMost: requires `max > 0`, as the original computes a remainder by `max`.
- SharedPrng.Step: seeding while calls are running, `munit_rand_double` (one word, like `munit_rand_uint32`) and `munit_rand_int_range` are left out.
- ParamRunner.Runner.RunTest: parameter names are distinct, the mode that picks a single combination at random is left out, and memory for parameter arrays is always there.
- `aggregator_stream_dump_histogram`, the dump of raw samples, handle reference counts, `bin/`, `src/admin.c`, the dummy backend, and the clock, printing, forking and command-line code of the test framework: drivers, or without a property beyond their text.
