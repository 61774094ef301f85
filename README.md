# HPX core: merge, scatter, communicators and runtime support, in Dafny

This project models four parts of HPX and proves properties of the models.

- **hpx::merge and hpx::inplace_merge** (`merge_spec.dfy`, `merge_algorithms.dfy`, `inplace_merge.dfy`, `writes.dfy`).
  - The comparison `comp(x, y)` is modelled as `key(x) < key(y)` for a rank `key`. Elements with equal keys can still differ, so stability can be stated.
  - The ghost function `MergeSpec.Merge` is the reference stable merge: ties take the element of the first range. It is proved to be a permutation of both inputs, sorted for sorted inputs, and stable.
  - The sequential merge helpers, `sequential_merge`, the binary searches, the chunked `parallel_merge` and the divide-and-conquer `parallel_inplace_merge_helper` are methods on arrays.
  - Each method is proved to write exactly `Merge` of its inputs into its output range and to leave the rest of the array alone (`Writes.Overwritten`).
  - Parallel work is sequentialised. The chunks of `parallel_merge` run one after another. The two sides of the in-place pivot run left side first.
- **The scatter collective** (`scatter.dfy`).
  - One round of the communicator is a fold of the sites' step functions over the data slot, followed by the finalizer.
  - Also modelled: the argument checks of `scatter_from`/`scatter_to`, their argument-order and base-name overloads, and the index arithmetic, grouping loops and call plan of `scatter_hierarchically`.
- **Communicators** (`communicator.dfy`, with `text.dfy` for `std::to_string`).
  - Defaulting of the site arguments, registration names and local names.
  - `set_info`/`get_info` on a `Communicator` class.
  - `create_communicator`, `create_local_communicator`, `create_hierarchical_communicator`, and the tree that `recursively_fill_communicators` builds.
  - What one site appends for the tree has two definitions. `Appended` follows the recursion run by run. `Filled` describes one level at a time. `FilledExactly` proves they agree, and the methods are proved to append exactly `Appended`.
  - The tree definitions take the interval naming as a function argument; the methods pass `Names(basename)`, which builds the source's `basename + left + "-" + right + "/"`.
- **runtime_support** (`runtime_support.dfy`, with `text.dfy` for lower-casing).
  - The component table is a `map` field of a `RuntimeSupport` class. Its lookups fail with the source's error codes.
  - Module loading is driven by the configuration sections: the `enabled` filter, the shared-library extension check, and type/derived/base registration with duplicate detection.
  - Also modelled: `tidy`, and the `stopped_`/`terminated_` flags.

Decisions where the sources leave a choice:

- Unspecified arguments (`std::size_t(-1)`) are the constant `Communicators.Unspecified` = 2^64 - 1. `root_site` defaults to 0 in the base-name overloads, as the scatter documentation says.
- The scatter documentation says the generation number, if given, must be greater than zero (scatter.hpp:29-30). In the code, the base-name overloads of `scatter_from`/`scatter_to` pass the generation only to `create_communicator`. The collective call itself then uses the default generation. So generation 0 is not rejected there. The model follows the code (`Scatter.BasenameOverloadsAccept`).
- `scatter_hierarchically` and `recursively_fill_communicators` need `arity >= 2`. With 0 the code divides by zero; with 1 its factor loop never ends.

## Model

| member | source | states |
|---|---|---|
| MergeSpec.MergePermutation | libs/core/algorithms/include/hpx/parallel/algorithms/merge.hpp:17-21 | the merge holds exactly the elements of both ranges (multiset equality) |
| MergeSpec.MergeSorted | libs/core/algorithms/include/hpx/parallel/algorithms/merge.hpp:17-21 | merging two sorted ranges gives one sorted range |
| MergeSpec.MergeStable | libs/core/algorithms/include/hpx/parallel/algorithms/merge.hpp:17-21 | for every key, the merge lists the first range's elements of that key in order, then the second range's |
| MergeSpec.MergeAtLeast | libs/core/algorithms/include/hpx/parallel/algorithms/merge.hpp:17-21 | a lower bound of both ranges bounds their merge |
| MergeSpec.MergeFromSlices | libs/core/algorithms/include/hpx/parallel/algorithms/merge.hpp:412-434 | the merge the loops track by indices equals the stable merge of the index slices |
| MergeSpec.MergeFromDone | libs/core/algorithms/include/hpx/parallel/algorithms/merge.hpp:567-573 | once one range is exhausted, the rest of the merge is the rest of the other range |
| MergeSpec.MergeSplit | libs/core/algorithms/include/hpx/parallel/algorithms/merge.hpp:651-668 | cutting both ranges so that nothing in the first parts must follow the second parts makes the merge the concatenation of the two partial merges |
| MergeSpec.MergeEmpty | libs/core/algorithms/include/hpx/parallel/algorithms/merge.hpp:567-573 | merging with an empty range is concatenation |
| MergeSpec.BoundUnique | libs/core/algorithms/include/hpx/parallel/algorithms/merge.hpp:599-629 | the lower/upper bound is the only split point with all passing elements before it and all failing ones after it |
| MergeSpec.BoundMonotone | libs/core/algorithms/include/hpx/parallel/algorithms/merge.hpp:599-629 | a larger value never has an earlier bound |
| MergeSpec.BoundSplitsSorted | libs/core/algorithms/include/hpx/parallel/algorithms/merge.hpp:599-629 | in a sorted range, every element from the bound on fails the bound's test |
| MergeAlgorithms.SequentialMergeHelper | libs/core/algorithms/include/hpx/parallel/algorithms/merge.hpp:398-434 | each step writes one element (the second range's only when it compares less); the loop stops when either range is exhausted; the returned positions are consistent; the output is the matching prefix of the stable merge and the rest of the merge is what the remaining inputs merge to |
| MergeAlgorithms.SequentialMergeHelperProjected | libs/core/algorithms/include/hpx/parallel/algorithms/merge.hpp:323-484 | the run-based loop with cached projections writes the same prefix of the stable merge and stops when either range is exhausted; what it writes does not depend on the seed `init_value` gives the second projection (`dflt`), which is overwritten before it is read |
| MergeAlgorithms.RunFromSecond | libs/core/algorithms/include/hpx/parallel/algorithms/merge.hpp:349-366 | the run from the second range extends the written prefix of the merge and ends at an element that does not compare less |
| MergeAlgorithms.RunFromFirst | libs/core/algorithms/include/hpx/parallel/algorithms/merge.hpp:372-389 | the run from the first range writes at least one element, extends the written prefix of the merge and ends at an element the second's compares less than |
| MergeAlgorithms.CopyRange | libs/core/algorithms/include/hpx/parallel/algorithms/merge.hpp:570-573 | util::copy writes the source slice from the output position and returns the position after it |
| MergeAlgorithms.SequentialMerge | libs/core/algorithms/include/hpx/parallel/algorithms/merge.hpp:490-596 | the output range holds the stable merge of the two input ranges; the returned positions are both input ends and `dest + len1 + len2` |
| MergeAlgorithms.FindBound | libs/core/algorithms/include/hpx/parallel/algorithms/merge.hpp:599-629 | binary search on a sorted range: every element before the result passes the lower_bound/upper_bound test and every element from it on fails |
| MergeAlgorithms.SearchedStart | libs/core/algorithms/include/hpx/parallel/algorithms/merge.hpp:651-656 | a chunk's slice of the other range starts at the bound of the chunk's first element |
| MergeAlgorithms.SearchedEnd | libs/core/algorithms/include/hpx/parallel/algorithms/merge.hpp:658-664 | searching only from the slice start still finds the bound of the element after the chunk |
| MergeAlgorithms.CutMonotone | libs/core/algorithms/include/hpx/parallel/algorithms/merge.hpp:651-664 | later chunks start no earlier in the other range |
| MergeAlgorithms.ChunkSplit | libs/core/algorithms/include/hpx/parallel/algorithms/merge.hpp:651-668 | merging up to a later chunk is merging up to an earlier one followed by the chunks' pieces in between |
| MergeAlgorithms.ChunkWritten | libs/core/algorithms/include/hpx/parallel/algorithms/merge.hpp:666-667 | a chunk written at `dest + base + start` extends the output of the earlier chunks |
| MergeAlgorithms.MergeChunk | libs/core/algorithms/include/hpx/parallel/algorithms/merge.hpp:645-668 | the partition lambda for one chunk extends the output to the merge of everything up to the chunk's end |
| MergeAlgorithms.MergeSlices | libs/core/algorithms/include/hpx/parallel/algorithms/merge.hpp:666-667 | one chunk's sequential merge writes the merge of the chunk and its slice, in the order the branch passes them |
| MergeAlgorithms.MergeChunks | libs/core/algorithms/include/hpx/parallel/algorithms/merge.hpp:676-678 | running the lambda over chunks of positive size that cover the partitioned range writes its merge with the sliced range |
| MergeAlgorithms.SumPrefixAtMost | libs/core/algorithms/include/hpx/parallel/algorithms/merge.hpp:676-678 | the chunks before any point cover no more than the whole range |
| MergeAlgorithms.ParallelMergeAsWritten | libs/core/algorithms/include/hpx/parallel/algorithms/merge.hpp:632-712 | as written: with `len1 > len2` the output is the stable merge; otherwise it is the merge with the second range first; the result positions are `{last1, first2 + len2, dest + len1 + len2}` |
| MergeAlgorithms.ParallelMerge | libs/core/algorithms/include/hpx/parallel/algorithms/merge.hpp:632-712 | corrected: the output is the stable merge of both ranges in both branches, with the same result positions |
| MergeAlgorithms.ParallelMergeTieRun | libs/core/algorithms/include/hpx/parallel/algorithms/merge.hpp:681-704 | running the as-written parallel merge on that tie input, with range 2 in one chunk, fills the buffer with [(5,'b'), (5,'c'), (5,'a')], which is not the stable merge |
| MergeAlgorithms.ParallelMergeTieOrder | libs/core/algorithms/include/hpx/parallel/algorithms/merge.hpp:681-704 | on equal keys, one element in the first range and two in the second, the as-written output puts the second range's elements first, against the stable order |
| InplaceMerge.SequentialRotate | libs/core/algorithms/include/hpx/parallel/algorithms/merge.hpp:823 | rotating `[first, middle, last)` moves `[middle, last)` to the front followed by `[first, middle)` and changes nothing else |
| InplaceMerge.RotatePermutation | libs/core/algorithms/include/hpx/parallel/algorithms/merge.hpp:823 | a rotation is a permutation of the rotated range |
| InplaceMerge.SequentialInplaceMerge | libs/core/algorithms/include/hpx/parallel/algorithms/merge.hpp:773-782 | the range becomes the stable merge of its two halves, nothing outside changes, and the result is `last` |
| InplaceMerge.ParallelInplaceMergeHelper | libs/core/algorithms/include/hpx/parallel/algorithms/merge.hpp:785-914 | for sorted halves the range becomes their stable merge, whether below the 65536 threshold or split at a pivot |
| InplaceMerge.MergeAroundLeftPivot | libs/core/algorithms/include/hpx/parallel/algorithms/merge.hpp:806-859 | pivot in the left half, lower_bound in the right half, rotate, merge both sides: the range becomes the stable merge |
| InplaceMerge.MergeAroundRightPivot | libs/core/algorithms/include/hpx/parallel/algorithms/merge.hpp:860-914 | pivot in the right half, upper_bound in the left half, rotate, merge both sides: the range becomes the stable merge |
| InplaceMerge.PivotLeftOrder | libs/core/algorithms/include/hpx/parallel/algorithms/merge.hpp:808-822 | with the boundary at the pivot's lower bound in the right half, the right half's head is below the pivot and the rest of the left half, the left half's head is at most the right half's tail, and the pivot is at most that tail |
| InplaceMerge.PivotRightOrder | libs/core/algorithms/include/hpx/parallel/algorithms/merge.hpp:863-877 | with the boundary at the pivot's upper bound in the left half, the left half's head is at most the pivot and the right half's tail, and the right half's head with the pivot is below the left half's tail |
| InplaceMerge.PivotLeftSplit | libs/core/algorithms/include/hpx/parallel/algorithms/merge.hpp:808-840 | the stable merge of the halves equals the merge of the left pieces, the pivot, and the merge of the right pieces |
| InplaceMerge.PivotRightSplit | libs/core/algorithms/include/hpx/parallel/algorithms/merge.hpp:863-895 | the same decomposition around a pivot taken from the right half |
| InplaceMerge.RotatedPivotFirst | libs/core/algorithms/include/hpx/parallel/algorithms/merge.hpp:812-823 | after rotating `[pivot, middle, boundary)` the pivot sits at `target = pivot + (boundary - middle)` with the two blocks on either side |
| InplaceMerge.RotatedPivotLast | libs/core/algorithms/include/hpx/parallel/algorithms/merge.hpp:867-878 | after rotating `[boundary, middle, pivot + 1)` the pivot sits at `target = boundary + (pivot - middle)` |
| InplaceMerge.MergeSides | libs/core/algorithms/include/hpx/parallel/algorithms/merge.hpp:825-840 | the two recursive calls merge the pieces left and right of the target, which stays in place |
| InplaceMerge.ParallelInplaceMerge | libs/core/algorithms/include/hpx/parallel/algorithms/merge.hpp:917-935 | the range becomes the stable merge of its halves and the result is `last` |
| Scatter.ApplyStep | libs/full/collectives/include/hpx/collectives/scatter.hpp:260-269 | a set step replaces the slot with the supplied vector; a get step leaves it |
| Scatter.Finalize | libs/full/collectives/include/hpx/collectives/scatter.hpp:254-256 | the finalizer hands the requesting site an element of the slot |
| Scatter.RoundWithoutSet | libs/full/collectives/include/hpx/collectives/scatter.hpp:241-258 | a round in which nobody sets leaves the slot unchanged |
| Scatter.RoundWithOneSet | libs/full/collectives/include/hpx/collectives/scatter.hpp:260-275 | a round with exactly one set ends with the set vector, in any order of arrival |
| Scatter.RoundDelivers | libs/full/collectives/include/hpx/collectives/scatter.hpp:254-273 | with one producer, site `which` receives `t[which]` |
| Scatter.SiteOf | libs/full/collectives/include/hpx/collectives/scatter.hpp:288-291 | an unspecified site becomes the caller's locality; a given one is kept |
| Scatter.ScatterFrom | libs/full/collectives/include/hpx/collectives/scatter.hpp:283-320 | fails with bad_parameter exactly when the generation is 0; otherwise a get request for the defaulted site and that generation |
| Scatter.ScatterTo | libs/full/collectives/include/hpx/collectives/scatter.hpp:345-384 | fails with bad_parameter exactly when the generation is 0; otherwise a set request carrying the values |
| Scatter.ScatterFromGenerationFirst | libs/full/collectives/include/hpx/collectives/scatter.hpp:322-327 | the generation-first overload is the same call |
| Scatter.ScatterToGenerationFirst | libs/full/collectives/include/hpx/collectives/scatter.hpp:386-392 | the generation-first overload is the same call |
| Scatter.ScatterFromBasename | libs/full/collectives/include/hpx/collectives/scatter.hpp:329-339 | requires this site differ from the root site; asks for the communicator with the sites unspecified and receives with the default generation |
| Scatter.ScatterToBasename | libs/full/collectives/include/hpx/collectives/scatter.hpp:394-404 | asks for the communicator with this site as root and sends with the default generation |
| Scatter.BasenameOverloadsAccept | libs/full/collectives/include/hpx/collectives/scatter.hpp:329-404 | the base-name overloads never fail their own generation check, whatever generation is given |
| Scatter.ScatterToBasenameIsRoot | libs/full/collectives/include/hpx/collectives/scatter.hpp:401-403 | after defaulting, the scatter_to caller is the root of its communicator |
| Scatter.ScatterFromBasenameCheckBeforeDefaults | libs/full/collectives/include/hpx/collectives/scatter.hpp:335-338 | the site check runs before defaulting: locality 0 with both sites unspecified passes it and then is the root |
| Scatter.StripFactors | libs/full/collectives/include/hpx/collectives/scatter.hpp:429-432 | the result is 0 only for 0, and otherwise not divisible by `arity` |
| Scatter.StripFactorsDivides | libs/full/collectives/include/hpx/collectives/scatter.hpp:429-432 | what is left after dividing out `arity` is at most `n` and divides `n` |
| Scatter.StripFactorsLoop | libs/full/collectives/include/hpx/collectives/scatter.hpp:429-432 | the while loop ends (the value strictly decreases) with the factors of `arity` divided out |
| Scatter.PowerStrips | libs/full/collectives/include/hpx/collectives/scatter.hpp:429-432 | a power of `arity` reduces to 1 |
| Scatter.MinSitesBounds | libs/full/collectives/include/hpx/collectives/scatter.hpp:427-433 | for at least one locality, `min_sites` is at least 2, and is `arity` or a divisor of the count not divisible by `arity` |
| Scatter.MinSitesOfPower | libs/full/collectives/include/hpx/collectives/scatter.hpp:427-433 | a power of `arity` localities gives `min_sites == arity` |
| Scatter.Chunks | libs/full/collectives/include/hpx/collectives/scatter.hpp:443-447 | `n` runs of exactly `step` values each |
| Scatter.ChunksCover | libs/full/collectives/include/hpx/collectives/scatter.hpp:443-447 | the runs laid end to end are the first `n * step` values, so the remainder is dropped |
| Scatter.ChunkAt | libs/full/collectives/include/hpx/collectives/scatter.hpp:446 | group `i` is `values[i*step .. (i+1)*step]` |
| Scatter.Grouped | libs/full/collectives/include/hpx/collectives/scatter.hpp:442-448 | the root's grouping yields exactly `arity` groups |
| Scatter.Group | libs/full/collectives/include/hpx/collectives/scatter.hpp:442-448 | the grouping loop fills group `i` with run `i` of `len / arity` values |
| Scatter.RelayCopies | libs/full/collectives/include/hpx/collectives/scatter.hpp:494-501 | a relay hands down `arity` groups, each `arity` copies of the first value it received |
| Scatter.RelayGroups | libs/full/collectives/include/hpx/collectives/scatter.hpp:494-501 | the relay's grouping loop builds exactly those groups |
| Scatter.RelayForwardsFirst | libs/full/collectives/include/hpx/collectives/scatter.hpp:500 | everything a relay hands down is its first received value, `arity * arity` times |
| Scatter.RootScatter | libs/full/collectives/include/hpx/collectives/scatter.hpp:437-471 | the root sends its groups at index 0 on level 0, regroups each level's result at index `site % arity`, sends single values at index 0 on the last level, and runs off the end with one level |
| Scatter.RelayScatter | libs/full/collectives/include/hpx/collectives/scatter.hpp:476-506 | a relay receives at its adjusted index, forwards copies of the first value on middle levels, sends single values on the last level, and reads an empty vector's first element when a level gave it nothing |
| Scatter.ScatterHierarchically | libs/full/collectives/include/hpx/collectives/scatter.hpp:407-506 | fails exactly for generation 0; otherwise the root follows its plan, a site not divisible by `min_sites` receives once at `site % min_sites`, and any other site relays from index `adjusted_site % arity` |
| Communicators.CommunicatorServer.constructor | libs/full/collectives/src/create_communicator.cpp:57-65 | a server is built only for a site count other than 0 and -1, and keeps the count and base name |
| Communicators.Communicator.SetInfo | libs/full/collectives/src/create_communicator.cpp:71-79 | stores the pair, after which get_info returns it |
| Communicators.Communicator.GetInfo | libs/full/collectives/src/create_communicator.cpp:81-94 | the stored pair, or both arguments unspecified when nothing was stored |
| Communicators.Defaulted | libs/full/collectives/src/create_communicator.cpp:101-112 | unspecified counts and sites become the locality's; the root defaults to this site only when this site was unspecified too; given values are kept |
| Communicators.DefaultedIdempotent | libs/full/collectives/src/create_communicator.cpp:101-112 | defaulting twice changes nothing |
| Communicators.ExplicitSiteNeedsRoot | libs/full/collectives/src/create_communicator.cpp:105-116 | a given this_site with an unspecified root_site always fails the assertions |
| Communicators.GenerationSuffix | libs/full/collectives/src/create_communicator.cpp:119-122 | the suffix is empty exactly for an unspecified generation |
| Communicators.RegistrationName | libs/full/collectives/src/create_communicator.cpp:118-122 | the name starts with the base name and ends in `/` when a generation is given |
| Communicators.RegistrationNamesDistinct | libs/full/collectives/src/create_communicator.cpp:118-122 | different generations of one base name get different names |
| Communicators.LocalName | libs/full/collectives/src/create_communicator.cpp:170-175 | `/`, the locality, `/`, the base name without its leading slash, and the generation suffix |
| Communicators.LocalNamesDistinct | libs/full/collectives/src/create_communicator.cpp:170-175 | local communicators of different localities never share a name |
| Communicators.CreateCommunicator | libs/full/collectives/src/create_communicator.cpp:97-151 | after defaulting: the root creates a server sized `num_sites` and stores the info, failing with bad_parameter exactly when the name is taken; other sites look the name up at the root |
| Communicators.CreateLocalCommunicator | libs/full/collectives/src/create_communicator.cpp:154-202 | the same with only the root defaulted and the local name |
| Communicators.Pivot | libs/full/collectives/src/create_communicator.cpp:241-242 | the pivot lies inside the interval unless the interval spans all sites (then it is 0) |
| Communicators.SplitBounds | libs/full/collectives/src/create_communicator.cpp:274-281 | the `arity` runs of `(right-left+1)/arity` sites lie inside the interval and are at least one site wide |
| Communicators.RecursivelyFill | libs/full/collectives/src/create_communicator.cpp:237-289 | entries are only appended, at most `2 * (right-left+1)` of them; the pivot's first entry creates the interval's communicator sized `right-left`; every new entry belongs to the interval or to a sub-interval holding this site; only the first two new entries can belong to the interval itself, all later ones to a strictly narrower sub-interval holding this site; a leaf interval adds at most one entry; the new entries are exactly `Appended` of the interval, so nothing the source appends is missing |
| Communicators.FillRuns | libs/full/collectives/src/create_communicator.cpp:274-287 | at most `2 * (right-left) + 1` new entries; only the first new entry can belong to this interval, and then it is a lookup at the pivot; every other one belongs to a strictly narrower run holding this site, the only one the recursion descends into; the new entries are exactly `RunsAppended` from run 0: each run's lookup in order up to the first run holding this site, then what that run appends one level down |
| Communicators.CreateHierarchicalCommunicator | libs/full/collectives/src/create_communicator.cpp:205-236 | every entry belongs to `[0, num_sites-1]` under the registration name; site 0 first creates the top communicator; with two sites or more every created communicator is sized for at least one site, as the server's assertion demands; with one site the only entry creates a communicator of size 0; the entries are exactly `Tree`, the `Appended` of `[0, num_sites-1]` with no depth limit |
| Communicators.FilledExactly | libs/full/collectives/src/create_communicator.cpp:237-289 | the one-level description (`Filled`) holds of a result exactly when it is the earlier entries followed by `Appended`. `Filled` says: a leaf interval appends the pivot's creation, or a lookup at the pivot with this site's offset when the site lies in `[left, right)`, or nothing. A wider interval appends the pivot's creation, then a lookup with index `i` when this site is run `i`'s lookup position, then exactly what the run holding this site appends one level down, and nothing more when no run holds it |
| Communicators.AppendedFilled | libs/full/collectives/src/create_communicator.cpp:237-289 | the entries `Appended` computes meet the one-level description |
| Communicators.FilledUnique | libs/full/collectives/src/create_communicator.cpp:237-289 | the one-level description determines the appended entries: two results that meet it are equal |
| Communicators.SiteTwoOfFour | libs/full/collectives/src/create_communicator.cpp:237-289 | with four sites and arity 2, site 2 looks up the top communicator at site 0 with index 1 and then creates the communicator of `[2, 3]` sized 1, and appends nothing else |
| Text.NatToString | libs/full/collectives/src/create_communicator.cpp:121 | std::to_string: at least one digit, only digits, no leading zero |
| Text.ParseNatToString | libs/full/collectives/src/create_communicator.cpp:121 | reading the decimal form back gives the value |
| Text.NatToStringInjective | libs/full/collectives/src/create_communicator.cpp:121 | different values have different decimal forms |
| Text.IntToString | libs/full/collectives/src/create_communicator.cpp:240 | a signed value's form starts with `-` exactly when it is negative |
| Text.DigitsBeforeSeparator | libs/full/collectives/src/create_communicator.cpp:170-171 | digit strings followed by a non-digit separator split uniquely |
| Text.ToLower | src/runtime/components/server/runtime_support.cpp:567 | every character lower-cased, length kept |
| Text.ToLowerMatches | src/runtime/components/server/runtime_support.cpp:565-581 | comparing lower-cased text with a lower-case word accepts exactly the word's case variants |
| RuntimeSupport.Insert | src/runtime/components/server/runtime_support.cpp:647-648 | std::map::insert adds the pair only for a new key and says whether it did |
| RuntimeSupport.RegisterKeeps | src/runtime/components/server/runtime_support.cpp:646-667 | registration never changes or removes an existing entry |
| RuntimeSupport.RegisterSucceeds | src/runtime/components/server/runtime_support.cpp:646-667 | registration succeeds exactly when every inserted type is new and they are distinct, and then adds exactly those types |
| RuntimeSupport.RegisterPartial | src/runtime/components/server/runtime_support.cpp:653-666 | a registration that fails on a later insert keeps the type it already inserted |
| RuntimeSupport.Extension | src/runtime/components/server/runtime_support.cpp:610 | the extension is the end of the path's file name: empty when the file name has no dot, otherwise the dot and what follows, with neither dot nor slash |
| RuntimeSupport.Join | src/runtime/components/server/runtime_support.cpp:593 | the joined path starts with the directory and ends with the file name |
| RuntimeSupport.ExtensionOfSharedLib | src/runtime/components/server/runtime_support.cpp:610 | a path ending in `.so` has extension `.so` |
| RuntimeSupport.ExtensionIsSharedLib | src/runtime/components/server/runtime_support.cpp:610 | the extension is `.so` exactly when the path ends in `.so` |
| RuntimeSupport.FallbackPathIsSharedLib | src/runtime/components/server/runtime_support.cpp:590-594 | the second path tried always passes the extension check |
| RuntimeSupport.Attempt | src/runtime/components/server/runtime_support.cpp:604-688 | a wrong extension, a loader exception and type 0 each refuse the module without touching the table |
| RuntimeSupport.DisabledSpellings | src/runtime/components/server/runtime_support.cpp:565-571 | an `enabled` value disables exactly when it spells no, false or 0 in some letter case |
| RuntimeSupport.IsDefaultSpellings | src/runtime/components/server/runtime_support.cpp:574-581 | `isdefault` holds exactly for a case spelling of true |
| RuntimeSupport.ComponentName | src/runtime/components/server/runtime_support.cpp:560-563 | the `name` entry, or the instance name without one |
| RuntimeSupport.LibraryPath | src/runtime/components/server/runtime_support.cpp:585-588 | the `path` entry, or the default component path without one |
| RuntimeSupport.LoadSectionsKeeps | src/runtime/components/server/runtime_support.cpp:552-601 | loading sections never changes or removes an existing entry |
| RuntimeSupport.SkippedSectionsAddNothing | src/runtime/components/server/runtime_support.cpp:565-571 | disabled sections leave the table as it was, whatever their modules would do |
| RuntimeSupport.KeptModules | src/runtime/components/server/runtime_support.cpp:371-377 | the modules kept alive are exactly those of entries with a factory that may not unload |
| RuntimeSupport.RunFlags | src/runtime/components/server/runtime_support.cpp:388-393 | run clears both flags |
| RuntimeSupport.StopFlags | src/runtime/components/server/runtime_support.cpp:427-430 | stop leaves the runtime stopped and terminated_ untouched |
| RuntimeSupport.StoppedFlags | src/runtime/components/server/runtime_support.cpp:487-494 | stopped leaves the runtime terminated and stopped_ untouched |
| RuntimeSupport.StopAssertionKept | src/runtime/components/server/runtime_support.cpp:424-494 | when stopped is only reported after stop, the assertion in stop holds after any sequence of calls |
| RuntimeSupport.StoppedBeforeStop | src/runtime/components/server/runtime_support.cpp:428 | stopped reported before any stop makes a later stop fail its assertion |
| RuntimeSupport.FlagsIdempotent | src/runtime/components/server/runtime_support.cpp:427-494 | stop and stopped act once |
| RuntimeSupport.RuntimeSupport.constructor | src/runtime/components/server/runtime_support.cpp:86-94 | starts with an empty table and both flags cleared |
| RuntimeSupport.RuntimeSupport.FactoryProperties | src/runtime/components/server/runtime_support.cpp:99-117 | the factory's properties exactly when the type has a factory, otherwise bad_component_type |
| RuntimeSupport.RuntimeSupport.CreateComponent | src/runtime/components/server/runtime_support.cpp:121-156 | a create request to the type's factory exactly when it has one, otherwise bad_component_type |
| RuntimeSupport.RuntimeSupport.CreateOneComponent | src/runtime/components/server/runtime_support.cpp:160-197 | as create_component, telling "not found in map" apart from "map entry is NULL" |
| RuntimeSupport.RuntimeSupport.FreeComponent | src/runtime/components/server/runtime_support.cpp:222-291 | memory blocks are destroyed only when the id resolves to this locality (unknown_component_address otherwise); other types go to their factory, or fail with bad_component_type when absent |
| RuntimeSupport.RuntimeSupport.LoadComponent | src/runtime/components/server/runtime_support.cpp:604-688 | the table and the result are what Attempt gives |
| RuntimeSupport.RuntimeSupport.InsertEntry | src/runtime/components/server/runtime_support.cpp:647-648 | the table and the flag are what Insert gives |
| RuntimeSupport.RuntimeSupport.LoadComponents | src/runtime/components/server/runtime_support.cpp:522-602 | nothing changes without an hpx.components section; otherwise the table is LoadSections of the old table |
| RuntimeSupport.RuntimeSupport.Tidy | src/runtime/components/server/runtime_support.cpp:360-385 | the table ends empty, and the modules kept alive grow by KeptModules of the old table |
| RuntimeSupport.RuntimeSupport.Run | src/runtime/components/server/runtime_support.cpp:388-393 | the flags become RunFlags of the old ones |
| RuntimeSupport.RuntimeSupport.Stop | src/runtime/components/server/runtime_support.cpp:424-430 | requires the assertion; the flags become StopFlags of the old ones |
| RuntimeSupport.RuntimeSupport.Stopped | src/runtime/components/server/runtime_support.cpp:487-494 | the waiter is notified exactly on the first call; the flags become StoppedFlags of the old ones |

## Left out

- Futures, `hpx::async`, `then` continuations and the keep-alive lambdas are left out. A collective call is modelled as the request it would send (`Scatter.Request`, `Scatter.Sent`).
- The name service is a parameter. `register_as` becomes the boolean `registered`; `find_from_basename` becomes a `Find` link or a communicator without a server.
- Locality id, locality count and the resolution of global ids are parameters (`Locality`, `resolved`, `here`).
- Parallel execution is sequentialised: `async_execute`, `foreach_partitioner` and exception aggregation are left out.
  - The partitioner's chunk sizes are a parameter (positive, covering the range).
- InplaceMerge.SequentialInplaceMerge: `std::inplace_merge` is modelled by a merge from copies of the two halves, so its in-place buffer handling is not captured, only its result.
- InplaceMerge.SequentialRotate: `detail::sequential_rotate` lives in rotate.hpp, which is not part of this model. It is modelled as a copy of the rotated blocks back into the range, which gives the same result without the in-place swaps.
- `detail::lower_bound`/`upper_bound` live in upper_lower_bound.hpp, which is not part of this model. `FindBound` is a textbook binary search with their contract.
- MergeAlgorithms.ParallelMergeAsWritten: uses one `key` for both ranges. The source's lower_bound over range 1 with `proj2` (merge.hpp:690) makes no difference with the identity projections the public overloads pass, and is not modelled otherwise.
- The comparison is a rank `key(x) < key(y)`, not an arbitrary predicate. Every strict weak order on the finitely many values of one call has such a rank.
- Scatter.ScatterHierarchically: requires at least one level when the generation is not 0. The source reads `communicators[0]` before anything else, which is undefined for an empty vector.
  - Other undefined behaviour is modelled as endings of the plan: falling off the end with one level (`FallsOffEnd`), and a relay reading element 0 of an empty vector (`ReadsEmpty`).
  - The values each level yields are a parameter (`received`).
- Scatter.ScatterHierarchically: `int` arithmetic (`min_sites`, `step_size`, `adjusted_site`) is modelled unbounded. `min_sites` and `adjusted_site` start from a locality count or a site index and only shrink by division. `step_size` narrows `size() / arity` to `int`, which truncates only for vectors of 2^31 elements or more; the model does not capture that truncation.
- Scatter.ScatterHierarchically: does not state that every site receives its own value. The relay path forwards copies of one value and the grouping drops remainders, so the code makes no such promise.
- Communicators.RecursivelyFill: `int` arithmetic is modelled unbounded.
  - The created communicator is sized `right - left` for `right - left + 1` sites, as written.
  - A run's lookup position may be `left - 1`, as written.
  - `max_depth` -1 means unbounded.
- Communicators.CreateHierarchicalCommunicator: `root_site` is only checked by the assertions; the tree does not use it, as in the source.
- Communicators.CreateHierarchicalCommunicator: does not reject one site. With `num_sites` 1 the source creates a communicator server for 0 sites, and the server's constructor asserts that this never happens (create_communicator.cpp:63-64). The model returns that size-0 `Create` link as written and does not fail.
- Communicators.RecursivelyFill: assumes `name_from_basename` (not part of this model) leaves its argument intact. The pivot passes `name` to it with `HPX_MOVE`, and the same site may then look up `name` again at a run position (create_communicator.cpp:278), for example site 0 with 4 sites and arity 2. The model uses the interval name there; if `name_from_basename` consumes its argument, the source looks up a moved-from string instead.
- Communicator servers keep only their size and base name. The `gate_` latch, data slots and `handle_data` synchronisation are left out; one round is modelled as a fold over the sites' steps in arrival order.
- RuntimeSupport.RuntimeSupport.FreeComponent: requires that a type present in the table other than the memory block type has a factory. The source dereferences a null factory there, which is undefined.
- `HPX_MANGLE_COMPONENT_NAME_STR` is not modelled; component names are used as given.
- `create_path` is treated as the identity. `HPX_DEFAULT_COMPONENT_PATH` is a parameter. `HPX_SHARED_LIB_EXTENSION` is `.so`.
- `get_derived_type` and `get_base_type` are function parameters, because their definitions are not part of this model.
- `isdefault` is computed but nothing in `load_component` reads it (its uses there are commented out). The model states the computation only (`IsDefault`).
- The DLL loader and factory creation are a parameter (`probe`) that either throws or yields a factory and a type. The `hpx.components` sub-sections are a sequence in the configuration's key order.
- The `component_memory_block` type is a constructor parameter (`memoryBlockType`).
- These are left out: locks, `wait()` and its condition variable, the thread-manager drain loop with its `double` timeout, the blocking wait at the end of `stop`, the response to `respond_to`, `shutdown`/`shutdown_all`, `create_memory_block`, `get_config`, logging, and the constructor's load of components under the old name-service version.

## Findings

| source | as written | input that shows it | evidently intended | confidence | as-written member | corrected member |
|---|---|---|---|---|---|---|
| libs/core/algorithms/include/hpx/parallel/algorithms/merge.hpp:681-704 | when range 1 is not longer than range 2, each chunk of range 2 is merged as the first range with a lower_bound slice of range 1, so on equal keys range 2's elements are written first | range 1 = [(5,'a')], range 2 = [(5,'b'), (5,'c')] with comparison on the first component: output [(5,'b'), (5,'c'), (5,'a')] | the documented stable order, range 1 before range 2 on ties (merge.hpp:17-21): [(5,'a'), (5,'b'), (5,'c')]; slice range 1 with upper_bound and pass the slice first | high; not executed | MergeAlgorithms.ParallelMergeTieRun | MergeAlgorithms.ParallelMerge |
