# Algorithms of coreutils/lib and file, modelled and proved in Dafny

The repository re-implements parts of coreutils, of file(1) and of binutils. This project models
its self-contained algorithms and proves what they are for. Where the C code changes things in
place, the model is imperative: records, arrays and linked nodes that methods update, proved
against functions on values; what the source promises is then proved about those functions, for
all inputs and all runs.

`dafny verify dfyconfig.toml` checks everything.

| file | models |
|---|---|
| Wrappers.dfy | the option type the other modules share |
| Primes.dfy | `is_prime` and `next_prime` on 64-bit words |
| HashModel.dfy | the hash table on values: chains, recycled nodes, the allocator's answers |
| HashRollback.dfy | `transfer_entries` and the undo of a failed `hash_rehash` |
| HashMemory.dfy | the requests each operation makes, and that only refusals make it fail |
| HashRuns.dfy | whole runs of the table against a finite set |
| HashCapacity.dfy | the sizing promises and the growth of the table |
| HashSizing.dfy | which number of buckets a table gets, and when it grows or shrinks |
| HashTable.dfy | the pointer code up to `hash_rehash`: bucket records, overflow nodes, free list |
| HashOperations.dfy | the pointer code of insert, lookup, delete, clear, initialize and the walks |
| Digits.dfy | decimal text, its length bound and `inttostr` |
| HumanSpec.dfy | human readable sizes over the real numbers: the specification |
| Human.dfy | `human_readable` on the integer path |
| LazyCycle.dfy | `cycle_check` with its checkpoints at powers of two |
| TightCycle.dfy | `enter_dir` and `leave_dir` on the hash table |
| Utf8.dfy | `encode_utf8` and `file_looks_utf8`, the six-byte form of section 2 of RFC 2279 |
| MagicWalk.dfy | `match` of softmagic.c: the walk over continuation levels, and the tree it stands for |
| MagicFlags.dfy | what the per-level flags of `match` mean, fresh and left over |
| MagicNested.dfy | which lists of entries are walked as the tree whatever nested matches do |
| MagicMatch.dfy | `match` as a whole: groups, results, the code, and one match nested in another |
| MagicResult.dfy | what `match` answers |
| Canonicalize.dfy | `canonicalize_filename_mode` without symbolic links |
| CdfChain.dfy | sector chains, section 2.3 of [MS-CFB] |
| Escapes.dfy | `getstr` and `file_showstr` |
| Ring.dfy | the ring buffer |

## Where the code and its comments part

- hash.c:589 tests the address of the out-parameter where "the bucket is empty" is meant. The
  model takes the test of `hash_lookup` (hash.c:129). `transfer_entries` has no such test before
  it hashes a bucket head; the model skips empty buckets.
- hash.c:739 can not fire, so a rehash to the same size simply runs; the model does that too.
- The comment before the rollback says two passes may be needed where one is not enough.
  `SinglePassCanFail` is such a case, `RollbackSucceeds` the proof that two are always enough.
- `is_prime` updates a running square that wraps above 2^32. The answer is nevertheless exact for
  every odd word from 11 on (`Primes.IsPrime`): the loop stops at the latest at a square root of
  -7 modulo 2^64, after every possible divisor.
- The margin `check_tuning` leaves does not make growing enlarge a table: `GrowthCanStall` has
  accepted values for which 11 buckets grow to 11. Every table has a prime number of buckets
  (`SizesArePrime`), and `GrowthEnlargesExactly` says for all of them when growing enlarges: exactly
  if the truncated candidate pays for one bucket more.
- The remainders in human.c:192-193 wrap for very large blocks. `DivisorTellsOnWords` says exactly
  when the digits and the flag are right nonetheless, and `HumanReadable` exactly when the number
  shown is: always when rounding down, for all but three remainders when rounding up.
- The macro that `leave_dir` uses copies the directory onto itself (fts-cycle.h:16-27), so leaving
  a directory changes nothing, and the checkpoint need not be an ancestor (`CheckpointOffThePath`).
- `match` never sets cont_level back between groups. In the first group that matches the walk is
  the walk over the tree (`FreshGroupIsTree`). In later ones, which only MAGIC_CONTINUE or entries
  without a description lead to, the reset of a level and the saved offset go to the level of
  entry instead of level 1: the flags and the offset that the continuations at level 1 begin with
  are left over, so that a default without siblings can be passed over (`StaleFlagsMislead`).
  `DefaultFires` holds for any flags to begin with, `LeftOverFlagsExactly` says which lists of entries
  tell flags left over from clear ones, and `RuleIsExact` when the right entries are still reached.
- For FILE_USE and FILE_INDIRECT entries mget calls `match` again (softmagic.c:976 and 1009), on the
  same levels, and FILE_USE hands it `returnval` too. The nested match sets back the flags of the
  levels the outer one is using: a default can then fire although a sibling has, and a second arm of
  a chain be tested (`NestedMatchMisleadsDefault`, `NestedMatchMisleadsChain`). What such an entry
  leaves behind is arbitrary in the model. The theorems about the tree hold while no nested match has
  spoiled the levels (`Undisturbed`), which is so where no tested entry is of these types
  (`PlainIsUndisturbed`); for whatever entry may come next nothing less will do (`TreeSurvivesExactly`).
  `NestedMatchesExactly` says which lists are walked as the tree for all answers: those with no such entry
  between a default, or an entry that adds the offset, and its controlling entry, nor between an arm of a
  chain and its controlling entry unless a negated sibling has settled the chain since.
- softmagic.c:1931 reads the entry behind the last one; the model has the guard of line 1858.
- `cdf_read` answers -1 or the full length, so the branch for a truncated last sector
  (cdf.c:566-570) is never taken. `cdf_count_chain` compares sector numbers with a size in bytes,
  cast to 32 bits; the model does the same and takes the table to be defined where it is read.
  `BoundIsInBytes` says when that keeps all look-ups within the table. `cdf_read_short_sector` compares
  only the start of a short sector with the end of the container (cdf.c:824): `OneCopyCrosses` says which
  number it lets through although the copy crosses that end, and when no chain holds it.
- The buffer of `canonicalize_filename_mode` grows by a rule that is one character short if the working
  directory is no shorter than PATH_MAX and what is first appended to it no shorter than
  PATH_MAX - 1 (`GrowthKeepsInside`).
- DOUBLE_SLASH_IS_DISTINCT_ROOT (canonicalize.c:92) is taken to be 0, so a name that begins with two
  slashes means the root.
- At the end of the text, or of an incomplete escape, `getstr` returns the place behind the NUL
  (apprentice.c:644 and 659), that is one more than the length of the text.
- `file_showstr` prints spaces and backslashes as they are, so `getstr` does not give back strings
  that contain them: `Escapes.RoundTrip` is an if and only if.

## Model

| member | source | states |
|---|---|---|
| Primes.IsPrime | coreutils/lib/hash.c:262-275 | true exactly for primes, on every odd word from 11 on, although the running square wraps |
| Primes.TrialDivisionSuffices | coreutils/lib/hash.c:262-275 | an odd number without odd divisors up to a limit at or above its root is prime |
| Primes.NextPrimeIsLeast | coreutils/lib/hash.c:279-292 | the result is prime or SIZE_MAX, and at most any prime that is at least 10 and at least the candidate |
| Primes.ComputeNextPrime | coreutils/lib/hash.c:279-292 | the loop computes that number and ends |
| HashModel.Checked | coreutils/lib/hash.c:322-347 | whatever the caller has made of the tuning, what is used after the check is within its bounds |
| HashRollback.OverMonotone | coreutils/lib/hash.c:754-766 | of two tables of one size the one with fewer data never takes more overflow nodes |
| HashRollback.TransferKeeps | coreutils/lib/hash.c:644-722 | a pass, failed or not, loses and invents no data and no node, puts every entry in its own bucket, leaves heads only when safe and nothing when it succeeds; it fails only with the free list empty |
| HashRollback.HeadsFindNodes | coreutils/lib/hash.c:795-797 | while heads go back into a table that held all the data before, every node they need is on the free list |
| HashRollback.RollbackSucceeds | coreutils/lib/hash.c:795-801 | from any half-done move both backward passes succeed without the allocator, and every bucket holds its original data again, with the counters as they were |
| HashRollback.RehashKeepsData | coreutils/lib/hash.c:731-802 | hash_rehash never aborts and keeps the data; on failure bucket by bucket; nodes and allocations balance |
| HashRollback.FailureMeansFewerBuckets | coreutils/lib/hash.c:782-788 | the premise of the comment: a forward pass fails only if the new table uses fewer buckets than the old one did |
| HashRollback.EnoughInAdvance | coreutils/lib/hash.c:754-761 | the bound of the comment: with n_buckets_used - 1 free entries in advance the transfer allocates nothing |
| HashRollback.SinglePassCanFail | coreutils/lib/hash.c:790-794 | the pathological case of the comment exists: after this failure one backward pass would run out of nodes |
| HashMemory.TransferAsks | coreutils/lib/hash.c:644-722 | a pass makes at most one request a bucket and fails exactly when one is refused |
| HashMemory.RollbackAsksNothing | coreutils/lib/hash.c:763-801 | the answers a rehash leaves are those its forward pass leaves, the rollback having asked for nothing |
| HashMemory.RehashAsks | coreutils/lib/hash.c:731-802 | hash_rehash makes at most n_buckets + 1 requests, and fails only if one of them is refused or there is no size for the candidate, and always then as far as the answers reach |
| HashMemory.InsertAsks | coreutils/lib/hash.c:804-874 | hash_insert makes at most n_buckets + 2 requests; NULL only if one of them is refused or the size to grow to cannot be had, success only if neither is so |
| HashRuns.LookupFinds | coreutils/lib/hash.c:120-137 | looking in one bucket finds exactly the entry of the whole table that compares equal, or tells that there is none |
| HashRuns.RoomKeeps | coreutils/lib/hash.c:826-851 | making room keeps the set, and the abort at line 849 is unreachable |
| HashRuns.InsertKeeps | coreutils/lib/hash.c:809-874 | an insertion returns the entry that is there, or adds the new one, or fails and changes nothing: only if one of at most n_buckets + 2 requests is refused or the size to grow to cannot be had, and always then as far as the allocator's answers reach; entries stay pairwise different and in their buckets |
| HashRuns.DeleteKeeps | coreutils/lib/hash.c:879-931 | a deletion takes away exactly the matching entry, whatever becomes of the shrink behind it |
| HashRuns.ClearKeeps | coreutils/lib/hash.c:458-493 | after clearing the table is empty and in order, with its buckets, and no node is lost |
| HashRuns.StepRefines | coreutils/lib/hash.c:731-931 | every operation, from every table in order and for all answers of the allocator, aborts nowhere, keeps the order, and answers as a finite set does that fails to take an entry, or to be rehashed, only where storage is denied |
| HashRuns.RunRefines | coreutils/lib/hash.c:731-931 | so does every run of them, each reply saying whether storage was denied to that call |
| HashRuns.InitialInv | coreutils/lib/hash.c:401-453 | a new table is empty and in order, with valid tuning |
| HashCapacity.SizeSuffices | coreutils/lib/hash.c:352-365 | the truncation of candidate / growth_threshold costs less than one entry |
| HashCapacity.CapacityPromise | coreutils/lib/hash.c:368-375 | a table sized for candidate entries takes that many, those in it included, before the growth test first succeeds |
| HashCapacity.InitialCapacity | coreutils/lib/hash.c:368-453 | hash_initialize guarantees candidate insertions without growth |
| HashCapacity.RehashCapacity | coreutils/lib/hash.c:724-731 | so does a successful hash_rehash, for a table that holds no more than that |
| HashCapacity.BucketSizeIsPrime | coreutils/lib/hash.c:352-365 | every size computed is a prime |
| HashCapacity.SizesArePrime | coreutils/lib/hash.c:401-931 | every new table has a prime number of buckets, and every operation keeps it so |
| HashCapacity.GrowthEnlargesExactly | coreutils/lib/hash.c:835-845 | growing a table enlarges it exactly if the truncated candidate pays for one bucket more, with is_n_buckets or without; or the size is refused |
| HashCapacity.GrowthEnlarges | coreutils/lib/hash.c:835-845 | so it does if what the factor adds outweighs two truncations |
| HashCapacity.BucketGrowthEnlarges | coreutils/lib/hash.c:837-838 | and always with is_n_buckets |
| HashCapacity.DefaultGrowthEnlarges | coreutils/lib/hash.c:835-845 | which holds for the default tuning and every size |
| HashCapacity.GrowthCanStall | coreutils/lib/hash.c:322-347 | tuning that check_tuning accepts can leave a growing table at its size |
| HashSizing.SizeIsLeast | coreutils/lib/hash.c:349-365 | the size is the least prime from 11 on, of eight bytes each within a word, that pays for the candidate; 0 exactly if there is none |
| HashSizing.CheckedExactly | coreutils/lib/hash.c:322-347 | the values let through, by their bounds, and the defaults that replace all others |
| HashSizing.InitializeExactly | coreutils/lib/hash.c:401-453 | a new table is had exactly if the tuning is within its bounds, a prime pays for the candidate and two requests are granted; it is empty and has the least such number of buckets |
| HashSizing.SizeRefusedExactly | coreutils/lib/hash.c:826-842 | when a table that should grow can not: in terms of thresholds, factor and primes |
| HashSizing.InsertGrowsExactly | coreutils/lib/hash.c:826-874 | a new entry goes into a table above both growth thresholds only after it got the least number of buckets that pays for what the growth factor asks; any other table keeps its buckets, and takes the entry exactly unless a node is needed and can not be had |
| HashSizing.CrowdedIsEnlarged | coreutils/lib/hash.c:826-851 | such a table is enlarged exactly unless its buckets already pay for what is asked |
| HashSizing.AlwaysEnlarged | coreutils/lib/hash.c:826-851 | so no entry goes into a table above its thresholds that was not enlarged, with the default tuning and with is_n_buckets |
| HashSizing.DeleteShrinksExactly | coreutils/lib/hash.c:889-931 | a deletion shrinks a table exactly if it empties a bucket and leaves fewer in use than both shrink thresholds ask, to the least number that pays; if that is refused the buckets stay and the recycled nodes are given up |
| HashTable.HashTable.FreeEntry | coreutils/lib/hash.c:564-569 | a node of nobody's goes to the front of the free list, which stays linked and without repetition |
| HashTable.HashTable.AllocateEntry | coreutils/lib/hash.c:546-560 | the first recycled node, or else one from the allocator, belongs to nobody afterwards; null exactly if both fail |
| HashTable.HashTable.LinkBehind | coreutils/lib/hash.c:860-863 | relinking two pointers puts the datum second in its chain and leaves all other chains alone |
| HashTable.HashTable.PromoteSecond | coreutils/lib/hash.c:597-607 | copying the first overflow node into the record removes the head's datum from the chain; the node is then nobody's |
| HashTable.HashTable.UnlinkBehind | coreutils/lib/hash.c:622-630 | bending one pointer removes entry k + 1 of the chain and nothing else |
| HashTable.MoveNode | coreutils/lib/hash.c:660-685 | one overflow node changes tables: relinked behind a head that is taken, its datum alone moved and the node recycled otherwise |
| HashTable.MoveBucketOf | coreutils/lib/hash.c:649-720 | one round of the loop is the round of the model, on both tables, the shared free list and the allocator |
| HashTable.TransferEntries | coreutils/lib/hash.c:644-722 | the whole pass is that of the model; no node is ever in two chains or in a chain and the free list |
| HashTable.FindEntry | coreutils/lib/hash.c:577-637 | the walk along the chain finds what the model's lookup finds, with its slot |
| HashTable.FindAndUnlink | coreutils/lib/hash.c:577-637 | found and deleted: the chain loses that entry and the free list gains the node, if there was one |
| HashTable.ComputeBucketSize | coreutils/lib/hash.c:352-365 | the size of the model: the least prime that pays for the candidate, 0 exactly if there is none |
| HashTable.HashRehash | coreutils/lib/hash.c:731-802 | the pointer code, rollback included, does what the model does; the abort is not reached |
| HashTable.ForwardLeavesEnough | coreutils/lib/hash.c:782-788 | after a failed forward pass data and nodes are such that the rollback succeeds |
| HashOperations.AddEntry | coreutils/lib/hash.c:853-873 | the end of hash_insert is that of the model |
| HashOperations.GrowIfNeeded | coreutils/lib/hash.c:826-851 | growing is that of the model, and the slot is that of the new table |
| HashOperations.HashInsert | coreutils/lib/hash.c:809-874 | the result and the whole new table are those of the model, counters exact |
| HashOperations.HashLookup | coreutils/lib/hash.c:120-137 | answers the entry the model's lookup answers |
| HashOperations.HashDelete | coreutils/lib/hash.c:879-931 | the result and the whole new table are those of the model, counters exact |
| HashOperations.HashClear | coreutils/lib/hash.c:458-493 | all chains become empty, all overflow nodes are recycled, and the data freer gets the data bucket by bucket, overflow first |
| HashOperations.FreesAll | coreutils/lib/hash.c:464-489 | the data freer gets every datum of the table once, and nothing else |
| HashOperations.FreedInOrder | coreutils/lib/hash.c:464-489 | bucket by bucket, the overflow entries in their order and then the head |
| HashOperations.HashInitialize | coreutils/lib/hash.c:401-453 | a valid empty table with the least number of buckets that pays, or null exactly if the tuning is out of bounds, no prime pays or one of two requests is refused |
| HashOperations.HashGetFirst | coreutils/lib/hash.c:150-163 | the first entry of the walk, null exactly for an empty table; the abort is unreachable |
| HashOperations.HashGetNext | coreutils/lib/hash.c:168-189 | the entry behind a given one in the walk, within its bucket or in a later one, null for the last |
| HashOperations.HashGetEntries | coreutils/lib/hash.c:194-214 | the walk as far as the buffer reaches, and how far that is |
| HashOperations.HashTableOk | coreutils/lib/hash.c:74-100 | true exactly if both counters agree with the chains |
| HashOperations.OnlyOnce | coreutils/lib/hash.c:168-189 | each entry occurs once in the walk, so that "the next one" is well defined |
| Digits.TextParses | coreutils/lib/inttostr.c:6-33 | parsing the text of an integer gives it back, and the text has no leading zero |
| Digits.LogBound | coreutils/lib/intprops.h:47-50 | log10(2) < 146/485, as 2^485 < 10^146 |
| Digits.PowerOfTwoDigits | coreutils/lib/intprops.h:51-53 | 2^m has at most floor(146 m / 485) + 1 digits, for every m |
| Digits.TextFits | coreutils/lib/intprops.h:51-57 | the text of every value of every width fits INT_STRLEN_BOUND |
| Digits.IntToStr | coreutils/lib/inttostr.c:10-33 | the digits written backwards are the number's text, and the pointer never passes the buffer, for every width |
| HumanSpec.RoundIsRight | coreutils/lib/human.c:146-150 | rounding is up, down, or to the nearest with ties to even, and determined by that |
| HumanSpec.ShownMonotone | coreutils/lib/human.c:255-319 | larger numbers are never shown as smaller ones, across the switch at 10, the roll-over and the last power |
| HumanSpec.ShownByScaling | coreutils/lib/human.c:259-271 | the recursive rule shows the locally rounded number in units of the scaled power |
| Human.TellsOnce | coreutils/lib/human.c:146-150 | amt, tenths and the four-valued flag are determined by the number |
| Human.OverflowTest | coreutils/lib/human.c:178-185 | amt / multiplier gives n back exactly if the product did not wrap |
| Human.DivisorTells | coreutils/lib/human.c:189-197 | without wrap the remainders give the digit and the flag of the true quotient |
| Human.DivisorTellsOnWords | coreutils/lib/human.c:189-197 | on 64-bit words they do so exactly when neither product wraps |
| Human.WrappedTenthsMislead | coreutils/lib/human.c:192-196 | an input where they wrap and the nearest number is not shown, while the ceiling is |
| Human.FloorIsShownRight | coreutils/lib/human.c:189-198 | rounding down is right whatever wraps |
| Human.CeilingIsShownRight | coreutils/lib/human.c:189-198 | rounding up is right exactly but for the remainder 2^63, and for 2^62 and 3 * 2^62 if the divisor is above 2^63 |
| Human.NearestIsShownRight | coreutils/lib/human.c:189-198 | rounding to the nearest never goes up where it should not, and is wrong exactly where it should go up and ten times the remainder, wrapped, is neither above five divisors nor equal to them with the quotient odd |
| Human.WrappedShows | coreutils/lib/human.c:301-319 | where remainders wrap the number is below 10 and not scaled, and shown right exactly if the wrapped triple is rounded up when the quotient is to be |
| Human.Adjust | coreutils/lib/human.c:171-198 | integers are used exactly for whole ratios without overflow, and the triple is then faithful unless the remainders wrap |
| Human.IntegerPathExactly | coreutils/lib/human.c:171-198 | integers are used exactly where one block size is a whole multiple of the other and, if n is multiplied, the product fits a word |
| Human.StepTells | coreutils/lib/human.c:261-270 | a pass of the scaling loop keeps amt + tenths + flag faithful to the number divided by the base |
| Human.Scale | coreutils/lib/human.c:255-271 | the loop ends with a faithful triple for the number in units of the greatest fitting power |
| Human.DecideIsExact | coreutils/lib/human.c:273-319 | what is printed is the true number correctly rounded at the printed precision, and what the real-valued rule shows |
| Human.PointShown | coreutils/lib/human.c:289-294 | a point is printed exactly for a scaled number below 10, unless its decimal is zero and zeros are suppressed |
| Human.PrintedReads | coreutils/lib/human.c:292-327 | read as a decimal number the text is the number decided on |
| Human.HumanReadable | coreutils/lib/human.c:132-327 | on the integer path the text in the buffer, read as a decimal number, is the printed number, and that is the true one as the specification shows it exactly if the remainders do not wrap or lead to the same rounding |
| Human.OrderPreserved | coreutils/lib/human.c:255-319 | with the same options and block sizes n <= n' implies that the value shown for n is at most the one for n', wherever both are shown right |
| LazyCycle.ZeroOrPow2 | coreutils/lib/fts-cycle.c:14-18 | the bit trick is true for zero and exactly the powers of two |
| LazyCycle.CycleCheckState.constructor | coreutils/lib/cycle-check.c:14-18 | only the counter is set; the recorded directory is arbitrary |
| LazyCycle.CycleCheckState.CycleCheck | coreutils/lib/fts-cycle.c:111-138 | a call does to the fields, wrap-around included, what the model's step does |
| LazyCycle.CycleCheckState.ReflectChdirUp | coreutils/lib/fts-cycle.h:16-27 | the macro as written changes nothing |
| LazyCycle.Checkpoint | coreutils/lib/fts-cycle.c:121-135 | until something is detected the recorded directory is that of the last call whose number is a power of two |
| LazyCycle.CycleDetected | coreutils/lib/fts-cycle.c:111-138 | if x(i + p) = x(i) from m on, true is answered by call q + p for every power of two q that is at least m and p |
| LazyCycle.CycleDetectedInTime | coreutils/lib/fts-cycle.c:104-110 | so by call P + p with P the least such power, and before call 2 max(m, p) + p |
| LazyCycle.DetectionIsRight | coreutils/lib/fts-cycle.c:115-119 | short of wrap-around true is answered only for a directory of an earlier call |
| LazyCycle.TrueExactly | coreutils/lib/fts-cycle.c:115-138 | true is answered exactly for the recorded directory, which changes nothing, and where the counter wraps |
| LazyCycle.CountsMisses | coreutils/lib/fts-cycle.c:111-138 | behind any detections the counter is the number of calls that answered false, and the recorded directory that of the last whose number was a power of two |
| LazyCycle.CheckpointOffThePath | coreutils/lib/fts-cycle.c:121-135 | the recorded directory need not be on the path: an example with three directories |
| TightCycle.AdLawful | coreutils/lib/fts-cycle.c:42-54 | hash and comparison of active directories are what the hash table demands |
| TightCycle.EnterIsExact | coreutils/lib/fts-cycle.c:142-173 | given memory for its record, a directory is a cycle exactly when one on the path has its device and inode, which is the one named; otherwise it joins the path unless storage is refused |
| TightCycle.EnterWithMemory | coreutils/lib/fts-cycle.c:142-173 | where n_buckets + 3 requests would be granted and the table can grow, an active directory is a cycle and any other joins the path |
| TightCycle.LeaveSucceeds | coreutils/lib/fts-cycle.c:80-93 | the abort is unreachable, and exactly the directory left is forgotten |
| TightCycle.WalkIsJudged | coreutils/lib/fts-cycle.c:80-173 | on every properly nested walk the table is the path; every entry whose record is granted is marked exactly if it closes a cycle, nothing fails unless storage is refused, and no leaving aborts |
| TightCycle.Fts.EnterDir | coreutils/lib/fts-cycle.c:142-173 | the code marks the entry and changes the table so |
| TightCycle.Fts.LeaveDir | coreutils/lib/fts-cycle.c:80-93 | the code removes the last directory of the path |
| TightCycle.EnterLazily | coreutils/lib/fts-cycle.c:174-182 | without those options an entry is marked, as its own cycle, exactly if cycle_check answers true |
| TightCycle.SetupDir | coreutils/lib/fts-cycle.c:57-76 | the walk begins with an empty path that is the table's content, or with the lazy detector's counter at 0; it fails exactly if one of the two requests for the table, or the one for the state, is refused |
| Utf8.RoundTrip | file/encoding.c:203-273 | decoding the encoding of any code points up to 0x7fffffff gives them back, with the verdict they deserve |
| Utf8.DecodeBehind | file/encoding.c:203-273 | what is encoded is decoded whatever comes behind it, an error included |
| Utf8.EncodingIs | file/ascmagic.c:27-85 | the bytes of each code point, by the table of RFC 2279 |
| Utf8.VerdictExactly | file/encoding.c:203-273 | from the bytes alone: -1 if a lead byte is not followed by what it announces or a continuation byte has no lead, 0 for a control character no text has, 2 if a character of several bytes is complete, else 1 |
| Utf8.CompleteIsExact | file/encoding.c:254-258 | the counted code points are exactly those whose encoding ends within the prefix |
| Utf8.PrefixDecodes | file/encoding.c:254-258 | any prefix of the bytes decodes to exactly the code points complete in it |
| Utf8.ReencodeNoLonger | file/ascmagic.c:128-138 | accepted text can be encoded again and does not grow, longer forms than the shortest included |
| Utf8.OverlongAccepted | file/encoding.c:229-265 | the decoder does take a longer form than the shortest |
| Utf8.ReencodesExactly | file/encoding.c:203-273 | encoding the decoded text gives the bytes back exactly if all of them are accepted, complete and in their shortest form |
| Utf8.SixTimesSuffices | file/ascmagic.c:129-138 | in a buffer of six bytes a code point nothing fails but code points above 0x7fffffff |
| Utf8.EncodeUtf8 | file/ascmagic.c:27-85 | the bytes written are the encoding; NULL exactly where a code point is invalid or does not fit |
| Utf8.FileLooksUtf8 | file/encoding.c:203-273 | the verdict is that of decoding with a buffer or without, length and buffer are what was decoded |
| MagicWalk.LevelIsOpen | file/softmagic.c:1805-1824 | the one number cont_level stands for the set of levels at which an entry would be reached now |
| MagicWalk.CounterRule | file/softmagic.c:1937-1944 | a continuation is reached exactly when its controlling entry fired one level below, or, under the group's first entry, when its level is at most that of entry; nested matches do not matter |
| MagicWalk.PlainIsUndisturbed | file/softmagic.c:970-1010 | only tested entries of type FILE_USE or FILE_INDIRECT can spoil what the levels hold |
| MagicWalk.LevelState | file/softmagic.c:1945-2037 | while no nested match spoils them, an open level holds the flags of the siblings it belongs to and the offset their parent noted |
| MagicWalk.AnyNextEntry | file/softmagic.c:1945-1957 | whatever entry comes next is dealt with as in the tree exactly if all open levels are as the tree has them |
| MagicWalk.NestedMatchIsExact | file/softmagic.c:1958-1994 | after a test that may nest a match that stays so exactly if the nested match left flags and offsets of the open levels to the same effect |
| MagicWalk.TreeSurvivesExactly | file/softmagic.c:1931-2039 | throughout a group whatever comes next is dealt with as in the tree exactly if no nested match has spoiled the levels |
| MagicWalk.CounterIsTree | file/softmagic.c:1931-2039 | with levels that rise from 1, and levels not spoiled, the counter walk reaches, tests and fires what the tree walk does, from the flags level 1 begins with |
| MagicWalk.TestedAtOffset | file/softmagic.c:1945-1949 | under the same conditions each continuation is tested at most once, exactly when the tree tests it, at the offset its parent gives it |
| MagicWalk.RuleIsExact | file/softmagic.c:1800-1824 | in a group entered at any level the tree's rule of reaching holds exactly when the first continuation let through has level 1, or none is |
| MagicFlags.OneArmOfAChain | file/softmagic.c:1950-1957 | of an if/elif/else chain of siblings in the tree at most one arm fires, and none is tested behind one that matched |
| MagicFlags.DefaultFires | file/softmagic.c:1988-1994 | for any flags to begin with: a tested, matching default fires exactly when no other sibling has fired since their parent or the last default passed over, and no flag left over is still in force |
| MagicFlags.ArmIsTested | file/softmagic.c:1950-1994 | an arm of a chain that is reached is tested exactly if no sibling before it was tested and matched without one tested and failed since, and no flag left over says so |
| MagicFlags.OneArmInWalk | file/softmagic.c:1950-1957 | so no arm is tested in the walk behind one that matched, while no nested match spoils the levels |
| MagicFlags.DefaultInWalk | file/softmagic.c:1988-1994 | and a default fires in the walk as in the tree |
| MagicFlags.LeftOverFlagsExactly | file/softmagic.c:1950-1994 | flags left over at level 1 make no difference for any answers short of errors exactly if a `got` meets no default there, and a `last` no arm of a chain that has no negated sibling before it |
| MagicNested.ShelteredIsTree | file/softmagic.c:1931-2039 | if nothing that it or an entry before it depends on can have been touched by a nested match, an entry is tested, fires and is offset as in the tree |
| MagicNested.MisledAt | file/softmagic.c:970-1010 | behind a nested match that leaves x at its level an entry finds x, quiet entries between them keeping it, but for a chain settled by a negated one |
| MagicNested.NestedMatchesExactly | file/softmagic.c:1931-2039 | a first group is walked as the tree for all answers and all nested matches exactly if no default, no entry that adds the offset and no arm of an unsettled chain has a reachable FILE_USE or FILE_INDIRECT entry between it and its controlling entry |
| MagicMatch.ShelteredGroupIsTree | file/softmagic.c:1906-2039 | so the first group that matches is walked in such a list |
| MagicMatch.FreshGroupIsTree | file/softmagic.c:1906-2039 | in a group entered with cont_level 0, while no nested match spoils the levels, all of that holds from clean flags and from the offset the group's own first entry noted |
| MagicMatch.GroupStaysWithin | file/softmagic.c:1858-1904 | a group tests entries of its own, in order; one whose first entry does not match is skipped whole, and the levels are what mget left |
| MagicMatch.RunInOrder | file/softmagic.c:1845-2052 | the whole walk tests each entry at most once, in the order of the list |
| MagicMatch.GroupEndsWalk | file/softmagic.c:2040-2049 | behind a matching group the walk ends exactly if it may not continue and some description was printed, by its first entry, a continuation that fired or an earlier group; and when *returnval is set, nested matches included |
| MagicResult.RunAnswers | file/softmagic.c:1826-2052 | the answer: -1 if the last test made failed, or its entry fired and printing failed or there was no room for the next level; the code of its annotation if it fired and has one, with *returnval 1; else *returnval, which is 1 exactly if it was, if an entry tested sets it, or, no MIME type being asked for, if one that fired has a description |
| MagicMatch.LevelOnlyLeavesZero | file/softmagic.c:1831-1838 | cont_level is 0 up to the first group that matches and never again |
| MagicMatch.StaleFlagsMislead | file/softmagic.c:1925-1931 | a later default without siblings is passed over because of flags left over |
| MagicMatch.NestedMatchIsAnAnswer | file/softmagic.c:1009-1010 | no match shrinks the levels or sets *returnval to anything but 1, so whatever a nested one does is among the answers the oracle may give |
| MagicMatch.NestedMatchClears | file/softmagic.c:1842-1928 | a list of one name that matches and prints nothing clears the flags at level 1 |
| MagicMatch.NestedMatchMisleadsDefault | file/softmagic.c:1988-1994 | behind a FILE_USE that nests such a match a default fires although a sibling has |
| MagicMatch.NestedMatchMisleadsChain | file/softmagic.c:1950-1957 | and below an arm that fired it lets the next arm be tested and fire |
| MagicMatch.SkipGroup | file/softmagic.c:1898-1903 | the skip ends at the next top-level entry, having passed continuations only |
| MagicMatch.MagicSet.FileCheckMem | file/funcs.c:91-112 | room for the level and clean flags at it, all else unchanged |
| MagicMatch.MagicSet.MgetEffect | file/softmagic.c:970-1010 | only the two types that nest a match change the levels, and only FILE_USE changes *returnval |
| MagicMatch.MagicSet.TestContinuation | file/softmagic.c:1958-2038 | one test does to levels, flags, offsets and results what the model's test does, a nested match included |
| MagicMatch.MagicSet.Continuation | file/softmagic.c:1934-2038 | a continuation that is not reached or is an arm not tested leaves all but the level as it is; any other is tested at its offset, and logged |
| MagicMatch.MagicSet.Match | file/softmagic.c:1826-2052 | the nested loops compute the run, its result, the levels and the tests made |
| Canonicalize.SplitJoin | coreutils/lib/canonicalize.c:96-104 | a separator parts the components before it from those behind it |
| Canonicalize.SplitJoined | coreutils/lib/canonicalize.c:96-104 | splitting a name made of components gives the components back |
| Canonicalize.CanonicalIsRender | coreutils/lib/canonicalize.c:41-45 | the canonical names are exactly those that list proper components |
| Canonicalize.LoopIsResolve | coreutils/lib/canonicalize.c:96-231 | in every mode the loop fails or answers the component stack machine's stack; with missing parts allowed it never fails |
| Canonicalize.ModesNest | coreutils/lib/canonicalize.c:145-157 | what a stricter mode accepts the more lenient one accepts with the same answer |
| Canonicalize.LoopFailsExactly | coreutils/lib/canonicalize.c:96-231 | in every mode the loop succeeds exactly if the mode takes each component for what the file system says of the name up to it, and fails with what is wrong with the first it does not take |
| Canonicalize.FailsExactly | coreutils/lib/canonicalize.c:46-252 | so does the whole function, but for a null name, which is EINVAL, an empty one, which is ENOENT, and a missing working directory |
| Canonicalize.AnswerIsCanonical | coreutils/lib/canonicalize.c:46-252 | the answer is canonical and the stack machine's; with missing parts allowed only an empty name or a missing working directory fails |
| Canonicalize.FixedPoints | coreutils/lib/canonicalize.c:96-236 | canonicalising leaves exactly the canonical names as they are |
| Canonicalize.Idempotent | coreutils/lib/canonicalize.c:46-252 | doing it again changes nothing, in any directory |
| Canonicalize.RelativeToDirectory | coreutils/lib/canonicalize.c:68-85 | a relative name means the name behind that of the directory |
| Canonicalize.DotIsNothing | coreutils/lib/canonicalize.c:107-109 | a part `.` can be left out |
| Canonicalize.UpUndoesDown | coreutils/lib/canonicalize.c:110-118 | a part `..` takes back the part before it |
| Canonicalize.UpFromRoot | coreutils/lib/canonicalize.c:110-118 | at the root it can be left out |
| Canonicalize.ExistingExists | coreutils/lib/canonicalize.c:145-230 | every part of an answer in the mode for existing names is there, and a directory unless it is the last |
| Canonicalize.AllButLastExists | coreutils/lib/canonicalize.c:145-157 | in the mode where the last part may be missing, nothing but the last part of an answer is missing, and only for want of the entry |
| Canonicalize.ExistingAnswersAgain | coreutils/lib/canonicalize.c:145-230 | such an answer is answered again, in every mode |
| Canonicalize.BackUp | coreutils/lib/canonicalize.c:110-118 | moving the pointer back to behind a slash pops one component, or stays at the root |
| Canonicalize.Append | coreutils/lib/canonicalize.c:121-143 | the text before the pointer becomes the name of the stack with one component more, NUL behind it |
| Canonicalize.GrowthKeepsInside | coreutils/lib/canonicalize.c:68-143 | the rule by which the buffer grows keeps every write inside exactly if the working directory is shorter than PATH_MAX, or what is first appended to it shorter than PATH_MAX - 1 |
| Canonicalize.Canonicalize | coreutils/lib/canonicalize.c:46-252 | the buffer code answers what the loop over components answers |
| CdfChain.SectorsDistinct | file/cdf.c:504-528 | no sector stands twice in a chain that was counted |
| CdfChain.CyclesHaveNoLength | file/cdf.c:513-518 | a chain that runs into itself is turned down |
| CdfChain.ChainFits | file/cdf.c:519-524 | a counted chain is no longer than there are sector numbers let through |
| CdfChain.LongestChain | file/cdf.c:507-513 | chains of up to 10000 sectors can be counted and no longer ones |
| CdfChain.CountChain | file/cdf.c:504-528 | the one length exactly if all sectors are let through and the limit is kept, else none |
| CdfChain.BoundIsInBytes | file/cdf.c:507-525 | the bound keeps all look-ups of counted chains within the table exactly if its cast makes it that small; below 2^31 it never does |
| CdfChain.OneCopyCrosses | file/cdf.c:816-835 | exactly one short sector number is let through whose copy crosses the end of the container, and all copies of counted chains stay inside exactly if the bound of cdf_count_chain keeps it out |
| CdfChain.ReadSectors | file/cdf.c:547-577 | the loop reads as many sectors as were counted, its bound checks and the truncated-sector branch are never taken, and it succeeds exactly if every sector can be read |
| CdfChain.DataInPlace | file/cdf.c:563-575 | sector i of the chain stands at place i of the buffer |
| CdfChain.DataExactly | file/cdf.c:563-575 | a chain can be read exactly if each of its sectors can |
| CdfChain.SectorReads | file/cdf.c:230-255 | a sector is read exactly if all of it is in the buffer or in the open file, from behind the header |
| CdfChain.BytesOfFile | file/cdf.c:593-604 | byte j of sector i of the buffer is byte (id + 1) * size + j of the file |
| CdfChain.BytesOfContainer | file/cdf.c:816-835 | byte j of short sector i is byte id * size + j of the container |
| CdfChain.ReadLongChain | file/cdf.c:532-582 | success exactly for a counted chain with memory and all sectors readable; the buffer is then their concatenation in chain order |
| CdfChain.ReadShortChain | file/cdf.c:749-792 | the same for short sectors |
| CdfChain.ReadShortTable | file/cdf.c:607-649 | the same for the short sector table |
| Escapes.ByteReadsBack | file/apprentice.c:2884-2916 | each byte but space and backslash is read back from its own text whatever follows, digits after a control byte included |
| Escapes.HexReadsBack | file/apprentice.c:744-760 | every byte, space and backslash included, has a hexadecimal escape that reads back, whatever follows |
| Escapes.OctalEscapes | file/apprentice.c:719-742 | one to three octal digits, as many as there are, are a number in base 8, in one byte |
| Escapes.HexEscapes | file/apprentice.c:744-760 | likewise one or two hexadecimal digits of either case behind an x, which stands for itself without them |
| Escapes.OtherEscapes | file/apprentice.c:644-717 | seven letters stand for control characters, all else for itself, escaped or not, and white space that is not escaped ends the string |
| Escapes.ShownAs | file/apprentice.c:2866-2918 | control characters with a letter are printed with it, printable ones as they are, all others as three octal digits |
| Escapes.ShowReadsBack | file/apprentice.c:633-772 | a text read in front of anything gives its string, and what follows is read as if it stood alone |
| Escapes.DecodeSpecials | file/apprentice.c:653-762 | reading printed text makes no more control bytes and backslashes than the text has backslashes |
| Escapes.ReadsBackExactly | file/apprentice.c:2866-2918 | a string reads back from its text exactly if it has no space and no backslash |
| Escapes.RoundTrip | file/apprentice.c:633-772 | for every buffer size: string and length come back exactly if it fits and has neither |
| Escapes.RoundTripInLine | file/apprentice.c:644-648 | and inside a line, where reading stops at the white space behind it |
| Escapes.StopsBehind | file/apprentice.c:644-768 | reading stops behind the first white space that is not escaped, or one place behind the NUL |
| Escapes.ReadEscape | file/apprentice.c:655-761 | the switch reads one escape as the model does, giving back the character read too far |
| Escapes.ReadString | file/apprentice.c:633-772 | the loop fills the buffer with the string, NUL behind it, and answers the place behind the white space or the NUL that ended it; it fails exactly if the string is too long, and keeps the length, with that of a Pascal string's prefix, in one byte |
| Escapes.ShowString | file/apprentice.c:2866-2918 | the text printed is that of the bytes, in order |
| Ring.TopOfTheStack | coreutils/lib/i-ring.h:13-20 | unless it is popped when empty, the ring holds the top of a stack without bound and pops what that pops |
| Ring.PushForgets | coreutils/lib/i-ring.c:23-33 | a push forgets the oldest element, which it answers, exactly if there is no room |
| Ring.PushElement | coreutils/lib/i-ring.c:23-33 | a push overwrites the oldest element of a full ring and an unused slot, which holds the default, of any other |
| Ring.PopElement | coreutils/lib/i-ring.c:35-47 | a pop takes the newest element and leaves the default in its slot |
| Ring.IRing.constructor | coreutils/lib/i-ring.c:7-16 | an empty ring with the default in every slot |
| Ring.IRing.Push | coreutils/lib/i-ring.c:23-33 | the contents gain the value and forget the oldest if full; the result is what was forgotten or the default |
| Ring.IRing.Pop | coreutils/lib/i-ring.c:35-47 | the contents lose their newest element, which is the result |

## Left out

- hash.c: `hash_free`, statistics, printing, `hash_do_for_each`, `hash_string` and the raw pointer hasher: no invariant across calls beyond those proved.
- HashModel.Tuning: the float fields are real numbers, so rounding of floats is not modelled.
- HashTable.MoveBucketOf: empty buckets are skipped, where the source hands NULL to the hasher.
- HashTable.TransferEntries: likewise.
- HashTable.HashRehash: its caller must not have spoiled the tuning; the source divides by it unchecked.
- HashOperations.HashInsert: a null entry, which aborts, is excluded by the type of entries.
- HashOperations.HashGetNext: stated for an entry that is in the table, as the source asks.
- The hasher and the comparator: any two with slots in range and an equivalence that the hasher respects.
- Human.HumanReadable: the floating-point path, digit grouping and the suffix letters are not modelled; `exact` says which path is taken.
- Human.OrderPreserved: for numbers that are shown right, on the integer path; `Human.HumanReadable` says exactly which.
- The magic number of the cycle check: the two definitions differ, and it is checked by an assertion only.
- LazyCycle.DetectionIsRight: not stated behind a wrap of the 64-bit counter, where the source answers true by design.
- fts.c: the traversal itself is tied to the file system.
- mget, magiccheck, annotations and printing in softmagic.c: each entry has arbitrary answers, a nested match included; the separators printed between descriptions are not modelled.
- MagicMatch.MagicSet.FileCheckMem: a failed realloc leaves the levels as they were, where the source loses them.
- Canonicalize.Canonicalize: symbolic links are not modelled, and its buffer grows as far as needed, the arithmetic of rname_limit being that of `Canonicalize.GrowthKeepsInside`; the working directory is taken to be canonical.
- CdfChain.CountChain: the allocation table is a function on all sector numbers, and byte order is the identity.
- CdfChain.ReadShortChain: the container is a function on all positions the source reads; `CdfChain.OneCopyCrosses` says which lie behind its end.
- cdf_read_sat, cdf_read_dir and the property parser of cdf.c: field copying without an invariant of their own.
- Escapes.ReadString: warnings are not modelled.
- System calls, locale, usage texts, algorithms/*.c and the tables of binutils: no algorithm, or one that adds only easy members.
