# Verified model of dset

dset keeps named sets of domain names in the kernel, matches DNS packets against them and is driven by a userspace
tool over netlink. This project models its hard parts in Dafny and proves what they promise. Code that updates state
in place is modelled by classes, arrays and loops, proved against value specifications; the promises are then proved
about those specifications. `dafny verify dfyconfig.toml` checks everything.

| module | what it models |
|---|---|
| `Timeout` | entry deadlines in 32-bit jiffies |
| `HashTable`, `HashSet`, `SetCommands` | the resizable timed hash set, its buckets, and add/delete commands with resizing and batches |
| `TimedRuns`, `SetDriver` | the plain timed map that every run of the set refines, and the class driven against it |
| `TableLifetime` | dumpers and the resizer deciding who frees a replaced table, one memory access at a time |
| `BucketDump` | a listing over several messages while the table changes |
| `RegistryModel`, `Registry` | the registry of sets: commands, references by index and interleaved dumps |
| `RegistryDump` | what a dump of all sets lists |
| `StableSort`, `ListSort` | the bottom-up stable sort on a circular doubly linked list |
| `Packet` | flattening a QNAME (section 3.1 of RFC 1035) and probing its suffixes |
| `Jhash` | the two forms of the Jenkins hash |
| `SessionWire`, `Session` | messages of the userspace session, restore-mode collection of commands, error lines |
| `RestoreOnSet` | the messages of a restore delivered to a set |
| `OutBuf` | the output buffer with retry, and sorted listings |
| `Tokens` | splitting a restore line into arguments |
| `NameCache` | the userspace list of set names that follows the kernel |

The main results, by theme:

- The set is a map. Every run of adds, deletes, tests, flushes, collections and resizes answers exactly as a map from
  names to members with true expiry times, and a new member is refused only when the map is full, when a bucket of
  unexpired members is, or when memory ran short. There are never more members than slots, slots are never more than
  maxelem + 3 per row while memory lasts, and a map past its size takes new members only into slots that were left
  behind (`TimedRuns.RunRefines`, `SetDriver.Execute`). A resize keeps contents and leaves no holes; memory accounting
  never goes below zero.
- Everything that interleaves is a step system over all runs. Who frees a replaced table: in every interleaving each
  replaced table is freed (`TableLifetime.NoLeak`), and exactly once if and only if no dumper is overtaken between its
  last decrement and its look at `ref` (`SafeIff`, `QuietSafeIff`, `FreedExactlyOnce`). The registry:
  `RegistryModel.ReachableConsistent`, `AssertionsHold`, `ResumesOnSameSet`, and what a dump of all sets lists whatever
  comes between its steps, `RegistryDump.DumpListsAll`. A listing over several messages, while the set it lists is
  added to, deleted from, flushed, collected and moved to a wider table between any two bucket scans, lists every
  member that stays exactly once: `BucketDump.Dump`, `ListedExactlyOnce`, `MemberListedOnce`.
- What userspace sends is what was asked. Collected restore messages are executed as the commands one by one up to
  the first failing one, whose line is reported (`Session.DsetSession.Restore`), also when the kernel is a set
  (`RestoreOnSet.DeliverAll`, `RestoreAsDelivered`); what it prints is what was printed (`OutBuf`); what it remembers
  is what the kernel has (`NameCache.CacheFollowsKernel`).

## Where the code differs from what is promised

- Writing an element into a used or freed slot copies the element only, and a counter that is not given keeps what the
  slot held (kernel/net/netfilter/dset/domain_set_hash_gen.h:656-671,
  kernel/include/linux/netfilter/dset/domain_set.h:432-440). `TimedRuns.FreshCountersIff` and `SetDriver.AddNew` say
  exactly when a new member starts clean, by the slot the add will choose, and `SetDriver.StaleCounters` is a sequence
  of calls that ends in an inherited byte count. The timed map therefore leaves the counters of a new member open.
- A dumper gives up its count and reads `ref` in two accesses, and the resizer sets `ref` and takes its count in two
  (kernel/net/netfilter/dset/domain_set_hash_gen.h:472-476, 874). `TableLifetime.SafeIff`: a run is safe if and only if
  no table is destroyed while a dumper that brought its count to zero before it was replaced has not yet read `ref`.
  Nothing in the code prevents that. It cannot happen while a resize never begins within a dumper's pair and no count
  goes to zero within the resizer's (`OrderedSafe`); `OvertakenCheck` and `SplitClaim` are runs that break one of the
  two rules once and free the current table.
- `unlikely` is defined as a negation (include/libdset/list_sort.h:97), so the guard at lib/list_sort.c:139 fires
  below the top level and keeps everything in level 0. The sort is correct for either reading; no bound on the number
  of comparisons is claimed.
- The -exist flag of a message is fixed when its header is written (lib/session.c:1718-1727), and may_aggregate_ad does
  not look at it. `Session.SentIsOneByOneIff` is the exact condition under which collecting changes nothing;
  `Session.SharedFlag` is a restore that fails only because its lines were collected.
- A line of a restore that does not parse ends the program without a commit (lib/dset.c:441-479), so the commands still
  being collected are lost: `Session.DsetSession.Restore` says how many, and `Session.LostBeforeBadLine` is the
  smallest case.
- An unclosed quote is reported only if the line does not end in white space (`Tokens.OpenQuote`); with its newline, all
  of the argument the quote is in is lost (`Tokens.LostArgument`).
- The check for too many arguments comes before every further character (lib/dset.c:561-564), so a line of 30
  arguments is refused if more than one white space character follows, as at a carriage return and newline
  (`Tokens.LineReadBack`).
- dset_cache_add never looks at the last entry. A create with -exist of the last set doubles its entry, and after a
  destroy the cache still has it (`NameCache.CreateMirrorsIff`, `NameCache.DoubledEntryStays`).
- A set may come to hold more than maxelem elements: reuse of a slot comes before the check
  (kernel/net/netfilter/dset/domain_set_hash_gen.h:606-634). `HashSet.OverLimitIff` and `DomainSet.Add` are the exact
  condition, read off the table the add finds: an add leaves more than maxelem exactly when there were more, or when
  there were as many and the slot it chooses is a hole below the mark of its bucket. That table is the one before the
  call, unless a full set with timeouts first drops what has expired; then it is the table after that.
  `SetDriver.OverLimit` is a sequence of calls that leaves three elements in a set for two.

## Model

| member | source | states |
|---|---|---|
| Timeout.WrapAgrees | kernel/include/linux/netfilter/dset/domain_set.h:405-409 | within half a range, the wrapped comparison of tick words is the true comparison |
| Timeout.TimeoutSetIsTrueDeadline | kernel/include/linux/netfilter/dset/domain_set.h:411-427 | the stored word is the wrapped true deadline and never reads as permanent |
| Timeout.LifetimeExact | kernel/include/linux/netfilter/dset/domain_set.h:387-427 | for every start tick and timeout: alive for the duration less at most one tick, expired for exactly the following half range, and while alive the reported rest is what is left in whole seconds, at least 1 and at most the timeout |
| Timeout.ClampIsExact | kernel/include/linux/netfilter/dset/domain_set.h:387-403 | the clamp on the timeout is exactly what the conversion to jiffies needs |
| Timeout.LargestConvertible | kernel/include/linux/netfilter/dset/domain_set.h:387-403 | a timeout asked for is cut down to the largest that can be converted, and no further |
| Timeout.PermanentIs | kernel/include/linux/netfilter/dset/domain_set.h:387-427 | an entry without timeout never expires, and is the only kind reported without one |
| HashTable.RepresentsUnique | kernel/net/netfilter/dset/domain_set_hash_gen.h:583-635 | no name is in two used slots, and every used slot is in the bucket its hash selects |
| HashTable.TidySums | kernel/net/netfilter/dset/domain_set_hash_gen.h:389-414 | with at most three holes a bucket, used slots and high-water marks differ by at most three per bucket |
| HashTable.ConsistentFill | kernel/net/netfilter/dset/domain_set_hash_gen.h:595-661 | filling a slot keeps contents, element count, memory size and the bound maxelem + 3 per bucket on slots |
| HashTable.ConsistentClear | kernel/net/netfilter/dset/domain_set_hash_gen.h:720-726 | clearing a slot takes out exactly that entry and one element of the count |
| HashTable.ConsistentDrop | kernel/net/netfilter/dset/domain_set_hash_gen.h:732-735 | freeing a bucket gives back no more memory than was charged for it, so the subtraction cannot wrap |
| HashTable.ConsistentCompact | kernel/net/netfilter/dset/domain_set_hash_gen.h:736-755 | compacting keeps the contents, leaves no hole, and its charge is covered |
| HashTable.CompactedHolds | kernel/net/netfilter/dset/domain_set_hash_gen.h:402-413 | the compacted bucket stores exactly the same entries |
| HashTable.HoldsUnique | kernel/net/netfilter/dset/domain_set_hash_gen.h:774-805 | a bucket stores one map only, so slots decide membership |
| HashSet.DomainSet.constructor | kernel/net/netfilter/dset/domain_set_hash_gen.h:1054-1071 | a new set is empty and consistent at the width given |
| HashSet.RoundsUp | kernel/net/netfilter/dset/domain_set_hash_gen.h:115-129 | the width for a hash size asked for is the next power of two |
| HashSet.CreateSet | kernel/net/netfilter/dset/domain_set_hash_gen.h:1031-1062 | a created set is empty and has the next power of two of rows, at least 64; a hash size above 2^31 is never served |
| HashSet.DomainSet.Flush | kernel/net/netfilter/dset/domain_set_hash_gen.h:274-296 | nothing is left; elements and ext_size are zero and equal to the bucket sizes |
| HashSet.DomainSet.Compact | kernel/net/netfilter/dset/domain_set_hash_gen.h:396-411 | the copy holds the used slots in order in an array one block smaller |
| HashSet.DomainSet.DropExpired | kernel/net/netfilter/dset/domain_set_hash_gen.h:374-388 | only expired entries of the bucket go, and the holes are counted |
| HashSet.DomainSet.Expire | kernel/net/netfilter/dset/domain_set_hash_gen.h:360-417 | what is left is exactly the unexpired entries |
| HashSet.DomainSet.Add | kernel/net/netfilter/dset/domain_set_hash_gen.h:561-686 | the entry of that name is written into its own, the first reusable or a new slot, with the exact answer (success, exists, full, no memory, needs resize); others are kept unless expired; the set then holds what it held after dropping what had expired, and one element more exactly if the add succeeded in a slot not in use; it holds more than maxelem exactly when it did before or was at maxelem and the slot was a hole; an add at capacity adds no slot; a resize is asked for only with room in the set and 12 unexpired members |
| HashSet.OverLimitIff | kernel/net/netfilter/dset/domain_set_hash_gen.h:606-634 | an add leaves more than maxelem elements exactly when there were more, or as many and the slot it chooses is free below the high-water mark |
| HashSet.AnsweredAgain | kernel/net/netfilter/dset/domain_set_hash_gen.h:626-647 | a wider table is asked for only by a bucket of the largest size without a reusable slot, for a name it does not hold, while the set has room; the set is full only where no slot can be reused |
| HashSet.DomainSet.AddToBucket | kernel/net/netfilter/dset/domain_set_hash_gen.h:598-661 | which slot of an existing bucket is taken (the name's own, else the first free or expired one, else a new one) and what is answered, with only the memory for a larger bucket left to chance |
| HashSet.FillEffect | kernel/net/netfilter/dset/domain_set_hash_gen.h:606-671 | filling the slot an add chose has the effect of an add on the entries |
| HashSet.DomainSet.Del | kernel/net/netfilter/dset/domain_set_hash_gen.h:690-760 | success exactly for an unexpired member, which alone goes; the bucket is freed or compacted as its holes say |
| HashSet.DomainSet.Test | kernel/net/netfilter/dset/domain_set_hash_gen.h:774-805 | yes exactly for an unexpired member whose counters, where the test compares them, are equal, unequal, less or greater as asked; only its counters advance |
| HashSet.MatchesMeans | kernel/net/netfilter/dset/domain_set_core.c:536-552 | an entry answers a test when it has not expired and, in a set with counters, if the test asks for it, packets and bytes satisfy the comparison of numbers asked for |
| HashSet.ComparesNumbers | kernel/net/netfilter/dset/domain_set_core.c:536-552 | exactly one of less, equal and greater holds, and as a counter advances greater stays true and less stays false |
| HashSet.BumpsAddUp | kernel/net/netfilter/dset/domain_set_core.c:549-573 | two matches advance the counters as one with the sums, modulo 2^64, and none where the flag or the set says so |
| HashSet.DomainSet.RehashInto | kernel/net/netfilter/dset/domain_set_hash_gen.h:477-528 | the new table holds exactly the entries of the old one without holes, or the attempt fails and changes nothing |
| HashSet.DomainSet.Resize | kernel/net/netfilter/dset/domain_set_hash_gen.h:437-556 | on success the same contents at a greater width, no holes, ext_size equal to the bucket sizes; on failure the table as it was; it terminates |
| HashSet.RehashedConsistent | kernel/net/netfilter/dset/domain_set_hash_gen.h:529-530 | the finished table carries the set's accounts over |
| SetCommands.CallAd | kernel/net/netfilter/dset/domain_set_core.c:1510-1527 | the add-resize-add loop ends, never in "needs resize", with the effect of one add or delete on what its last try finds; a delete is tried once, an add again at the next reading of the clock only when a bucket of unexpired members without that name asks for a wider table while the set has room, and at most 31 times; full and no-memory answers have their cause |
| SetCommands.TriedPrunes | kernel/net/netfilter/dset/domain_set_core.c:1510-1527 | what the last try finds is what the first found, except entries that had expired at the reading of an earlier try |
| SetCommands.DomainSetAd | kernel/net/netfilter/dset/domain_set_core.c:1570-1622 | a batch takes effect exactly up to the first failing command, each command at the readings of its own clock; that one fails for a reason, and the line reported is its own |
| TimedRuns.RunRefines | kernel/net/netfilter/dset/domain_set_hash_gen.h:360-805 | every run is, answer for answer, a run of the plain timed map; a new member is refused only when the map is full, a bucket of unexpired members is, or memory ran short; members never exceed slots, slots never exceed maxelem + 3 per row unless memory ran short, and past maxelem a member can only take a slot left behind |
| TimedRuns.TickRefines | kernel/include/linux/netfilter/dset/domain_set.h:405-409 | passing time expires in the stored words exactly what expires on the true clock, given a collection every half range |
| TimedRuns.AddRefines | kernel/net/netfilter/dset/domain_set_hash_gen.h:561-686 | an add is an add of the timed map, and changes nothing when refused, which needs a reason |
| TimedRuns.RoomRefines | kernel/net/netfilter/dset/domain_set_hash_gen.h:360-805 | in every step members stay within slots, and slots grow only for a new member of a map that is not full, stay within maxelem + 3 per row unless memory ran short, and rows only double |
| TimedRuns.FreshCountersIff | kernel/net/netfilter/dset/domain_set_hash_gen.h:606-671 | a member added anew to a table has clean counters exactly when each counter is given or zero in the slot the add chooses there |
| SetDriver.Operate | kernel/net/netfilter/dset/domain_set_hash_gen.h:360-805 | each operation of the class has the specified effect; a table that is replaced stays as it was |
| SetDriver.Perform | kernel/net/netfilter/dset/domain_set_hash_gen.h:360-805 | each operation of the class is the corresponding step of the state machine |
| SetDriver.AddNew | kernel/net/netfilter/dset/domain_set_hash_gen.h:561-671 | whether a member added anew starts with clean counters can be read off the table before the call |
| SetDriver.Execute | kernel/net/netfilter/dset/domain_set_hash_gen.h:360-805 | driven by any events from empty, the states of the class are a run of the machine from the start time and the space of the set, and it answers as the timed map, within the same bounds on members and slots |
| SetDriver.StaleCounters | kernel/net/netfilter/dset/domain_set_hash_gen.h:656-671 | unless memory runs out, a member added after a delete starts with the deleted member's bytes |
| SetDriver.OverLimit | kernel/net/netfilter/dset/domain_set_hash_gen.h:606-634 | unless memory runs out, two adds, a delete and two adds leave three elements in a set whose maxelem is two |
| TableLifetime.StepKept | kernel/net/netfilter/dset/domain_set_hash_gen.h:472-556 | every access of dumpers and resizer, in any order, keeps uref equal to the holders and somebody left who will free each replaced table |
| TableLifetime.NoLeak | kernel/net/netfilter/dset/domain_set_hash_gen.h:529-556 | in every interleaving, once all is quiet every replaced table has been freed |
| TableLifetime.DumperNeverStuck | kernel/net/netfilter/dset/domain_set_hash_gen.h:860-881 | in every state that the accesses keep, every dumper can take its next access |
| TableLifetime.ResizerNeverStuck | kernel/net/netfilter/dset/domain_set_hash_gen.h:472-556 | and so can the resizer, except that the end of the grace period waits for exactly the readers of the replaced table |
| TableLifetime.SafeIff | kernel/net/netfilter/dset/domain_set_hash_gen.h:860-881 | a run never frees a table twice, while held or while current, if and only if no table is freed while a dumper that brought its count to zero before it was replaced has not yet read ref |
| TableLifetime.QuietSafeIff | kernel/net/netfilter/dset/domain_set_hash_gen.h:860-881 | a run in which all dumpers finish is safe if and only if no dumper whose last decrement came before its table was replaced reads ref while it is set |
| TableLifetime.FreedExactlyOnce | kernel/net/netfilter/dset/domain_set_hash_gen.h:529-556 | in a safe run, once all is quiet every replaced table has been freed exactly once and the current one never |
| TableLifetime.OrderedSafe | kernel/net/netfilter/dset/domain_set_hash_gen.h:472-476 | if no resize begins within a dumper's decrement and read, and no count goes to zero within the resizer's two writes, the run is safe |
| TableLifetime.OvertakenCheck | kernel/net/netfilter/dset/domain_set_hash_gen.h:872-879 | a run in which a resize begins between a dumper's decrement and its read of ref, in order otherwise, frees the current table |
| TableLifetime.SplitClaim | kernel/net/netfilter/dset/domain_set_hash_gen.h:472-476 | a run in which a dumper lets go between the resizer's two writes, in order otherwise, frees the current table |
| BucketDump.PutBucket | kernel/net/netfilter/dset/domain_set_hash_gen.h:914-937 | a bucket's unexpired entries are put in slot order, or the message is reported full exactly when they do not all fit |
| BucketDump.ListMessage | kernel/net/netfilter/dset/domain_set_hash_gen.h:884-958 | a message lists whole buckets of the dumped table, each as the next scan finds it after all that was to happen before that scan and at its reading of the clock, as many as fit; it moves the cursor or finishes, and fails exactly when the bucket at the cursor does not fit |
| BucketDump.Disturb | kernel/net/netfilter/dset/domain_set_hash_gen.h:437-805 | the operation given, between scans, takes the set to the next moment of the history and leaves the dumped table the set's own, with its contents, or as it was when it was replaced |
| BucketDump.Dump | kernel/net/netfilter/dset/domain_set_core.c:1409-1433 | whatever the message sizes and whatever happens between scans, the history of the set is that of the happenings given, a finished dump is one scan of every bucket in order, each at its place among the happenings and its reading of the clock, in at most as many messages as buckets; an error comes only from a bucket that does not fit |
| BucketDump.ListedCount | kernel/net/netfilter/dset/domain_set_hash_gen.h:884-958 | the buckets listed so far hold a name once, with its entry, if it was an unexpired entry of the table when its bucket was scanned, else not |
| BucketDump.ListedExactlyOnce | kernel/net/netfilter/dset/domain_set_hash_gen.h:884-958 | a finished dump lists a name exactly once, with its entry, if it was an unexpired member of the dumped table when its bucket was scanned, else not |
| BucketDump.MemberListedOnce | kernel/net/netfilter/dset/domain_set_hash_gen.h:884-958 | a member when the dump begins is listed exactly once if no happening deletes, flushes or re-times it and it has not expired at any reading of the clock, whatever else happens |
| BucketDump.StrangerNotListed | kernel/net/netfilter/dset/domain_set_hash_gen.h:884-958 | a name that is no member when the dump begins and is never added is not listed |
| BucketDump.PartedByWiden | kernel/net/netfilter/dset/domain_set_hash_gen.h:529-556 | only a widening parts the dumped table from the set, and it moves the same contents |
| RegistryModel.StepInv | kernel/net/netfilter/dset/domain_set_core.c:1005-1463 | every command, reference and dump step keeps names unique, counts equal to holders and pinned sets in place |
| RegistryModel.ReachableConsistent | kernel/net/netfilter/dset/domain_set_core.c:832-1463 | in every reachable state names and objects are unique, ref equals the outstanding gets of its index and ref_netlink the paused dumps |
| RegistryModel.AssertionsHold | kernel/net/netfilter/dset/domain_set_core.c:626-643 | the assertions in put and in netlink put cannot fail |
| RegistryModel.CommandsPossible | kernel/net/netfilter/dset/domain_set_core.c:832-1224 | commands are possible exactly while no destroy-all is under way, and a reference held can be put then |
| RegistryModel.NeverStuck | kernel/net/netfilter/dset/domain_set_core.c:1259-1463 | a dump can be opened whenever its id is free, and has exactly one kind of next step in every phase |
| RegistryModel.ResumesOnSameSet | kernel/net/netfilter/dset/domain_set_core.c:1363-1396 | a resumed dump goes on with the very set it stopped on |
| RegistryModel.BusySetsStay | kernel/net/netfilter/dset/domain_set_core.c:1032-1071 | no step removes a referenced or dumped set, and only a swap moves one |
| RegistryModel.SwapExchanges | kernel/net/netfilter/dset/domain_set_core.c:1190-1224 | a swap exchanges two objects and leaves names, indices and references as they were |
| RegistryModel.SwapTwice | kernel/net/netfilter/dset/domain_set_core.c:1190-1224 | swapping twice is the identity |
| RegistryModel.CreateAnswers | kernel/net/netfilter/dset/domain_set_core.c:910-985 | a new name gets the first free slot or the first of an extended list, unless that would reach the invalid id or memory is short; an existing one is a success exactly with -exist and the same parameters |
| RegistryModel.DestroyAnswers | kernel/net/netfilter/dset/domain_set_core.c:1052-1067 | a set is destroyed exactly when it is there and neither referenced nor being dumped, and no other |
| RegistryModel.RenameAnswers | kernel/net/netfilter/dset/domain_set_core.c:1141-1164 | a set is renamed exactly when it is there, neither referenced nor being dumped, and the new name is free; nothing else changes |
| RegistryModel.SwapAnswers | kernel/net/netfilter/dset/domain_set_core.c:1190-1224 | two sets are swapped exactly when both are there, of the same features and family, and none is being dumped |
| RegistryDump.DumpListsAll | kernel/net/netfilter/dset/domain_set_core.c:1332-1463 | a dump of all sets that gets through without an error lists every index occupied throughout exactly once, and every set that stays in its place throughout exactly once, whatever creates, destroys, swaps, references and other dumps come between |
| RegistryDump.ListedInOrder | kernel/net/netfilter/dset/domain_set_core.c:1332-1463 | in any run, with errors or without, a dump of all sets lists indices in ascending order, none twice |
| RegistryDump.DumpListsOne | kernel/net/netfilter/dset/domain_set_core.c:1288-1463 | everything a dump of a named set lists is at the index where the name was found, at most once; without an error it is listed exactly once, and if the set stays in its place it is that very set |
| RegistryDump.LookFinds | kernel/net/netfilter/dset/domain_set_core.c:1363-1396 | while the set is there and no destroy-all is under way, every look of a dump of one set finds it |
| Registry.SetNet.FindSetAndId | kernel/net/netfilter/dset/domain_set_core.c:807-822 | the first slot of that name, or none |
| Registry.SetNet.FindFreeId | kernel/net/netfilter/dset/domain_set_core.c:832-854 | the first free slot, refusing a name in use |
| Registry.SetNet.CreateSet | kernel/net/netfilter/dset/domain_set_core.c:864-985 | the new registry is that of the model's create, growth included |
| Registry.SetNet.DestroySet | kernel/net/netfilter/dset/domain_set_core.c:1052-1067 | the new registry is that of the model's destroy |
| Registry.SetNet.DestroyAllCheck | kernel/net/netfilter/dset/domain_set_core.c:1032-1042 | destroy-all begins exactly when no set is referenced or dumped |
| Registry.SetNet.DestroyAllNext | kernel/net/netfilter/dset/domain_set_core.c:1043-1048 | one slot of destroy-all |
| Registry.SetNet.DestroyAll | kernel/net/netfilter/dset/domain_set_core.c:1032-1050 | nothing is destroyed if any set is referenced or dumped, else no set is left; the whole command is a run of the model |
| Registry.SetNet.RenameSet | kernel/net/netfilter/dset/domain_set_core.c:1141-1164 | the new registry is that of the model's rename |
| Registry.SetNet.SwapSets | kernel/net/netfilter/dset/domain_set_core.c:1190-1224 | the new registry is that of the model's swap |
| Registry.SetNet.GetByIndex | kernel/net/netfilter/dset/domain_set_core.c:707-725 | a get takes one reference on the set at the index |
| Registry.SetNet.PutByIndex | kernel/net/netfilter/dset/domain_set_core.c:734-746 | a put gives one back |
| Registry.SetNet.DumpOpenStep | kernel/net/netfilter/dset/domain_set_core.c:1288-1327 | a dump begins at the named set or at the first slot, or fails without one |
| Registry.SetNet.DumpMessageStep | kernel/net/netfilter/dset/domain_set_core.c:1354-1359 | the reader's next message is the model's step |
| Registry.SetNet.DumpLookStep | kernel/net/netfilter/dset/domain_set_core.c:1363-1396 | one look of a dump at a slot is the model's step |
| Registry.SetNet.DumpListEnd | kernel/net/netfilter/dset/domain_set_core.c:1398-1463 | the end of listing a set in a message is the model's step: paused, finished, or an error that leaves or moves the cursor |
| Registry.SetNet.DumpDoneStep | kernel/net/netfilter/dset/domain_set_core.c:1259-1274 | cancelling a dump releases its set, if it holds one |
| StableSort.OnlyStableSort | lib/list_sort.c:94-107 | the specification of the sort is the only sorted stable permutation |
| StableSort.SortStable | lib/list_sort.c:95-107 | elements the order does not tell apart keep their order |
| StableSort.MergeOfSorts | lib/list_sort.c:132-136 | merging two sorted adjacent blocks sorts their concatenation |
| ListSort.MergeChains | lib/list_sort.c:14-38 | two null-terminated chains become the stable merge of both |
| ListSort.RestoreBackLinks | lib/list_sort.c:72-92 | prev links are restored and the circle is closed through head |
| ListSort.MergeAndRestoreBackLinks | lib/list_sort.c:47-92 | the last merge leaves a well-formed circular list of the merged nodes |
| ListSort.CarryUp | lib/list_sort.c:132-136 | occupied levels are merged into the carried list until an empty one |
| ListSort.Distribute | lib/list_sort.c:121-147 | after distribution the levels hold the input's blocks sorted, the sentinel is empty and the top level is occupied; the guard as it is defined keeps everything in level 0 |
| ListSort.Collect | lib/list_sort.c:149-151 | the levels below the top are merged, lowest first |
| ListSort.SortList | lib/list_sort.c:108-154 | for every total preorder and either reading of the guard, the circle ends as the stable sort of its nodes, next and prev inverse |
| ListSort.SortedStablePermutation | lib/list_sort.c:95-107 | the result is a permutation, sorted, with ties left as they were |
| Packet.Strncpy | kernel/net/netfilter/dset/domain_set_hash_domain.c:85-114 | copies up to a NUL and pads with zeros, and touches nothing else |
| Packet.Flatten | kernel/net/netfilter/dset/domain_set_hash_domain.c:79-91 | the buffer holds the dotted join of the labels, or it is refused exactly when text and terminator exceed 256 |
| Packet.SuffixAt | kernel/net/netfilter/dset/domain_set_hash_domain.c:95-100 | a dot stands exactly before each label after the first, and the text behind it is the name of the remaining labels |
| Packet.Probe | kernel/net/netfilter/dset/domain_set_hash_domain.c:97-110 | each probe finds its element buffer canonical despite reuse and tests that suffix |
| Packet.TestSuffixes | kernel/net/netfilter/dset/domain_set_hash_domain.c:95-110 | suffixes are tried shortest first; only the shortest that matches is touched |
| Packet.TestPacket | kernel/net/netfilter/dset/domain_set_hash_domain.c:69-111 | yes exactly when the name fits and some label-aligned suffix is a matching member |
| Packet.PacketElement | kernel/net/netfilter/dset/domain_set_hash_domain.c:112-116 | add and delete use the whole name, canonically padded |
| Packet.MatchesByLabels | kernel/net/netfilter/dset/domain_set_hash_domain.c:93-111 | in a set of any names, a query matches exactly when its labels end in the labels of a matching member |
| Packet.DottedInjective | kernel/net/netfilter/dset/domain_set_hash_domain.c:79-91 | the dotted text determines the labels |
| Jhash.Mix | kernel/include/linux/jhash.h:35-43 | the macro's assignments are the composed mix |
| Jhash.Final | kernel/include/linux/jhash.h:46-55 | the macro's assignments are the composed final round |
| Jhash.MixBijective | kernel/include/linux/jhash.h:34-43 | the mix is a bijection of the state |
| Jhash.FinalBijective | kernel/include/linux/jhash.h:45-55 | the final round is a bijection of the state |
| Jhash.AbsorbBijective | kernel/include/linux/jhash.h:117-145 | taking in any fixed key of any length is a bijection of the state |
| Jhash.Jhash | kernel/include/linux/jhash.h:70-108 | the loop and the fall-through switch compute the recursive byte form |
| Jhash.Jhash2 | kernel/include/linux/jhash.h:117-145 | the loop and the fall-through switch compute the recursive word form |
| Jhash.FormsAgree | kernel/include/linux/jhash.h:70-145 | on a little-endian machine both forms agree on every number of words and every initval |
| Jhash.KnownHash | kernel/include/linux/jhash.h:70-108 | the hash of the text that the published hash function is documented with is the published value |
| SessionWire.ReadWire | lib/session.c:1802-1849 | the kernel's reading of a finished message gives back the very commands put into it |
| SessionWire.OneItemFits | lib/session.c:1546-1563 | any element allowed by the policy table fits behind the start of a message |
| SessionWire.MaxRestAll | lib/session.c:432-486 | the attributes of an element take at most 660 bytes |
| Session.DsetSession.PutAttr | lib/session.c:1546-1563 | a guarded attribute never pushes the message past the buffer, and is put exactly when the guard allows |
| Session.DsetSession.AddAttrs | lib/session.c:1637-1648 | the attributes present go in in type order, all exactly when they fit |
| Session.DsetSession.AddItem | lib/session.c:1833-1848 | an item goes in whole, or the buffer and the nests are as before |
| Session.DsetSession.BuildMsg | lib/session.c:1710-1880 | the buffer becomes the message of the command, or the old message with one item more, or stays as it was exactly when there is no room |
| Session.DsetSession.Commit | lib/session.c:1890-1932 | the kernel executes what was collected, in order up to the first failing command, whose line is reported, also if the message is refused as a whole; nests are closed and the buffer is empty |
| Session.DsetSession.MayAggregate | lib/session.c:1701-1708 | commands are collected exactly for the same restore-mode command on the same set |
| Session.DsetSession.DsetCmd | lib/session.c:2001-2070 | the command is the next one sent or collected, once, with the flag of its message |
| Session.DsetSession.Restore | lib/dset.c:1324-1360 | a stream is executed exactly up to the first failing command, whose line number is reported; up to a line that does not parse, all but the commands still collected are executed, and none of those is ever reported; with no late -exist, exactly as one by one |
| Session.LostBeforeBadLine | lib/dset.c:441-479 | a collected command followed by a line that does not parse is lost |
| Session.SentIsOneByOneIff | lib/session.c:1718-1727 | collecting changes what the kernel is asked exactly when the first line with -exist joins a message begun before it |
| Session.ExistFromStart | lib/session.c:1718-1727 | with -exist for the whole restore collecting changes nothing |
| Session.SharedFlag | lib/session.c:1701-1727 | two lines that succeed one by one and fail when collected |
| RestoreOnSet.Deliver | kernel/net/netfilter/dset/domain_set_core.c:1570-1622 | the commands of a message are taken by the set one by one, each at the readings of its clock, up to the first it refuses, for a reason, and that command's line is reported; what taking and refusing mean is DeliveredMeans |
| RestoreOnSet.DeliverAll | lib/session.c:1890-1932 | the messages of a restore, sent to a set one after the other, do what their commands do one by one, each at the readings of its clock, up to the first refused, whose line is reported |
| RestoreOnSet.DeliveredMeans | kernel/net/netfilter/dset/domain_set_core.c:1570-1640 | each add taken has made its name a member with the extensions given, each delete taken no member any more; the one refused, with room and memory, is an add of what is there or a delete of what is not, without -exist |
| RestoreOnSet.AddTaken | kernel/net/netfilter/dset/domain_set_core.c:1625-1632 | after an add that is taken the name carries what was given, without -exist it was no unexpired member, and the others stay unless they had expired |
| RestoreOnSet.DelTaken | kernel/net/netfilter/dset/domain_set_core.c:1634-1641 | after a delete that is taken exactly the name is gone; without -exist it was an unexpired member |
| RestoreOnSet.AddRefused | kernel/net/netfilter/dset/domain_set_core.c:1510-1527 | an add is refused as existing only for an unexpired member without -exist, and otherwise only by a full set or for want of memory |
| RestoreOnSet.DelRefused | kernel/net/netfilter/dset/domain_set_core.c:1510-1527 | a delete is refused only without -exist for a name that is no unexpired member, and changes nothing |
| RestoreOnSet.RestoreAsDelivered | lib/dset.c:1324-1360 | a restore whose kernel does what a set did with the messages that carry its commands fails exactly when the set refused one, with that command's line, is cut short exactly by a line that does not parse, and leaves the kernel with what the set held |
| OutBuf.OutBuffer.HandleSnprintfError | lib/session.c:661-693 | the retry pushes out exactly the text before the print, or grows the buffer with the text kept |
| OutBuf.OutBuffer.SafePrintf | lib/session.c:695-714 | a print shorter than the increment is appended to everything printed, whatever is flushed |
| OutBuf.OutBuffer.ListEntry | lib/session.c:735-851 | an entry is appended whole; a sorted listing remembers where it starts |
| OutBuf.OutBuffer.EndSorted | lib/session.c:1005-1027 | the output is the header and then every entry exactly once in alphabetical order |
| OutBuf.OutBuffer.PrintSetDone | lib/session.c:998-1048 | the closing text follows whatever was listed, in alphabetical order or as it came, and all of it is pushed out |
| OutBuf.TextsSorted | lib/session.c:987-1024 | sorting offsets by strcmp of the buffer puts the texts in alphabetical order and loses none |
| OutBuf.StrLeIs | lib/session.c:987-997 | strcmp orders two texts by the first position where they differ, and a prefix first |
| OutBuf.ClosesWhatIsOpen | lib/session.c:1028-1047 | the closing text of XML mode closes exactly the elements that the start of the listing and of the set left open, innermost first |
| Tokens.BuildArgv | lib/dset.c:548-618 | the loop computes the scan of the line |
| Tokens.LineReadBack | lib/dset.c:548-618 | arguments quoted, bare or in pieces of both, with any white space in front, between and behind, are read back without the empty ones, when there are fewer than 30 of them, or 30 with one white space character behind the last |
| Tokens.NoEmptyArgument | lib/dset.c:599-600 | an accepted line has no empty argument, and leaves a slot free |
| Tokens.NewlineOptional | lib/dset.c:548-618 | the newline makes no difference behind a last argument whose quotes are closed |
| Tokens.OpenQuote | lib/dset.c:548-618 | for any rest of a line read in any state, unless there are too many arguments, an unclosed quote is reported exactly when the line does not end in white space |
| Tokens.LostArgument | lib/dset.c:565-595 | the argument in which the last, unclosed quote stands is lost at a line end in white space |
| NameCache.Cache.Add | lib/types.c:49-81 | appended, or refused exactly when the name is before the last entry |
| NameCache.Cache.Del | lib/types.c:92-124 | the first entry of the name is unlinked; without a name the cache is emptied |
| NameCache.Cache.Rename | lib/types.c:135-151 | the first entry of the name is renamed |
| NameCache.Cache.Swap | lib/types.c:162-184 | the names of the two entries are exchanged |
| NameCache.CacheAnswers | lib/types.c:49-184 | an add succeeds unless the name is listed before the last entry, and a delete, rename or swap exactly when every name it needs is listed; a failing one changes nothing |
| NameCache.CreateMirrorsIff | lib/types.c:65-81 | a successful create keeps the cache a mirror exactly when the set was not already the last entry |
| NameCache.DoubledEntryStays | lib/types.c:65-81 | after a repeated create with -exist and a destroy, the cache still has the set |
| NameCache.DestroyMirrors | lib/session.c:1425-1427 | a successful destroy keeps the cache a mirror |
| NameCache.RenameMirrors | lib/session.c:1431-1435 | a successful rename keeps the cache a mirror |
| NameCache.SwapMirrors | lib/session.c:1436-1440 | a successful swap keeps the cache a mirror |
| NameCache.CacheFollowsKernel | lib/session.c:1413-1440 | from empty on, over any run of one client without -exist, destroying all sets included, among references and dumps, the cache is the kernel's map from names to types whenever no destroy-all is under way |

## Left out

- Session.DsetSession.BuildMsg: create, list, rename and swap messages are represented by messages with a set name only; they are sent at once and never collected.
- Session.DsetSession.Restore: the kernel is any deterministic executor of commands that stops at the first failure; RestoreOnSet.RestoreAsDelivered has a set in its place, for adds and deletes, where what the attributes of an element mean is a parameter.
- OutBuf.OutBuffer.SafePrintf: a print function that fails, a buffer that cannot grow, and prints as long as the increment abort the listing and are not modelled.
- ListSort.SortList: the comparison is a pure function of the two nodes; the extra comparison calls for the watchdog have no effect.
- Packet.TestPacket: the root name, compressed labels and packets shorter than their name are not modelled; the hash and the comparison see the canonical element as its text.
- TableLifetime.SafeIff: one access is one step and an RCU grace period ends when no dumper is inside its read section; weaker memory orders are not modelled.
- BucketDump.ListMessage: one bucket scan is one moment; slots changing under a lock-free reader inside a bucket are not modelled, and the memory of a replaced table is kept until the dump ends, which is what TableLifetime is about.
- HashSet.DomainSet.Resize: above 31 bits the size of the table is 0 and domain_set_alloc(0) returns a non-null pointer (kernel/net/netfilter/dset/domain_set_core.c:241-248); a table of size zero is taken to fail.
- HashSet.DomainSet.Test: a lock-free reader sees the bucket as it is at one moment.
- Forceadd eviction: sets are created without it; with no reusable slot the code would index slot -1 (kernel/net/netfilter/dset/domain_set_hash_gen.h:626-627).
- The comment extension and its memory accounting, which a resize overwrites (kernel/net/netfilter/dset/domain_set_hash_gen.h:530).
- Set types that are dumped last: no registered type asks for it.
- Allocation is a choice that may fail; kernel timers, locking primitives, netlink transport, module loading, option parsing, most of XML output and help texts are not modelled.
- The slots and the used bits of a bucket live inline in one allocation in the code; here they are two sequence fields of one object.
- Set types other than hash:domain, the iptables match and the traffic-control match.
