# Ceph: verified models of nine self-contained cores

This project models nine pieces of the Ceph 14.2.10 repository in Dafny and proves what they promise. `dafny verify dfyconfig.toml` checks all of it.

- **The fusetrace inode cache** (`InodeGraph`, `InodeSession`, `InodeCache`). `InodeCache` has the `Inode` objects on the heap with their two indexes, `dentries` downwards and `parents` upwards, the table `inode_map` and one method per request handler. Both indexes represent one set of links. `InodeSession` is the same cache as a state machine over kernel requests and host answers, and `InodeGraph` the theory of its links: reachability, cycles, paths. The cache trusts the host and the kernel for some things (`Trusted`), and puts an inode below itself if told to (`NoLoop`). Each handler is proved to follow the state machine exactly when the answer can be trusted, each step to keep the name space acyclic exactly when there is no loop, and over every legal session the reference counts equal the entries the kernel holds.
- **Waiting for an rbd device** (`KrbdWait`). The udev handlers are a class that stores devices and accounts for each; `wait_for_mapping` is a method over an arbitrary schedule of polls. Its outcome is a function of the sysfs result and the stream of udev events alone, and the devices it receives (`Consumed`) are a function of the schedule.
- **The performance histogram** (`HistogramAxis`, `PerfHistogram`). Any number of axes, one flat array of wrapping 64-bit counters, mixed-radix indexing, the recursive visit, and the bucketing of values along an axis with the ranges reported for it.
- **The OSD thrasher** (`OsdThrasher`). Four lists changed by random actions. Every random draw is a parameter. Rounds and whole runs are functions of the lists, with the fewest in and live OSDs along the way; the thrasher object is proved to compute them, and what every run keeps is proved about them.
- **The text filter of the state diagram generator** (`StateDiagramFilter`), **the CRUSH location call** of libcephfs (`CrushLocation`), **the copies of the monmap in a monitor's store** (`MonmapStore`), **the scrub wait loop** (`ScrubWait`) and **the monitor thrasher** (`MonThrash`).

`Options` and `Sequences` hold one shared datatype and one shared lemma.

Promises that the code does not keep are stated with the exact condition under which it does:

- A lookup of an uncached name that leads to a cached inode (a second hard link) replaces that inode in the table and loses its count (`InodeCache.Cache.LookupMiss`); so does an inode number that changes under a cached name. The cache stays right if and only if neither happens (`InodeCache.Cache.Lookup`). Forgetting an inode that is not cached leaves a null entry (`InodeCache.Cache.Forget`).
- A map request completes with the image's first bus device only. "The first bus and block pair" is the right description, whatever devices follow, if and only if all bus devices of the image have the first one's numbers (`KrbdWait.FirstPairExactly`).
- Bucket numbers and ranges are computed in 64 bits, without overflow under the conditions of `HistogramAxis.BucketFitsExactly` and `HistogramAxis.RangesFitExactly`. `visit_values` keeps its index in 32 bits: it is free of overflow if and only if the number of counters fits (`PerfHistogram.VisitFits`).
- A discontinuity test kills one OSD without looking at `min_live`. On a cluster with OSDs in to spare every run keeps `min_live` OSDs live if and only if `min_live` is at most 5, or there are more OSDs than `min_live` and `max_dead` together, or nothing else kills and more than `min_live` are live already (`OsdThrasher.LiveFloorExactly`). The count drops during the test and is back after it.
- `test_map_discontinuity` says it revives the OSD it killed; the code revives any dead one. It is the killed one for every draw if and only if none was dead after filling up (`OsdThrasher.TestRevivesTheKilledExactly`); `OsdThrasher.RevivesAnother` is a run with another.
- The comment filter drops a slash at the very end of the text, and is right if and only if there is none (`StateDiagramFilter.RemoveMultilineComments`).
- The CRUSH location buffer reads back as the list if and only if no string contains a NUL (`CrushLocation.GetOsdCrushLocation`).
- The epoch a monitor would start with goes back exactly when an operation is not `Safe` (`MonmapStore.SafeExactly`). Four histories show it: a map injected after a full sync was cut short starts again at 1; a forced sync can lose a commit; a sync cut short after the new map came in is used for one start only; and a map stashed during a sync is not looked at and then lost. What does not go back over ordinary histories is the epoch that is guaranteed however often the monitor restarts, which is the start epoch itself while no sync is pending (`MonmapStore.StartEpochNeverGoesBack`).
- The scrub wait can fail even with everything scrubbed, when the number of placement groups has shrunk (`ScrubWait.FailsThoughScrubbed`). The poll that finds everything scrubbed succeeds if and only if it has more groups than were good at best before, or a retry was left (`ScrubWait.SucceedsExactly`); with a constant number of groups it always does (`ScrubWait.SameCountSucceeds`).
- The monitor thrasher's budget counts killed monitors only. A quorum answers at every moment of a round if and only if the killed and the frozen together stay within the budget (`MonThrash.AnsweringQuorumExactly`); with three monitors, killing one and freezing two leaves nobody to answer (`MonThrash.FreezingBreaksQuorum`). Its option `thrash_many` is described but not read when monitors are sampled; the model follows the code.

## Model

| member | source | states |
|---|---|---|
| `InodeGraph.First` | fusetrace/fusetrace_ll.cc:97-100 | the key that `parents.begin()` gives: every other key comes after it in the order of pairs of name and inode number |
| `InodeGraph.NameLessExactly` | fusetrace/fusetrace_ll.cc:77 | names are ordered at the first place where they differ, a prefix first |
| `InodeGraph.AddKeepsAcyclic` | fusetrace/fusetrace_ll.cc:151-160 | pointing an entry at an inode keeps the name space acyclic if and only if the directory is not the inode or below it |
| `InodeGraph.MovedExactly` | fusetrace/fusetrace_ll.cc:886-889 | after a rename the old slot is empty, a different new one leads to what the old one led to, every other slot is as before |
| `InodeGraph.MoveKeepsAcyclic` | fusetrace/fusetrace_ll.cc:886-889 | a rename keeps it acyclic if and only if it is onto itself or does not move an inode below itself |
| `InodeGraph.ReuseKeepsAcyclic` | fusetrace/fusetrace_ll.cc:196-215 | adding an inode, whatever its number stood for before, keeps it acyclic if and only if it is not its own parent |
| `InodeGraph.Detached` | fusetrace/fusetrace_ll.cc:162-175 | unlinking an inode drops exactly the entries that lead to it and those inside it |
| `InodeGraph.AncestorsShrink` | fusetrace/fusetrace_ll.cc:94-98 | each step of the path recursion goes to an inode with strictly fewer ancestors, so it ends |
| `InodeGraph.PathLeadsBack` | fusetrace/fusetrace_ll.cc:94-109 | a path that is built resolves, name by name from the root, to the inode it was built for |
| `InodeGraph.PathEndsInLeastEntry` | fusetrace/fusetrace_ll.cc:97-101 | the last name is that of the entry with the least key, and the rest is the path of its directory |
| `InodeGraph.PathFailsAtOrphan` | fusetrace/fusetrace_ll.cc:94-109 | no path is built if and only if the chain of first parents tops out at an inode other than the root |
| `InodeSession.StepKeepsAcyclic` | fusetrace/fusetrace_ll.cc:241-942 | every request keeps the name space acyclic if and only if it puts no inode below itself |
| `InodeSession.LookupEffect` | fusetrace/fusetrace_ll.cc:241-308 | a permitted lookup that finds something counts one entry and caches a name that was not; any other changes nothing |
| `InodeSession.ForgetEffect` | fusetrace/fusetrace_ll.cc:310-335 | the count drops; at none left the inode goes with the entries to it and inside it, and nothing else; never the root |
| `InodeSession.MakeEffect` | fusetrace/fusetrace_ll.cc:196-215 | the inode made has the new name and no other, nothing inside, one more entry; all other entries stay |
| `InodeSession.UnlinkEffect` | fusetrace/fusetrace_ll.cc:771-813 | exactly the one entry goes, if the host removed it |
| `InodeSession.RenameEffect` | fusetrace/fusetrace_ll.cc:850-897 | the entry moves if it is cached and the host renamed it; all other entries and all counts stay |
| `InodeSession.LinkEffect` | fusetrace/fusetrace_ll.cc:899-948 | the name is added to the inode and one entry counted; all other entries stay |
| `InodeSession.TrustedLookupHasNoLoop` | fusetrace/fusetrace_ll.cc:278-284 | a lookup that adds a new inode cannot make a loop |
| `InodeSession.SecondNameIsNotTrusted` | fusetrace/fusetrace_ll.cc:278-284 | a concrete cache and a lookup, in order otherwise, that finds a second name of a cached inode |
| `InodeSession.StepKeepsGood` | fusetrace/fusetrace_ll.cc:241-942 | a legal request keeps counts positive, links closed and the name space acyclic |
| `InodeSession.StepAccounted` | fusetrace/fusetrace_ll.cc:291-327 | a legal request keeps the counts equal to the entries outstanding with the kernel |
| `InodeSession.OutstandingIsBalance` | fusetrace/fusetrace_ll.cc:291-327 | while no more is forgotten than was replied, what is outstanding is the plain difference |
| `InodeSession.RunAccounted` | fusetrace/fusetrace_ll.cc:291-327 | the same over every legal sequence of requests |
| `InodeSession.Mounted` | fusetrace/fusetrace_ll.cc:1150-1155 | the state before the first request is good, with the root's one entry accounted for |
| `InodeSession.SessionSafety` | fusetrace/fusetrace_ll.cc:1083-1174 | over every legal session from mount: cached exactly while entries are outstanding, count equal to them, no dangling link, no cycle, every path right |
| `InodeCache.Cache.IndexesAreInverse` | fusetrace/fusetrace_ll.cc:77-80 | an entry leads to a child if and only if the child's parents name that entry and directory |
| `InodeCache.Cache.constructor` | fusetrace/fusetrace_ll.cc:1150-1155 | the cache starts coherent, with the root alone and one reference |
| `InodeCache.Cache.RemoveDentry` | fusetrace/fusetrace_ll.cc:137-149 | both indexes lose exactly that entry and stay coherent; counts unchanged |
| `InodeCache.Cache.AddDentry` | fusetrace/fusetrace_ll.cc:151-160 | both indexes gain exactly that entry, an old one in its place is gone, and they stay coherent |
| `InodeCache.Cache.UnlinkParents` | fusetrace/fusetrace_ll.cc:166-171 | the loop ends because the inode's own map shrinks; exactly the entries leading to it are gone |
| `InodeCache.Cache.UnlinkChildren` | fusetrace/fusetrace_ll.cc:173-175 | the loop ends; exactly the entries inside the inode are gone |
| `InodeCache.Cache.UnlinkInode` | fusetrace/fusetrace_ll.cc:162-175 | exactly the entries from and to the inode are gone, the rest is as before |
| `InodeCache.Cache.RemoveInode` | fusetrace/fusetrace_ll.cc:185-194 | the inode and its links are gone and no inode in the table refers to it |
| `InodeCache.Cache.AddInode` | fusetrace/fusetrace_ll.cc:196-215 | a cached inode of that number is reused with its count and without its old links, else a new one enters with count zero; then it has exactly the new entry |
| `InodeCache.Cache.MakePath` | fusetrace/fusetrace_ll.cc:94-109 | succeeds exactly when the first-parent chain reaches the root, and then gives the base directory and the names of that chain |
| `InodeCache.RenderReadsBack` | fusetrace/fusetrace_ll.cc:94-109 | the string is the base directory, a slash and the names, which can be read back from it |
| `InodeCache.Cache.LookupHit` | fusetrace/fusetrace_ll.cc:265-277 | a second stat leaves the cache coherent if and only if the inode number is the same, and then counts one entry |
| `InodeCache.Cache.LookupMiss` | fusetrace/fusetrace_ll.cc:278-295 | the new inode takes the table entry of its number; this is what the session model asks for if and only if the number was free |
| `InodeCache.Cache.Lookup` | fusetrace/fusetrace_ll.cc:241-308 | follows the session model if and only if the host's answer can be trusted; replies exactly when it gets that far |
| `InodeCache.Cache.Forget` | fusetrace/fusetrace_ll.cc:310-335 | subtracts the entries and removes the inode when none are left; breaks the cache if and only if the inode is unknown |
| `InodeCache.Cache.Make` | fusetrace/fusetrace_ll.cc:555-585 | mknod, and alike mkdir, symlink and create, follow the session model for every answer |
| `InodeCache.Cache.Unlink` | fusetrace/fusetrace_ll.cc:771-813 | unlink, and alike rmdir, follow the session model |
| `InodeCache.Cache.MoveDentry` | fusetrace/fusetrace_ll.cc:886-889 | the new entry replaces what was there and the old one goes, so a rename onto itself drops the entry |
| `InodeCache.Cache.Rename` | fusetrace/fusetrace_ll.cc:850-897 | follows the session model, also over an existing target |
| `InodeCache.Cache.Link` | fusetrace/fusetrace_ll.cc:899-948 | follows the session model if and only if the attributes read back carry the same inode number |
| `InodeCache.Cache.Restat` | fusetrace/fusetrace_ll.cc:363-374 | copying attributes keeps the cache coherent if and only if the number is the same or it is the root |
| `InodeCache.Cache.Serve` | fusetrace/fusetrace_ll.cc:1083-1118 | any legal request keeps the cache valid, does one step of the state machine, and its reply is the traffic that the state machine counts |
| `InodeCache.Cache.Session` | fusetrace/fusetrace_ll.cc:1174 | any legal session keeps the cache valid and ends in the state, and with the traffic, that the state machine reaches |
| `InodeCache.MountAndServe` | fusetrace/fusetrace_ll.cc:1150-1174 | over every legal session from mount: an inode object is in the table exactly while entries the handlers replied are outstanding, its ref is their number, the indexes agree, no cycle, every path right |
| `KrbdWait.FirstBus` | src/krbd.cc:315-322 | the bus device that is remembered belongs to the image; there is none exactly when none was announced |
| `KrbdWait.BusExactly` | src/krbd.cc:56-98 | a device is the bus device of an image if and only if it was added to the rbd bus with that pool, namespace, name and snapshot, an absent namespace and a head snapshot taken into account |
| `KrbdWait.BlockExactly` | src/krbd.cc:323-342 | a block device pairs with a bus device if and only if it was added with that major and, where there is one, that minor number |
| `KrbdWait.FiredGrows` | src/krbd.cc:311-353 | a stream that completes the job still does with more devices after it |
| `KrbdWait.PairCompletes` | src/krbd.cc:311-353 | while all bus devices have the first one's numbers, the job is complete if and only if some bus device and a block device with its numbers have come |
| `KrbdWait.SecondMappingIsIgnored` | src/krbd.cc:316-321 | when they have not, there is a block device that pairs with one of them and does not complete the job |
| `KrbdWait.FirstPairExactly` | src/krbd.cc:311-353 | the two together: the first pair completes the job, whatever follows the bus devices, if and only if these have the same numbers |
| `KrbdWait.OrderDoesNotMatter` | src/krbd.cc:311-353 | with one bus device, every reordering of the same devices completes or not alike, with the same bus device |
| `KrbdWait.UdevHandler.Handle` | src/krbd.cc:311-330 | on a stream that was not complete it answers whether it now is; the stored bus device is never replaced; each device is stored or released once |
| `KrbdWait.UdevHandler.Check` | src/krbd.cc:332-353 | finds a stored block device with the numbers of the bus device exactly when there is one, and names it after the bus device |
| `KrbdWait.UdevHandler.Destroy` | src/krbd.cc:355-363 | after it, the devices released are exactly those received, each once |
| `KrbdWait.PassOver` | src/krbd.cc:272-296 | devices that do not complete the job are received and decide nothing: the first terminal event lies after them |
| `KrbdWait.Settled` | src/krbd.cc:251-298 | what some poll has decided is not changed by later polls |
| `KrbdWait.ThroughExactly` | src/krbd.cc:271-297 | the devices received start the stream, and no fewer of them complete the job |
| `KrbdWait.TerminalExactly` | src/krbd.cc:271-297 | if they complete the job the wait succeeds; if not, an error follows them or nothing does |
| `KrbdWait.OutcomeExactly` | src/krbd.cc:251-298 | the outcome for every schedule in terms of the sysfs result and the devices received |
| `KrbdWait.ReceivedSoFar` | src/krbd.cc:251-298 | what has been received by some poll stays received, and is all once udev has decided |
| `KrbdWait.DrainUdev` | src/krbd.cc:271-297 | receives exactly the devices through the first terminal event of the batch and reports that, or takes in the whole batch |
| `KrbdWait.WaitForMapping` | src/krbd.cc:233-299 | for every schedule the outcome is the sysfs error, or else the first terminal udev event, and neither before the sysfs result; exactly the devices through that event are received, none from the poll on that brings the sysfs error; while it waits it waits on something |
| `KrbdWait.Rescheduled` | src/krbd.cc:251-298 | splitting a batch, or moving the sysfs result from one poll to the next, does not change the outcome |
| `KrbdWait.DoMap` | src/krbd.cc:417-430 | on success the name is that of the image's first bus device among those the schedule makes it receive; in every case exactly those are released, each once |
| `KrbdWait.Unmapper` | src/krbd.cc:745-768 | a busy answer is retried at most twice; busy is reported only if all three answers were |
| `KrbdWait.DoUnmap` | src/krbd.cc:770-782 | a sysfs error is returned, a udev error after a successful write counts as done; exactly the devices the schedule makes it receive are released, each once |
| `HistogramAxis.BucketForAxis` | src/common/perf_histogram.cc:69-91 | the loop and the linear case compute the specified bucket |
| `HistogramAxis.AxisBucketRanges` | src/common/perf_histogram.cc:93-121 | one range per bucket, adjoining, with open ends at the 64-bit limits, also for one or two buckets |
| `HistogramAxis.BucketMatchesRange` | src/common/perf_histogram.cc:69-121 | every 64-bit value has a bucket and lies in the range reported for it |
| `HistogramAxis.RangesArePartition` | src/common/perf_histogram.cc:69-121 | a value lies in a reported range if and only if that bucket counts it |
| `HistogramAxis.RangeWidths` | src/common/perf_histogram.cc:93-121 | ranges adjoin and start at the minimum; inner ones are one quantum wide on a linear axis, and on a logarithmic one as wide as all before together |
| `HistogramAxis.RangesFitExactly` | src/common/perf_histogram.cc:99-117 | computing the ranges is free of 64-bit overflow if and only if the last limit is and the minimum is not the least integer |
| `HistogramAxis.BucketFitsExactly` | src/common/perf_histogram.cc:71-88 | finding a bucket is free of 64-bit overflow if and only if the distance from the minimum fits and, on a linear axis, the quotient is below the maximum; on a logarithmic one, there are at most 64 buckets or the quotient is below 2^62 |
| `PerfHistogram.RawSize` | src/perf_histogram.h:162-168 | the loop computes the number of bucket tuples |
| `PerfHistogram.IndexThenTuple` | src/perf_histogram.h:190-205 | in-range tuples get in-range indices, and the tuple can be recovered from the index |
| `PerfHistogram.TupleThenIndex` | src/perf_histogram.h:190-205 | every index is that of an in-range tuple; with the previous row, a bijection |
| `PerfHistogram.VisitInOrder` | src/perf_histogram.h:211-226 | the visit below an index passes exactly its raw cells, in order, each once |
| `PerfHistogram.VisitIsBalanced` | src/perf_histogram.h:211-226 | levels are entered at their own depth and left when innermost; values come only at full depth |
| `PerfHistogram.VisitIsNested` | src/perf_histogram.h:211-226 | the calls are exactly those that write out the counters as nested arrays |
| `PerfHistogram.NestedIsReadBucket` | src/perf_histogram.h:128-131 | the value at each nested position is the cell that the index arithmetic gives for it |
| `PerfHistogram.VisitFits` | src/perf_histogram.h:211-225 | no value of the 32-bit index overflows during a visit if and only if the number of counters fits |
| `PerfHistogram.CounterWraps` | src/perf_histogram.h:116 | a counter after n increments shows n modulo 2^64 |
| `PerfHistogram.IncRefines` | src/perf_histogram.h:121-124 | one increment of a cell is one more tuple in the multiset that the array represents |
| `PerfHistogram.CountAll` | src/perf_histogram.h:66-72 | counted over all cells, every increment appears exactly once |
| `PerfHistogram.GrandTotal` | src/perf_histogram.h:66-72 | the sum of all counters is the number of increments, modulo 2^64 |
| `PerfHistogram.SumOutAxis` | src/perf_histogram.h:66-72 | summing across any axis gives the histogram of the increments without that axis, modulo 2^64 |
| `PerfHistogram.Histogram.Copy` | src/perf_histogram.h:94-102 | the copy has equal counters and history in an array of its own |
| `PerfHistogram.Histogram.Reset` | src/perf_histogram.h:104-110 | all counters are zero and counting starts from nothing |
| `PerfHistogram.Histogram.IncBucket` | src/perf_histogram.h:119-124 | exactly one cell steps, and the array represents one more tuple |
| `PerfHistogram.Histogram.Inc` | src/perf_histogram.h:112-117 | every tuple of 64-bit values steps exactly the cell of the buckets in whose ranges they lie, and is counted there |
| `PerfHistogram.TupleForExactly` | src/perf_histogram.h:190-205 | the tuple counted is the only one whose ranges hold the values, each on its own axis |
| `PerfHistogram.Histogram.ReadBucket` | src/perf_histogram.h:126-131 | after a reset, the number of increments of that tuple modulo 2^64 |
| `PerfHistogram.Histogram.VisitValues` | src/perf_histogram.h:210-226 | the recursive loop makes exactly the specified calls |
| `PerfHistogram.Histogram.DumpValues` | src/perf_histogram.h:154-159 | a dump shows all counters in raw order, balanced, each where its bucket numbers say |
| `OsdThrasher.PickWeighted` | qa/tasks/ceph_manager.py:870-876 | the action whose half-open interval of prefix sums holds the draw, never one of weight zero, none if and only if the draw reaches the total |
| `OsdThrasher.Thrasher.ChooseAction` | qa/tasks/ceph_manager.py:805-876 | the action lies in its interval among those on offer, its guard holds and its weight is positive |
| `OsdThrasher.OfferedExactly` | qa/tasks/ceph_manager.py:823-868 | each action is on offer exactly under its guard and with its weight |
| `OsdThrasher.OfferedInOrder` | qa/tasks/ceph_manager.py:823-868 | outing is tried first, then killing, bringing in, reviving and the rest |
| `OsdThrasher.Outed` | qa/tasks/ceph_manager.py:401-412 | the OSD moves from in to out, and nothing else changes |
| `OsdThrasher.Thrasher.OutOsd` | qa/tasks/ceph_manager.py:401-412 | does that to the given or drawn OSD; fails exactly on an empty list or a wrong OSD |
| `OsdThrasher.Killed` | qa/tasks/ceph_manager.py:196-212 | the OSD moves from live to dead and, if asked and in, from in to out |
| `OsdThrasher.Thrasher.KillOsd` | qa/tasks/ceph_manager.py:196-212 | does that to the given or drawn OSD; fails exactly on an empty list or a wrong OSD |
| `OsdThrasher.Revived` | qa/tasks/ceph_manager.py:380-393 | the OSD moves from dead to live, and nothing else changes |
| `OsdThrasher.Thrasher.ReviveOsd` | qa/tasks/ceph_manager.py:380-393 | does that to the given or drawn OSD; fails exactly on an empty list or a wrong OSD |
| `OsdThrasher.BroughtIn` | qa/tasks/ceph_manager.py:414-427 | a dead OSD moves from dead to live and stays out; a live one moves from out to in; nothing else changes |
| `OsdThrasher.Thrasher.InOsd` | qa/tasks/ceph_manager.py:414-427 | does that to the drawn OSD; fails exactly when none is out |
| `OsdThrasher.AllUp` | qa/tasks/ceph_manager.py:601-610 | for every sequence of draws both loops end, with nothing dead or out and no OSD lost |
| `OsdThrasher.Thrasher.BringAllUp` | qa/tasks/ceph_manager.py:601-610 | the loops do exactly that, draw by draw |
| `OsdThrasher.Filled` | qa/tasks/ceph_manager.py:780-781 | the loop ends for every sequence of draws, loses nothing, and fails if and only if there are fewer than min_in + 1 OSDs |
| `OsdThrasher.Thrasher.FillIn` | qa/tasks/ceph_manager.py:780-781 | the loop does exactly that, draw by draw |
| `OsdThrasher.Swapped` | qa/tasks/ceph_manager.py:796-803 | the drawn live OSD goes and is marked out, the OSD drawn among the dead and it comes back; as many live as before, one fewer on the way |
| `OsdThrasher.Discontinuity` | qa/tasks/ceph_manager.py:770-803 | with somebody live, fails exactly when it cannot fill up; in OSDs do not fall below min_in, and live ones by at most one on the way |
| `OsdThrasher.Thrasher.TestMapDiscontinuity` | qa/tasks/ceph_manager.py:770-803 | fills up, then kills and marks out the drawn live OSD and revives the drawn dead one, in every case |
| `OsdThrasher.TestRevivesTheKilledExactly` | qa/tasks/ceph_manager.py:770-803 | for distinct OSDs, the killed one is live again for every revive draw if and only if none was dead after filling up |
| `OsdThrasher.RevivesAnother` | qa/tasks/ceph_manager.py:796-803 | a clean-up in which another OSD than the killed one comes back |
| `OsdThrasher.CleanedUp` | qa/tasks/ceph_manager.py:993-1003 | leaves at most max_dead OSDs dead, fails exactly when it tests a discontinuity with too few OSDs, and keeps the in floor |
| `OsdThrasher.Acted` | qa/tasks/ceph_manager.py:1012 | an action under its guard loses nothing, keeps both floors, and only a kill lowers the number of live OSDs |
| `OsdThrasher.ActedExactly` | qa/tasks/ceph_manager.py:1012 | each action moves the OSD its draw falls on between its lists, and nothing else |
| `OsdThrasher.DrawDecides` | qa/tasks/ceph_manager.py:870-876 | the action done is the one in whose interval the draw lies; a draw beyond all of them fails and changes nothing |
| `OsdThrasher.RoundExactly` | qa/tasks/ceph_manager.py:986-1013 | a round cleans up if drawn to and, unless that fails, goes on to an action |
| `OsdThrasher.RunInParts` | qa/tasks/ceph_manager.py:986-1013 | a run is its rounds one after the other up to the first that fails |
| `OsdThrasher.Thrasher.Act` | qa/tasks/ceph_manager.py:1012 | each action moves exactly the drawn OSD between its lists and changes nothing else |
| `OsdThrasher.Thrasher.CleanUp` | qa/tasks/ceph_manager.py:993-1003 | revives down to max_dead and then tests a discontinuity if drawn and more than five are live |
| `OsdThrasher.Thrasher.ThrashOnce` | qa/tasks/ceph_manager.py:986-1013 | one round is the clean-up, if drawn, and then exactly the action that the draw falls on; it fails if and only if one of them does |
| `OsdThrasher.Thrasher.DoThrash` | qa/tasks/ceph_manager.py:970-1014 | the whole run is its rounds in order until one fails, then everything up; it fails at once when nothing is live |
| `OsdThrasher.RunConserves` | qa/tasks/ceph_manager.py:986-1013 | over every run no OSD is lost, and in OSDs never fall below min_in at any moment |
| `OsdThrasher.RunKeepsLive` | qa/tasks/ceph_manager.py:986-1013 | over every run of a safe configuration live OSDs never fall below min_live at any moment |
| `OsdThrasher.LiveFloorBreaks` | qa/tasks/ceph_manager.py:999-1002 | on any other cluster with OSDs in to spare that starts with min_live or more live, a run of kills and one test after which fewer were live at some moment |
| `OsdThrasher.LiveFloorExactly` | qa/tasks/ceph_manager.py:986-1013 | the two together: every run keeps min_live OSDs live if and only if the configuration is safe |
| `OsdThrasher.WholeRunIsSafe` | qa/tasks/ceph_manager.py:970-1014 | all of it for whole runs; a run without an exception ends with every OSD live and in |
| `StateDiagramFilter.StripsLeftmost` | doc/scripts/gen_state_diagram.py:39-62 | removal cuts from the first opening mark through the first closing mark after it, or to the end |
| `StateDiagramFilter.KeepsPlainText` | doc/scripts/gen_state_diagram.py:39-62 | text without opening marks is unchanged |
| `StateDiagramFilter.RemoveMultilineComments` | doc/scripts/gen_state_diagram.py:39-62 | the character-wise filter removes exactly the comments if and only if the text does not end in a slash outside comments; otherwise just that slash is missing |
| `StateDiagramFilter.AccLines` | doc/scripts/gen_state_diagram.py:12-20 | each chunk has one delimiter, at its end, and no line break at its front; but for line breaks chunks and remainder are the input, and just the input where it has none |
| `StateDiagramFilter.DelimitersExactly` | doc/scripts/gen_state_diagram.py:12-20 | semicolons and braces, and nothing else, end chunks |
| `StateDiagramFilter.LeftStrippedExactly` | doc/scripts/gen_state_diagram.py:12-20 | exactly the line breaks at the front are stripped |
| `StateDiagramFilter.ToCharsExactly` | doc/scripts/gen_state_diagram.py:23-29 | the characters of the lines in order |
| `StateDiagramFilter.BlankedExactly` | doc/scripts/gen_state_diagram.py:23-29 | a blank for each line break, every other character as it is |
| `StateDiagramFilter.BalanceCounts` | doc/scripts/gen_state_diagram.py:105-108 | the balance is the number of opening minus that of closing braces |
| `StateDiagramFilter.ContextDepth` | doc/scripts/gen_state_diagram.py:105-108 | over such chunks the counter is the balance of braces |
| `StateDiagramFilter.UncutLineMiscounts` | doc/scripts/gen_state_diagram.py:105-108 | a line that is not cut can be miscounted |
| `StateDiagramFilter.FilteredDepth` | doc/scripts/gen_state_diagram.py:8-62 | for every input the final depth is the brace balance of the text without comments |
| `CrushLocation.ParseImage` | src/libcephfs.cc:1419-1434 | the bytes of a list without NULs read back as that list |
| `CrushLocation.ImageFront` | src/libcephfs.cc:1422-1434 | the bytes of a list are type, NUL, name, NUL of the first pair and then those of the others |
| `CrushLocation.SplitAtNul` | src/libcephfs.cc:1429-1432 | what strcpy copies is what stands before the first NUL |
| `CrushLocation.GetOsdCrushLocation` | src/libcephfs.cc:1406-1443 | all error cases; nothing written past the length given; size query; on success the buffer reads back as the list if and only if there is no NUL in it |
| `CrushLocation.SizeThenFill` | src/libcephfs.cc:1406-1443 | a query returns the bytes the list needs, and a call with that size succeeds with the whole list |
| `MonmapStore.StartsFromNewest` | src/ceph_mon.cc:70-97 | with a committed map, the epoch used is the maximum of that and the stashed one |
| `MonmapStore.ObtainedExactly` | src/ceph_mon.cc:59-119 | which copy is used, contents and all, in every case |
| `MonmapStore.Newest` | src/mon/Monitor.cc:1335-1381 | the backup a sync takes is as new as the committed map, the last backup and the map in use |
| `MonmapStore.NewestExactly` | src/mon/Monitor.cc:1335-1381 | the result is one of the candidates as it stands, the committed map preferred, then the backup |
| `MonmapStore.StepKeepsInv` | src/mon/Monitor.cc:1405-1513 | every operation keeps the last committed version naming a stored map of that epoch, a pending sync its backup, and outside a sync a map in use as new as the committed one |
| `MonmapStore.StoreAfter` | src/mon/Monitor.cc:1405-1513 | what starting, stashing, syncing and finishing leave on disk, key by key |
| `MonmapStore.MapStored` | src/mon/MonmapMonitor.cc:54-94 | a committed or received map is stored under its epoch, other versions stay, and the map from mkfs goes when a newer one comes into use |
| `MonmapStore.InUseAfter` | src/mon/MonmapMonitor.cc:54-94 | which map is in use after each operation |
| `MonmapStore.SafeExactly` | src/ceph_mon.cc:59-119 | the start epoch goes back if and only if the operation is not safe, for every operation on every reachable store, finishing a sync included |
| `MonmapStore.RestartsKeepGuarantee` | src/ceph_mon.cc:59-119 | however often the monitor crashes and starts, it starts with the guaranteed epoch or later |
| `MonmapStore.GuaranteeIsMet` | src/mon/Monitor.cc:734-753 | no better guarantee can be given: some starts come down to it |
| `MonmapStore.GuaranteeExactly` | src/mon/Monitor.cc:1405-1513 | each operation keeps the guarantee if and only if what it brings in, or backs up, is not older |
| `MonmapStore.StartEpochNeverGoesBack` | src/ceph_mon.cc:59-119 | over every ordinary history, with crashes, finished, cut-short and forced syncs anywhere, the guaranteed epoch never goes back; nor the start epoch, if no sync was pending at first |
| `MonmapStore.InjectionsCountUp` | src/ceph_mon.cc:653-677 | each injection raises the committed epoch by one, and the epoch used follows |
| `MonmapStore.ForcedSyncGoesBack` | src/mon/Monitor.cc:2471-2482 | a history in which a forced sync loses a commit |
| `MonmapStore.InjectAfterCutSyncGoesBack` | src/ceph_mon.cc:653-677 | a history in which an injected map starts again at epoch 1 |
| `MonmapStore.CutAfterReceiptGoesBack` | src/mon/Monitor.cc:734-753 | a history in which a received map is used for one start and then no more |
| `MonmapStore.IgnoredStashIsLost` | src/mon/Monitor.cc:1150-1163 | a history in which a map stashed during a sync is passed over and then lost |
| `MonmapStore.MonitorStore.ObtainMonmap` | src/ceph_mon.cc:59-119 | the branches give the specified map for every store, or ENOENT exactly when there is none |
| `MonmapStore.MonitorStore.InjectMonmap` | src/ceph_mon.cc:653-677 | the map is stored under the next version with that epoch, other versions untouched |
| `MonmapStore.MonitorStore.SyncObtainLatest` | src/mon/Monitor.cc:1335-1381 | the newest of the three candidates |
| `ScrubWait.WaitForScrubs` | qa/tasks/ceph.py:1224-1255 | ends within (PGs + 1) * (retries + 1) polls; succeeds at the first poll with all stamps good unless the retries are exceeded by then, and only so |
| `ScrubWait.GoodCountCounts` | qa/tasks/ceph.py:1231-1237 | the count is the number of later stamps |
| `ScrubWait.BestIsGreatest` | qa/tasks/ceph.py:1238-1240 | the best count is the greatest of the polls so far |
| `ScrubWait.GapIsSinceProgress` | qa/tasks/ceph.py:1238-1242 | the gap is the polls since the last that improved on it |
| `ScrubWait.FailsThoughScrubbed` | qa/tasks/ceph.py:1238-1252 | for every number of retries, polls that fail although the last finds everything scrubbed |
| `ScrubWait.SucceedsExactly` | qa/tasks/ceph.py:1238-1252 | the poll with all stamps good succeeds if and only if it beats the best count so far or a retry is left |
| `ScrubWait.SameCountSucceeds` | qa/tasks/ceph.py:1238-1240 | with a constant number of groups the first poll with all scrubbed succeeds |
| `MonThrash.BudgetIsExact` | qa/tasks/mon_thrash.py:203-211 | killing k monitors leaves a quorum if and only if k is within max_killable |
| `MonThrash.QuorumsIntersect` | qa/tasks/mon_recovery.py:58 | any two quorums share a monitor |
| `MonThrash.MonitorThrasher.ThrashRound` | qa/tasks/mon_thrash.py:237-290 | goes through exactly the moments of kill, freeze, thaw, revive, freeze, thaw, one monitor at a time, and ends with nothing killed or frozen |
| `MonThrash.PartsOfRound` | qa/tasks/mon_thrash.py:237-290 | where each of the six parts of a round ends, and how many moments there are |
| `MonThrash.OneByOne` | qa/tasks/mon_thrash.py:249-290 | each moment takes or gives back the next monitor of the list |
| `MonThrash.MonitorThrasher.DoThrash` | qa/tasks/mon_thrash.py:213-300 | goes through exactly the moments of its rounds in order |
| `MonThrash.UnKilledQuorum` | qa/tasks/mon_thrash.py:237-281 | with maintain_quorum set, the monitors not killed form a quorum at every moment of a drawn round |
| `MonThrash.RunKeepsQuorum` | qa/tasks/mon_thrash.py:213-300 | over every such run the un-killed monitors at any two moments share a member |
| `MonThrash.AnsweringQuorumExactly` | qa/tasks/mon_thrash.py:241-290 | a quorum answers at every moment of a drawn round if and only if killed and frozen together are within the budget |
| `MonThrash.RunAnswersExactly` | qa/tasks/mon_thrash.py:213-300 | the same over every run, round by round |
| `MonThrash.FreezingBreaksQuorum` | qa/tasks/mon_thrash.py:241-265 | a round that can be drawn for three monitors and leaves nobody to answer |

## Left out

- System calls, permission checks, locks and trace output of fusetrace: their results are request parameters; the session loop is single-threaded.
- File descriptors in fusetrace: closing them on reuse and again on release follows no ownership rule to state.
- InodeCache.Cache.Forget: counts are unbounded integers, not C `int`.
- udev, sysfs, keyring and secret handling in krbd, and the enumeration of devices: only the values they yield are kept.
- KrbdWait.WaitForMapping: the sysfs result is taken to be zero or negative, as `safe_write` returns it; a failing `poll` or pipe read, which aborts, is not modelled; that the numbers and names of bus and block devices agree, which the handler asserts, is a precondition.
- HistogramAxis.BucketForAxis, HistogramAxis.AxisBucketRanges: arithmetic is unbounded; BucketFitsExactly and RangesFitExactly say exactly when 64 bits are enough, and what overflow does beyond that is undefined in C++.
- PerfHistogram.Histogram.VisitValues: its index is unbounded; VisitFits says exactly when 32 bits are enough.
- Concurrent increments of the histogram's atomic counters: the model is sequential.
- `test_pool_min_size` of the thrasher: its default weight is zero, and an action of weight zero is never chosen.
- OsdThrasher.PickWeighted: weights and draws are reals, without floating-point rounding.
- Reweighting, pool resizing and the other thrasher actions that leave the four lists alone: one action without effect.
- `remove_single_line_comments` and the context stack of the state diagram generator: a regular expression and a stack on which the same match can be pushed twice.
- CrushLocation.GetOsdCrushLocation: the size is returned unbounded, not cut to `int`.
- The chunks of a full sync that do not bring a committed monmap, a crash between committing a map and erasing the one from mkfs, and building a monmap from configuration when none is stored.
- The other functions of libcephfs, the daemons' start-up code and the rest of the qa scripts: wrappers and command sequences over code outside these files.
