# libquo node topology and cooperative allocator sizing, in Dafny

This project models two parts of libquo:

- **Node topology discovery** (`src/quo-mpi.c`). Every rank of an MPI job resolves its host to a network number and gathers everybody's number. It then computes a node "colour" by sorting the list and counting distinct runs (`get_my_color`). It splits the job communicator by colour, keyed by global rank. This gives a node-local rank (`smprank`) and a node size (`nsmpranks`). It all-reduces the "I am node rank 0" indicator into the node count. On the node communicator it gathers two tables: `node_ranks`, the global rank of every node member, and `pid_smprank_map`, the (pid, node rank) records. The `quo_mpi_t` lifecycle is included: init with its error unwinding, teardown, the getters, the pid lookup and the roster copy.
- **The cooperative allocator's sizing** (`src/xpm/quo-xpm.c`). Every node process asks for `local_size` bytes. The sizes are exchanged as `long long`, stored back into a `size_t` array indexed by qid, and summed with `range_sum` into `global_size`. Construction, teardown, `QUO_xpm_allocate`, `QUO_xpm_free` and the `QUO_xpm_view_by_qid` stub are included.

Layout:

- `QuoTypes.dfy`: return codes, the C integer widths of an LP64 target, the C conversions between them, and the plain sum that `range_sum` and the node-count all-reduce compute.
- `Coloring.dfy`: the colour of a network number, defined as the number of distinct smaller numbers. It also holds the comparator as written and the corrected one, the sort, `get_my_color` as a method over an array with its nested loops, and the colour lemmas.
- `NodeSplit.dfy`: what `MPI_Comm_split`, `MPI_Allreduce(MPI_SUM)` and `MPI_Allgather` on the node communicator return, as functions of every rank's contribution. These follow sections 6.4.2, 5.9.6 and 5.7 of MPI-3.1.
- `Topology.dfy`: the whole job as a `World`, meaning every rank's network number and pid. It defines what each rank's node rank, node size, node count, roster and pid map are, and proves what they satisfy.
- `QuoMpi.dfy`: the `quo_mpi_t` object as a class with nullable array fields, plus its operations. Each MPI call is replaced by its result, computed from the `World`. A `Fault` parameter names the one collaborator call that fails, if any.
- `Xpm.dfy`: `range_sum` proved against a recursive sum, and the `quo_xpm_t` object as a class with a `local_sizes` array. It also holds the aggregate as coded and as intended, and the intended half-open view.

## Model

| member | source | states |
|---|---|---|
| QuoTypes.ToU64 | src/xpm/quo-xpm.c:84 | storing a value into a `size_t` keeps it modulo 2^64 and lands in [0, 2^64) |
| QuoTypes.ToI64 | src/xpm/quo-xpm.c:69 | converting to `long long` keeps the value modulo 2^64, within the signed 64-bit range |
| QuoTypes.ToI32 | src/quo-mpi.c:93 | converting to `int` keeps the value modulo 2^32, within the signed 32-bit range |
| QuoTypes.SizeRoundTrip | src/xpm/quo-xpm.c:69-84 | a `size_t` sent as `long long` and stored back as `size_t` is unchanged |
| Coloring.CmpUli | src/quo-mpi.c:89-94 | `cmp_uli`'s result is the unsigned difference of its arguments, reduced to an `int` (congruent modulo 2^32) |
| Coloring.CmpUliAgreesWhenClose | src/quo-mpi.c:89-94 | for 32-bit values less than 2^31 apart, `cmp_uli` returns the true difference |
| Coloring.CmpUliWrapsAt | src/quo-mpi.c:89-94 | two values exactly 2^31 apart each compare below the other |
| Coloring.CmpUliNotAntisymmetric | src/quo-mpi.c:89-94 | the network numbers 0x8100000A and 0x0100000A each compare "less" than the other, so `cmp_uli` is not a valid comparator |
| Coloring.Compare | src/quo-mpi.c:125 | the corrected comparator: negative, zero or positive exactly when the first number is smaller, equal or larger |
| Coloring.CompareAntisymmetric | src/quo-mpi.c:125 | the corrected comparator is antisymmetric |
| Coloring.Insert | src/quo-mpi.c:125 | inserting into a sorted list keeps it sorted and adds exactly that element |
| Coloring.Sort | src/quo-mpi.c:125 | the sort's result is sorted and a permutation of its input |
| Coloring.SortInPlace | src/quo-mpi.c:125 | `qsort` leaves the array sorted and a permutation of what it held |
| Coloring.ValuesSnoc | src/quo-mpi.c:127-133 | appending a number adds it to the set of numbers seen |
| Coloring.PrefixBeforeFirstIsBelow | src/quo-mpi.c:127-133 | in a sorted list, the numbers before the first occurrence of x are exactly the numbers below x |
| Coloring.RunAddsOneValue | src/quo-mpi.c:128-131 | skipping one run of equal numbers adds exactly one distinct value |
| Coloring.GetMyColor | src/quo-mpi.c:115-136 | with the rank's own number in the list, every read is in bounds; the list ends sorted and permuted; the colour is the number of distinct gathered numbers below the rank's own number; a null list gives `QUO_ERR_INVLD_ARG` |
| Coloring.ColorDependsOnlyOnMultiset | src/quo-mpi.c:125 | the colour depends only on the multiset of gathered numbers, not their order |
| Coloring.ColorBelowNodeCount | src/quo-mpi.c:125-134 | a present number's colour lies below the number of distinct numbers |
| Coloring.ColorStrictlyMonotone | src/quo-mpi.c:125-134 | a smaller present number gets a strictly smaller colour |
| Coloring.SameColorIffSameNumber | src/quo-mpi.c:125-134 | two ranks get the same colour if and only if they have the same network number |
| Coloring.ColorsDense | src/quo-mpi.c:125-134 | every colour in 0..D-1 is taken by some rank, where D is the number of distinct numbers |
| Coloring.SingleNodeOneColor | src/quo-mpi.c:125-134 | a job on one node colours every rank 0 and has one distinct number |
| Coloring.IncreasingValuesCount | src/quo-mpi.c:125-134 | a strictly increasing list has as many distinct values as entries |
| Coloring.DisjointJobColorsAreRanks | src/quo-mpi.c:125-134 | when every rank is on its own node, in increasing number order, each rank's colour is its rank |
| NodeSplit.CountMonotone | src/quo-mpi.c:165-168 | the count of same-coloured ranks grows with the rank bound |
| NodeSplit.SplitRankBelowSize | src/quo-mpi.c:165-177 | after the split, 0 <= new rank < new size |
| NodeSplit.CountZeroIff | src/quo-mpi.c:179 | a rank has new rank 0 exactly when no lower rank shares its colour |
| NodeSplit.MembersExact | src/quo-mpi.c:165-168 | the new group lists exactly the ranks of that colour, in increasing order, as many as their count |
| NodeSplit.MembersPrefix | src/quo-mpi.c:165-168 | the members below a bound are a prefix of the members below a larger bound |
| NodeSplit.MemberAtSplitRank | src/quo-mpi.c:165-177 | a rank sits in its new group at the slot given by its new rank |
| NodeSplit.SplitRankOfMember | src/quo-mpi.c:165-177 | the group member at slot k shares the colour and has new rank k |
| NodeSplit.GroupsAgree | src/quo-mpi.c:165-168 | ranks of one colour see one and the same group and size |
| QuoTypes.SumSnoc | src/quo-mpi.c:180-181 | the all-reduced sum over one more rank adds that rank's contribution |
| Topology.NodeRoster | src/quo-mpi.c:298-302 | `node_ranks` has `nsmpranks` entries, each a valid global rank |
| Topology.NodePidMap | src/quo-mpi.c:273-275 | `pid_smprank_map` has `nsmpranks` entries |
| Topology.PidOfFirstMatch | src/quo-mpi.c:325-329 | the lookup returns the pid of the first entry with the requested node rank |
| Topology.PidOfNoMatch | src/quo-mpi.c:325-331 | the lookup finds nothing when no entry has the requested node rank |
| Topology.NodeRankBelowNodeSize | src/quo-mpi.c:165-177 | 0 <= smprank < nsmpranks |
| Topology.NodeSizeCountsSameNumber | src/quo-mpi.c:165-172 | nsmpranks is the number of ranks sharing this rank's network number |
| Topology.RosterShape | src/quo-mpi.c:298-302 | `node_ranks` has `nsmpranks` entries and is strictly increasing; it holds a global rank if and only if that rank shares this rank's network number; it holds this rank at index `smprank` |
| Topology.PidMapShape | src/quo-mpi.c:236-238 | slot k of the pid map holds roster member k's pid and node rank k |
| Topology.PidLookupOnNode | src/quo-mpi.c:317-332 | every node rank in [0, nsmpranks) finds the pid of the roster member with that node rank; any other node rank is not found |
| Topology.NumNodesIsDistinctCount | src/quo-mpi.c:178-184 | nnodes equals the number of distinct network numbers |
| Topology.LeadersCountValues | src/quo-mpi.c:178-184 | over any prefix of ranks, the summed node-rank-0 indicators count the distinct numbers in that prefix |
| Topology.NodeViewsAgree | src/quo-mpi.c:160-168 | ranks sharing a network number compute the same colour, node size, roster and pid map |
| Topology.TwoNodesOfTwo | src/quo-mpi.c:115-136 | network numbers [7, 7, 9, 9] give colours [0, 0, 1, 1] and two nodes |
| QuoMpi.AllgatherAndColor | src/quo-mpi.c:153-162 | after the gather fills the buffer with every rank's network number, the colour computed is this rank's entry of the job's colouring |
| QuoMpi.QuoMpi.constructor | src/quo-mpi.c:335-347 | a new `quo_mpi_t` is zero-filled with both arrays null |
| QuoMpi.QuoMpi.InitSetup | src/quo-mpi.c:203-226 | on success the global rank and size are recorded; a failing MPI query gives `QUO_ERR_MPI` and records neither |
| QuoMpi.QuoMpi.SmprankSetup | src/quo-mpi.c:139-188 | on success smprank, nsmpranks and nnodes are the split rank, split size and node count of the job; each failure gives its own code (`QUO_ERR_OOR`, `QUO_ERR_SYS`, `QUO_ERR_MPI`, or the split's raw MPI code), and the fields written before the failing call keep their new values |
| QuoMpi.QuoMpi.PidSmprankXchange | src/quo-mpi.c:232-289 | on success the map is a fresh array holding this node's pid map; an allocation failure gives `QUO_ERR_OOR` with the map null; a type create or commit failure frees it and leaves it null; a failed gather returns `QUO_ERR_MPI` and keeps the allocated map; a failed type free reports `QUO_ERR_MPI` over a filled map |
| QuoMpi.QuoMpi.NodeRankXchange | src/quo-mpi.c:292-314 | on success `node_ranks` is a fresh array holding this node's roster; on either failure it is null |
| QuoMpi.QuoMpi.LookupWhenReady | src/quo-mpi.c:323-331 | on a fully initialised object the first-match lookup in the pid map finds exactly the node ranks in [0, nsmpranks), each with the pid of the roster member holding it |
| QuoMpi.QuoMpi.Smprank2Pid | src/quo-mpi.c:316-332 | succeeds if and only if some map entry has the node rank, returning the first such entry's pid; otherwise `QUO_ERR_NOT_FOUND` with pid 0; on a fully initialised object it succeeds exactly for node ranks in [0, nsmpranks) and returns the pid of the roster member with that node rank |
| QuoMpi.QuoMpi.Setup | src/quo-mpi.c:366-374 | the four setup steps run in order and stop at the first failure, whose code is returned; on success every field is what the job gives this rank and both tables are fresh arrays |
| QuoMpi.QuoMpi.Xchange | src/quo-mpi.c:369-373 | the pid-map exchange then the roster exchange, stopping at the first failure; on success both tables are fresh arrays holding this node's pid map and roster |
| QuoMpi.QuoMpi.Init | src/quo-mpi.c:350-379 | returns the first failing call's code (`InitRc`) and succeeds exactly when no call fails, and then every field is what the job gives this rank; a failed `MPI_Initialized` returns `QUO_ERR_MPI` and changes no array; any other failure returns that step's code and leaves both arrays released |
| QuoMpi.QuoMpi.Destruct | src/quo-mpi.c:382-402 | both arrays end null, null ones included; the result is `QUO_ERR_MPI` exactly when MPI was initialised and a communicator free failed |
| QuoMpi.QuoMpi.NNodes | src/quo-mpi.c:405-412 | returns nnodes, which on a fully initialised object is the number of distinct network numbers |
| QuoMpi.QuoMpi.NNodeRanks | src/quo-mpi.c:415-422 | returns nsmpranks, which on a fully initialised object is the number of ranks sharing this rank's network number |
| QuoMpi.QuoMpi.NodeRankOf | src/quo-mpi.c:428-435 | returns smprank, which on a fully initialised object is below nsmpranks and is the index of this rank in `node_ranks` |
| QuoMpi.QuoMpi.RanksOnNode | src/quo-mpi.c:438-451 | returns a fresh array equal to the first nsmpranks entries of `node_ranks`, which on a fully initialised object is the node's roster; an allocation failure gives `QUO_ERR_OOR` and no array |
| QuoTypes.SumConcat | src/xpm/quo-xpm.c:56-58 | the sum of a concatenation is the sum of the parts |
| QuoTypes.SumNonNegative | src/xpm/quo-xpm.c:56-58 | a sum of sizes is never negative |
| Xpm.RangeTotalStep | src/xpm/quo-xpm.c:56-58 | one more loop iteration adds `array[i]` modulo 2^64 |
| Xpm.RangeSum | src/xpm/quo-xpm.c:49-61 | `range_sum(a, s, e)` is the sum of `a[s..e)` modulo 2^64, and 0 when s >= e |
| Xpm.RangeTotalAdditive | src/xpm/quo-xpm.c:56-58 | range sums over [lo, mid) and [mid, hi) add up, modulo 2^64, to the range sum over [lo, hi) |
| Xpm.RangeTotalSingle | src/xpm/quo-xpm.c:56-58 | the range sum over one slot is that slot's size |
| Xpm.RangeTotalExact | src/xpm/quo-xpm.c:56-58 | below 2^64 the range sum is the plain sum |
| Xpm.CodedGlobalSizeOmitsLast | src/xpm/quo-xpm.c:88 | `global_size` as coded plus the last participant's size equals the full sum, modulo 2^64 |
| Xpm.CodedGlobalSizeExact | src/xpm/quo-xpm.c:88 | when the sizes fit a `size_t`, `global_size` as coded is the full sum minus the last participant's size |
| Xpm.IntendedGlobalSizeIsSum | src/xpm/quo-xpm.c:88 | the corrected aggregate is the sum of every participant's size |
| Xpm.TwoParticipantsAggregate | src/xpm/quo-xpm.c:88 | sizes [100, 50] give a coded aggregate of 100 and an intended one of 150 |
| Xpm.IntendedView | src/xpm/quo-xpm.c:186-194 | the intended view fails with `QUO_ERR_INVLD_ARG` if and only if the qid range is not 0 <= start <= end <= nqid |
| Xpm.WholeViewIsSegment | src/xpm/quo-xpm.c:186-194 | the intended view of every participant is the whole segment of the intended aggregate size |
| Xpm.ViewsTile | src/xpm/quo-xpm.c:186-194 | adjacent intended views tile with no gap or overlap, modulo 2^64 |
| Xpm.LastViewOverrunsCodedSize | src/xpm/quo-xpm.c:88 | the last participant's intended view starts at the coded `global_size`; when that participant asked for any bytes, the view ends beyond it |
| Xpm.TwoParticipantsViews | src/xpm/quo-xpm.c:186-194 | sizes [100, 50] give the views [0, 100) and [100, 150) and a whole view of 150 bytes, and a reversed range is rejected |
| Xpm.QuoXpm.constructor | src/xpm/quo-xpm.c:116 | a new `quo_xpm_t` is zero-filled |
| Xpm.QuoXpm.MemSegmentCreate | src/xpm/quo-xpm.c:64-92 | a failed buffer allocation gives `QUO_ERR_OOR` and changes nothing; otherwise `local_sizes` holds the exchanged sizes, including this process's own size at its qid, and `global_size` is the coded aggregate; a failed exchange still copies and sums, and returns `QUO_ERR_MPI` |
| Xpm.DestructXpm | src/xpm/quo-xpm.c:95-105 | always succeeds; a null allocator is accepted; the segment and `local_sizes` are released |
| Xpm.ConstructXpm | src/xpm/quo-xpm.c:108-147 | on success the new allocator records the context and the local size, is custodian exactly when its qid is 0, and holds nqid zero sizes; each failure returns its own code and a null allocator |
| Xpm.XpmAllocate | src/xpm/quo-xpm.c:150-176 | a null context or result pointer gives `QUO_ERR_INVLD_ARG` and writes nothing; any later failure stores null; success stores an allocator holding the exchanged sizes and the coded aggregate |
| Xpm.XpmFree | src/xpm/quo-xpm.c:179-183 | freeing, a null allocator included, always succeeds |
| Xpm.ViewByQid | src/xpm/quo-xpm.c:186-194 | returns `QUO_ERR_INVLD_ARG` exactly when the allocator or the view is null, otherwise success; it writes nothing, for any qid range |

## Left out

- `get_netnum` (src/quo-mpi.c:97-112) is a chain of foreign libc calls. Each rank's network number is an opaque natural in the `World`.
- The MPI primitives themselves are communication and concurrency: duplicating, splitting and freeing communicators, creating and freeing datatypes, and the blocking behaviour of the collectives. Only their results are modelled, as functions of the `World`. Whether a call fails is a `Fault` parameter, and at most one call fails per run.
- QuoMpi.QuoMpi.InitSetup collapses the duplicate, size, rank and processor-name calls into one possible failure. It does not record the partial writes of a failure between them. The host name and the communicator handles are not modelled.
- The `QUO_ERR_INVLD_ARG` paths for a null `quo_mpi_t` or null out-parameters in `src/quo-mpi.c` are not modelled, because Dafny's object references are never null there.
- The allocation failure of `quo_mpi_construct` and the diagnostics on standard error are not modelled.
- QuoMpi.QuoMpi.Destruct does not model `free(mpi)`. The object survives in the model, so a second call looks like a no-op, whereas in C it is a double free.
- Xpm.DestructXpm does not model `free(xpm)`, for the same reason: the object survives, so a second call looks like a no-op, whereas in C it is a double free.
- QuoMpi.QuoMpi.PidSmprankXchange does not model `MPI_Type_free` on a type that was never created, which happens after a create failure. Under the single-fault assumption that free succeeds.
- QuoMpi.QuoMpi.SmprankSetup and QuoMpi.QuoMpi.Init do not model C `int` overflow of ranks, sizes and counts. They are unbounded.
- QuoMpi.QuoMpi.Smprank2Pid does not model the `(pid_t)` cast of the stored `long` pid at src/quo-mpi.c:327; pids are unbounded integers throughout.
- QuoMpi.QuoMpi.Smprank2Pid and QuoMpi.QuoMpi.RanksOnNode require the arrays they read to exist, as the source takes for granted of an initialised object.
- Coloring.GetMyColor sorts with the corrected comparator (see Findings). What `qsort` does with the comparator as written is unspecified by C and is not modelled.
- `quo_sm_construct`, `quo_sm_destruct` and the shared-memory backing store are not modelled beyond a flag, because they are OS shared memory not shown in this source. `quo_mpi_get_node_comm` is modelled only by its failure, and its communicator handle is not modelled.
- On a failed size exchange, the buffer contents are a parameter of Xpm.QuoXpm.MemSegmentCreate, because MPI leaves them unspecified.
- `QUO_NO_INIT_ACTION` and quo-hwloc.c are not part of this model. tests/procloc.c is a command-line harness with no logic to model.
- The intended view is a function, Xpm.IntendedView. Xpm.ViewByQid models the stub as written, which computes nothing.

## Findings

| source | as written | input that shows it | evidently intended | confidence | as-written member | corrected member |
|---|---|---|---|---|---|---|
| src/quo-mpi.c:89-94 | the comparator returns the unsigned difference of two `unsigned long` values truncated to `int` | network numbers 0x8100000A and 0x0100000A (10.0.0.129 and 10.0.0.1 after `htonl` on a little-endian host): each compares below the other | a three-way comparison that is negative, zero or positive as the first number is smaller, equal or larger | not executed; with an inconsistent comparator `qsort` need not sort, so `get_my_color` could count runs of a misordered list | Coloring.CmpUliNotAntisymmetric | Coloring.Compare |
| src/xpm/quo-xpm.c:88 | `global_size` sums `local_sizes` over [0, nqid - 1) | node sizes [100, 50] give `global_size` 100 | the sum over [0, nqid), here 150 | not executed | Xpm.CodedGlobalSizeOmitsLast | Xpm.IntendedGlobalSizeIsSum |

The corrected comparator is the one Coloring.Sort uses, so the colour lemmas hold of a truly sorted list. The corrected aggregate is the segment size that the intended views tile: Xpm.WholeViewIsSegment and Xpm.ViewsTile state this. Xpm.LastViewOverrunsCodedSize shows that a segment of the coded size cannot hold the last participant's view. Xpm.QuoXpm.MemSegmentCreate keeps the aggregate as written.
