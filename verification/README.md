# Hodor cluster leader: copy-set metadata computation

This project models the leader side of Hodor's `HodorService`. The service waits until
at least `leastNodeCount` (3) worker nodes are running and then asks for cluster leadership.
When this node becomes leader, it computes the cluster metadata once:

- it groups the running nodes into copy sets (replica groups);
- it splits the job-hash keyspace into one interval per copy set;
- it elects a leader inside each copy set, avoiding nodes that already lead in this term;
- it publishes `{nodes, interval, copySets}`.

`stop()` clears the term's registry of copy-set leaders.

The model is functional. `CopySet` and `HodorMetadata` are immutable datatypes. The leader registry
is a `set<string>` threaded through every election. The three exceptions the callback raises itself
become `Failure` values. The collaborators are inputs of the model, carried in `HodorService.Collaborators`:

- the running-node list;
- `CopySets.buildCopySets`, as a function;
- the assignable job count;
- `queryJobHashIdByOffset`, as a function.

Modules:

- `Results`: `Option`, `Result`, and the three exceptions the callback can raise.
- `JavaString`: `String.compareTo`, and proofs that it is a total order.
- `Sorting`: `servers.sort(...)` as insertion sort. A sorted permutation is unique, so the
  algorithm choice does not matter.
- `LeaderSelection`: `selectLeaderCopySet` and `isCopySetLeader`.
- `Intervals`: the ceiling offset, the boundary sampling and the per-set `dataInterval`.
- `HodorService`: the distribution loop, the leader callback, the quorum loop, `start()` and `stop()`.

## Behaviour of the code as written

The distribution loop computes `setsIndex = setsNum % copySetIps.size()` from the constant
`setsNum`. A loop that cycles through the lists would index by the loop variable `i`; this one
does not, and the model follows the code:

- every record gets the same `id` and the same server list (`HodorService.Distribute`);
- if the builder returns at least one list per node, that list is `copySetIps[0]`
  (`HodorService.WideBuilderUsesFirstList`);
- every copy set has the same servers, so in a fresh term, when that list is repeat-free,
  leadership goes to the sorted servers one after another. Once every server leads, the smallest server leads all
  remaining copy sets (`HodorService.LeadersRotateInFreshTerm`).

## Model

| member | source | states |
|---|---|---|
| JavaString.CompareAntisymmetric | hodor-server/src/main/java/org/dromara/hodor/server/service/HodorService.java:112 | swapping the arguments of `compareTo` negates the result |
| JavaString.Compare | hodor-server/src/main/java/org/dromara/hodor/server/service/HodorService.java:112 | `compareTo`, the order the sort uses: zero exactly when the two node ids are identical; at the first index where they differ, the difference of the two characters there; and the difference of the lengths when one id is a prefix of the other |
| JavaString.LessEqTransitive | hodor-server/src/main/java/org/dromara/hodor/server/service/HodorService.java:112 | the order the servers are sorted by is transitive, so it is a total order together with the antisymmetry lemma and the contract of `Compare` |
| Sorting.Sort | hodor-server/src/main/java/org/dromara/hodor/server/service/HodorService.java:112 | sorting yields an ascending permutation of the server list |
| Sorting.SortedPermutationUnique | hodor-server/src/main/java/org/dromara/hodor/server/service/HodorService.java:112 | two ascending lists with the same elements are equal, so every sorting algorithm gives the same server order |
| Sorting.SortIdempotent | hodor-server/src/main/java/org/dromara/hodor/server/service/HodorService.java:77-112 | sorting the shared server list again leaves it unchanged, so the aliasing of one list by every record is harmless |
| LeaderSelection.FirstFresh | hodor-server/src/main/java/org/dromara/hodor/server/service/HodorService.java:113-118 | the scan stops at the first sorted server that is not a current leader, and finds none only when all of them lead |
| LeaderSelection.SelectLeader | hodor-server/src/main/java/org/dromara/hodor/server/service/HodorService.java:109-125 | fails exactly on an empty list. Otherwise the servers end up sorted and the leader is one of them. If some server is not yet leading, the leader is the least such server and the registry gains exactly that server. If not, the leader is the smallest server and the registry is unchanged. The leader is new to the registry exactly when such a server exists |
| LeaderSelection.LeastIsUnique | hodor-server/src/main/java/org/dromara/hodor/server/service/HodorService.java:113-120 | a set of candidates has one least element, so the contract of `SelectLeader` determines the leader |
| Intervals.Offset | hodor-server/src/main/java/org/dromara/hodor/server/service/HodorService.java:83 | the offset is the ceiling of `jobCount / setsNum`: `(offset-1)*setsNum < jobCount <= offset*setsNum` |
| Intervals.Sample | hodor-server/src/main/java/org/dromara/hodor/server/service/HodorService.java:84-88 | after `count` iterations the boundary list has `count` entries, entry `i` being the hash id at rank `offset*i` |
| Intervals.PlanIntervals | hodor-server/src/main/java/org/dromara/hodor/server/service/HodorService.java:82-88 | exactly `setsNum` boundaries, in loop order, boundary `i` at rank `Offset(jobCount, setsNum) * i` |
| Intervals.DataInterval | hodor-server/src/main/java/org/dromara/hodor/server/service/HodorService.java:91-95 | each set's range starts at its own boundary. Every set but the last also ends at the next boundary. The last set's range is open-ended |
| Intervals.DataIntervalsChain | hodor-server/src/main/java/org/dromara/hodor/server/service/HodorService.java:89-95 | each two-element range ends where the next one begins, so there are no gaps between boundaries |
| Intervals.OffsetSign | hodor-server/src/main/java/org/dromara/hodor/server/service/HodorService.java:83 | the offset is 0 with no jobs and at least 1 otherwise |
| Intervals.RanksBounded | hodor-server/src/main/java/org/dromara/hodor/server/service/HodorService.java:83-86 | every rank requested lies in `[0, jobCount + setsNum)`, so `offset * i` fits a Java `int` when `jobCount + setsNum` does |
| Intervals.RanksAscending | hodor-server/src/main/java/org/dromara/hodor/server/service/HodorService.java:83-86 | ranks never decrease along the copy sets, and strictly increase when there is at least one job |
| Intervals.NoJobsOneBoundary | hodor-server/src/main/java/org/dromara/hodor/server/service/HodorService.java:82-88 | with no jobs every boundary is the hash id at rank 0 |
| Intervals.HundredJobsFourSets | hodor-server/src/main/java/org/dromara/hodor/server/service/HodorService.java:82-88 | 100 jobs over 4 sets: offset 25, boundaries at ranks 0, 25, 50 and 75 |
| Intervals.FewJobsRanksPastLastJob | hodor-server/src/main/java/org/dromara/hodor/server/service/HodorService.java:83-86 | with fewer jobs than copy sets (and at least one job) the offset is 1, so every set from index `jobCount` on asks for a rank at or past the end of the job ordering |
| Intervals.ExactSplitRanksInRange | hodor-server/src/main/java/org/dromara/hodor/server/service/HodorService.java:83-86 | when `setsNum` divides `jobCount` the offset is exactly the quotient and every rank asked for is below `jobCount` |
| HodorService.Distribute | hodor-server/src/main/java/org/dromara/hodor/server/service/HodorService.java:69-79 | the loop fails with a division by zero exactly when the builder returned no lists and the loop runs at least once. Otherwise it yields `count` records, every one with id `setsNum % copySetIps.size()` and that list's servers |
| HodorService.WideBuilderUsesFirstList | hodor-server/src/main/java/org/dromara/hodor/server/service/HodorService.java:69-74 | when the builder returns at least one list per running node, the index `setsNum % copySetIps.size()` is 0, so every record takes `copySetIps[0]` |
| HodorService.AssignOne | hodor-server/src/main/java/org/dromara/hodor/server/service/HodorService.java:90-96 | one iteration fails exactly on an empty server list. Otherwise it keeps the id, sorts the servers and sets the data interval. If some server does not lead yet, the leader is the least such server and the registry gains exactly it; if not, the leader is the first sorted server and the registry is unchanged |
| HodorService.AssignFrom | hodor-server/src/main/java/org/dromara/hodor/server/service/HodorService.java:89-97 | the loop fails exactly when a remaining copy set has no servers. Otherwise every copy set gets its data interval and a leader from its own sorted servers, and the registry only grows |
| HodorService.OnLeader | hodor-server/src/main/java/org/dromara/hodor/server/service/HodorService.java:63-104 | an empty node list raises before anything is built and leaves the registry as it was. The same holds when the builder returns no lists, which raises a division by zero. Otherwise the metadata is published exactly when the selected server list is non-empty. The published `nodes` are the running nodes. There are `max(copySetIps.size(), nodes.size())` boundaries and copy sets. Each boundary is the hash id at the planned rank. Every copy set carries the fixed index, the sorted servers of the list at that index, its data interval and a leader among its servers |
| HodorService.AwaitQuorum | hodor-server/src/main/java/org/dromara/hodor/server/service/HodorService.java:54-58 | the loop stops at the first poll that reports at least `LeastNodeCount` nodes, and keeps waiting while every poll reports fewer |
| HodorService.Start | hodor-server/src/main/java/org/dromara/hodor/server/service/HodorService.java:54-60 | leadership is requested exactly when some poll reported at least 3 running nodes. The metadata computation runs only after that request, and only if this node is elected |
| HodorService.Stop | hodor-server/src/main/java/org/dromara/hodor/server/service/HodorService.java:128-130 | `stop()` empties the registry, dropping every current leader (see `StopResetsSelection`) |
| HodorService.StopResetsSelection | hodor-server/src/main/java/org/dromara/hodor/server/service/HodorService.java:128-130 | after `stop()`, the next election on a non-empty list picks its smallest server, and the registry then holds exactly that server |
| HodorService.RotationStep | hodor-server/src/main/java/org/dromara/hodor/server/service/HodorService.java:109-120 | for a repeat-free server list whose registry holds exactly its first `i` sorted servers, the next leader is the `i`-th sorted server while one remains, and the smallest server afterwards; the registry then holds the first `i + 1` (at most all) sorted servers |
| HodorService.NextUnledIsLeast | hodor-server/src/main/java/org/dromara/hodor/server/service/HodorService.java:113-117 | for a repeat-free server list `S` in sorted order and `i < S.size()`, with the registry holding exactly the first `i` sorted servers, the `i`-th sorted server is the least one not yet leading |
| HodorService.AllLeadAfterExhaustion | hodor-server/src/main/java/org/dromara/hodor/server/service/HodorService.java:113-120 | when the registry holds every server of the list (at least as many elections as servers have run on it), no server is free and the default falls to the smallest |
| HodorService.RotationStepFresh | hodor-server/src/main/java/org/dromara/hodor/server/service/HodorService.java:113-117 | for a repeat-free list in sorted order `S` and `i < S.size()`, with the registry holding exactly the first `i` sorted servers, the election picks `S[i]` and adds exactly that server to the registry |
| HodorService.RotationStepExhausted | hodor-server/src/main/java/org/dromara/hodor/server/service/HodorService.java:113-120 | once the registry holds every server of the list, a further election picks the smallest server and leaves the registry unchanged |
| HodorService.AssignOneRotates | hodor-server/src/main/java/org/dromara/hodor/server/service/HodorService.java:90-96 | one iteration of the leader loop on a repeat-free shared list, after `i` elections, elects the `i`-th sorted server (the smallest once the list is used up) and extends the registry accordingly |
| HodorService.AssignFromRotates | hodor-server/src/main/java/org/dromara/hodor/server/service/HodorService.java:89-97 | when all remaining copy sets share one repeat-free server list `S` and the registry holds exactly the first `i` sorted servers, the leader loop from set `i` on succeeds, gives set `j` the `j`-th sorted server (the smallest once the list is used up), and leaves the registry holding the first `min(copySets.size(), S.size())` sorted servers |
| HodorService.LeadersRotateInFreshTerm | hodor-server/src/main/java/org/dromara/hodor/server/service/HodorService.java:72-104 | in a term starting from an empty registry, with a repeat-free selected list, copy set `i`'s leader is the `i`-th sorted server while one remains, and the smallest server afterwards |

## Left out

- `CopySets.buildCopySets` is not part of this model. Its result is an arbitrary function of the
  running nodes, the replica count (3) and the scatter width (2). The model does not claim
  coverage, replica size or the scatter-width bound. It does not claim that the servers of a
  copy set are among the published nodes. The builder is assumed not to modify the node list it
  receives (the Java code publishes that same list object), and the lists it returns are assumed
  to be sortable in place. None of the lists it returns is assumed to be the node list itself or
  a view of it (such as `subList` or `Lists.partition`): otherwise the sort at line 112 would
  reorder the published `nodes`, which the model publishes in their original order.
- The metadata and node-change listener registrations (lines 52 and 61) have no effect on the
  computation and are not modelled.
- Concurrency and timing are not modelled: the concurrent hash set, the callback running on the
  election primitive's thread, and the 1000 ms sleep. The callback is sequential, so the registry
  is a plain set.
- The leader-election primitive is a boolean input (`elected`). An infinite quorum wait is
  represented by a finite sequence of polled counts. A result of `None` means the loop is still
  waiting after the last poll.
- `registerService.createMetadata` is modelled as the `published` field of the result. Transport
  failures while publishing are not modelled.
- `Math.ceil((double) jobCount / setsNum)` is modelled as integer ceiling division. For `int`
  operands the double quotient is exact enough that the two agree.
- Intervals.RanksBounded: the Java `int` multiplication `offset * i` is not modelled with
  wrap-around. The lemma only shows that no overflow happens while `jobCount + setsNum` fits an
  `int`.
- Java `null` is not modelled. A `null` node list is handled by `CollectionUtils.isEmpty` exactly
  like an empty one. `null` elements and `null` counts are not modelled.
- JavaString.Compare compares Dafny characters, which are Unicode scalar values, while Java compares
  UTF-16 code units. The two orders differ only for characters outside the Basic Multilingual
  Plane, which do not occur in node addresses.
- In Java, sorting the shared list in place also sorts the list inside `copySetIps`. That list is
  not published, so the model does not track it.
- HodorService.AssignFrom: it states that each leader belongs to its servers, but not which
  server is chosen. The exact choice is stated per call by `LeaderSelection.SelectLeader`.
  For a term starting from an empty registry it is stated by
  `HodorService.LeadersRotateInFreshTerm`.
- HodorService.OnLeader: about the registry it states only that it grows. The exact final registry
  is stated by `HodorService.LeadersRotateInFreshTerm`, for a term starting from an empty registry
  with a repeat-free server list.
- HodorService.LeadersRotateInFreshTerm: it covers only terms that start from an empty registry.
  That is the state after construction and after `stop()`.
- No exception beyond the three in `Results.Error` is modelled. Exceptions thrown by the collaborators
  (`getRunningNodes`, `queryAssignableJobCount`, `queryJobHashIdByOffset`, `createMetadata`), by `null`
  servers in `compareTo`, and by sorting an unmodifiable list returned by the builder are left out.
