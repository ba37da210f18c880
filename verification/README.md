# Ring all-to-all personalized exchange

A Dafny model of `all_to_all_personalized` and its helper `compact_array`
from `alltoall_personalized.c`. There are N ranks on a logical ring. Each
rank holds a row `msg_arr` with one value per destination. After N−1 rounds
of nearest-neighbour transfers, each rank holds in `res_arr[p]` the value
that rank p prepared for it.

Modules, one per concern of the C function:

- `Ring` (`ring.dfy`) covers rank arithmetic: `send_to`, `recv_from`, `origin` and
  `data_index`. Each C `%` has an operand in [0, 2N). There truncating and
  Euclidean remainders agree, and each is reduced to a case split. `Hops` is
  a `%`-free count of forward hops, used as the reference for `origin`.
- `Compaction` (`compaction.dfy`) covers `compact_array`. `Compact` is the effect
  on the whole array and `CompactArray` is the C loop. `RemoveAt` is the
  plain deletion both are measured against.
- `Peer` (`peer.dfy`) covers one rank's work. This is the initial buffer, the self slot,
  and one round: receive, record `res_arr[origin]`, compact. The C buffer
  keeps its N−1 physical entries. A receive overwrites only the first
  `msg_size` of them, and the stale tail is kept as in C. `res_arr` is a
  sequence of `Option<int>`, where `None` marks a slot not yet written.
- `Exchange` (`exchange.dfy`) runs every rank in lockstep. In round `i`, rank q
  receives the first `N − i` entries of its predecessor's buffer. `DestAt`
  is a closed form for the destination of each live slot. `PeerInv` is the
  round invariant, and `ExchangeAll` proves conservation: peer q's
  `res_arr[p]` equals peer p's `msg_arr[q]`.

The C function does not validate its arguments. The model states the same
assumptions as preconditions: N ≥ 1, a rank in [0, N), and rows of length N.
It does not add an argument-error path.

## Model

| member | source | states |
|---|---|---|
| Ring.SendTo | alltoall_personalized.c:95 | `send_to` is a rank, exactly one hop ahead of `rank` (zero hops when N = 1) |
| Ring.RecvFrom | alltoall_personalized.c:106 | `recv_from` is a rank, exactly one hop behind `rank` (zero hops when N = 1) |
| Ring.NeighboursInverse | alltoall_personalized.c:95-106 | the successor of the predecessor, and the predecessor of the successor, are `rank` itself |
| Ring.Origin | alltoall_personalized.c:108 | `origin` is a rank from which data needs exactly `i` forward hops to reach `rank` |
| Ring.OriginUnique | alltoall_personalized.c:108 | every rank p is the `origin` of the round whose number is its hop distance to `rank`, so `origin` and `Hops` invert each other |
| Ring.OriginNotSelf | alltoall_personalized.c:92-108 | in rounds 1..N−1 `origin != rank`, so the self slot set at line 92 is never overwritten |
| Ring.OriginsPartitionPeers | alltoall_personalized.c:94-114 | across rounds 1..N−1 the origins are pairwise distinct, and their set is every rank except `rank` |
| Ring.DataIndex | alltoall_personalized.c:113-116 | `data_index` lies in [0, msg_size), so the read and the compaction stay inside the live window |
| Compaction.RemoveAt | alltoall_personalized.c:59-63 | deleting one slot keeps the entries before it, shifts the later ones left, and loses exactly that one value (multiset) |
| Compaction.Compact | alltoall_personalized.c:59-63 | entries before `idx` are unchanged, entries `idx..size−2` take their right neighbour's value, and `size−1` and beyond are untouched; within the first `size` entries this is deletion of slot `idx` |
| Compaction.CompactArray | alltoall_personalized.c:59-63 | the C shift loop produces exactly `Compact` |
| Peer.InitialBuffer | alltoall_personalized.c:81-90 | the first buffer has N−1 entries and holds the row's values except the self-destined one (multiset) |
| Peer.BuildInitialBuffer | alltoall_personalized.c:81-90 | the C fill loop puts `msg_arr[k]` in slot k for k < rank and `msg_arr[k+1]` otherwise, which is `InitialBuffer` |
| Peer.Start | alltoall_personalized.c:78-92 | before round 1 buffer slot k holds `msg_arr[k]` for k < rank and `msg_arr[k+1]` otherwise (destinations ascending, self omitted), `res_arr[rank] == msg_arr[rank]`, and no other result slot is written |
| Peer.Round | alltoall_personalized.c:94-116 | one round receives the `msg_size`-entry message over the front of the buffer, writes only `res_arr[origin]`, with the message's entry at `data_index`; it keeps the self slot; the new live prefix is the message with that entry deleted |
| Exchange.DestAt | alltoall_personalized.c:81-116 | the destination a live slot targets is a rank that has not yet taken its value from that author's data |
| Exchange.DestAtAscending | alltoall_personalized.c:81-116 | live slots stay sorted by destination rank |
| Exchange.DestAtCovers | alltoall_personalized.c:81-116 | every destination that has not yet taken its value still has a live slot |
| Exchange.PredecessorAuthor | alltoall_personalized.c:106-108 | the author of the data rank q receives in round k is the author its predecessor held after round k−1 |
| Exchange.DataIndexFindsSelf | alltoall_personalized.c:108-114 | in the arriving data, the slot at `data_index` is the one destined for the receiving rank, in both the wrap and no-wrap cases |
| Exchange.CompactAdvancesDestinations | alltoall_personalized.c:113-116 | after the slot at `data_index` is deleted, the remaining slots target exactly the destinations still due after one more hop |
| Exchange.StepFromPredecessor | alltoall_personalized.c:94-116 | after a lockstep round, rank q's live prefix is its ring predecessor's `msg_size` live entries with the one at `data_index` deleted, and q's result row gains exactly that entry at `origin` |
| Exchange.InitialWorldInv | alltoall_personalized.c:81-92 | before round 1 every rank's buffer holds its own values for all other destinations in ascending order, and only its self slot is written |
| Exchange.StepInv | alltoall_personalized.c:94-123 | each round preserves the invariant: after k rounds, rank q's live prefix holds author (q−k) mod N's values for the undelivered destinations in ascending order, and its results hold exactly the k+1 nearest authors behind it |
| Exchange.StepPeerInv | alltoall_personalized.c:94-116 | in a lockstep round, rank q's invariant after k rounds follows from its own and its ring predecessor's invariant after k−1 rounds, because the predecessor's live entries are the data of q's round-k origin |
| Exchange.RoundInv | alltoall_personalized.c:94-123 | one round of rank q, receiving its origin's data and doing what `Peer.Round` does with it, carries q's invariant from k−1 rounds to k rounds |
| Exchange.RoundBufferInv | alltoall_personalized.c:110-116 | after receiving author a's data and compacting at `data_index`, the live prefix holds a's values for the destinations still due after one more hop, in ascending order |
| Exchange.RoundResultsInv | alltoall_personalized.c:108-114 | a round fills exactly one more result slot, the author's, with the author's value for this rank; every other slot keeps its state |
| Exchange.RoundWritesUnsetSlot | alltoall_personalized.c:108-114 | the result slot written in a round had not been written before |
| Exchange.Advance | alltoall_personalized.c:94-123 | one lockstep round on every rank takes a world that satisfies the invariant after k−1 rounds to one that satisfies it after k |
| Exchange.FinalRows | alltoall_personalized.c:92-126 | once the invariant holds after N−1 rounds, every result slot is written, and the result rows are the transpose of the input rows |
| Exchange.ExchangeAll | alltoall_personalized.c:75-126 | after the N−1 rounds, rank q's `res_arr[p]` equals rank p's `msg_arr[q]` for all p and q; this holds for every N ≥ 1, including N = 1 with no rounds |

## Left out

- MPI transport (`MPI_Send`, `MPI_Recv`, `MPI_Status`, tags, blocking): replaced by a synchronous lockstep hand-off from the ring predecessor, which removes the concurrency and keeps the per-rank logic of lines 94-123.
- Send buffering: every rank posts its blocking `MPI_Send` (line 97) before any `MPI_Recv` (line 110), so the ring only makes progress if MPI buffers these sends; without buffering it deadlocks. Conservation is proved under the assumption that every round's sends complete.
- Timing (`MPI_Wtime`, `time_taken`, `disp_time`): floating-point wall-clock time with no effect on the exchanged data. The function's `double` return value is therefore not modelled.
- `print_array` and `print_msg`: console output only.
- `main`: MPI start-up and shutdown, random data generation, barriers, `MPI_Reduce` and printing.
- The zero-length array `buf[num_proc - 1]` when N = 1 is undefined behaviour in ISO C (line 78). The buffer is a sequence here, and it is simply empty when N = 1.
- Message length: `MPI_Recv`'s count is an upper bound, and the code never reads `status` (lines 109-110). `Peer.Round` requires the message to have exactly `msg_size` entries. This holds in the model because every rank sends exactly `num_proc - i` entries in round i (lines 96-97) and `Exchange.Step` passes each rank its predecessor's `n - i` live entries. A shorter message, which would leave stale entries in the live part of `buf`, is outside the model.
- Exchange.ExchangeAll: the round count (N−1 rounds, none when N = 1) and `msg_size == N − i` are the loop's own bounds (lines 94-96); they are not stated as a separate contract.
- Integer overflow: ranks and sizes are unbounded integers here. The C `int` sums `rank + num_proc - 1` (line 106) and `num_proc + rank - i` (line 108) can reach 2N − 2, so the model assumes N stays small enough for these to fit in an `int`, that is N ≤ (INT_MAX + 2) / 2.
- Argument validation (N < 1, rank out of range) is not performed by the C code, so no error path is modelled. The function's implicit assumptions are stated as preconditions instead.
