/**
 * Rank arithmetic of the ring: neighbours, the author of the data that
 * arrives in a round, and the position of this rank's value inside it.
 *
 * The C code computes every ring position with `%` on an operand that lies
 * in [0, 2n); there C's truncating `%` and Dafny's Euclidean `%` agree, and
 * `ModSmall` turns each such `%` into a plain case split.
 */
module Ring {

  predicate IsRank(n: int, r: int) {
    0 <= r < n
  }

  /** C's `x % n` for an operand that is at most one lap past `n`. */
  lemma ModSmall(x: int, n: int)
    requires 0 < n && 0 <= x < 2 * n
    ensures x % n == if x < n then x else x - n
  {
    if x >= n {
      assert x == n * 1 + (x - n);
    }
  }

  /**
   * Number of forward hops (rank -> rank + 1) from `from` to `to`.
   * Written without `%`, so it serves as the reference for `Origin`.
   */
  ghost function Hops(n: int, from: int, to: int): (h: int)
    requires IsRank(n, from) && IsRank(n, to)
    ensures 0 <= h < n
    ensures h == 0 <==> from == to
  {
    if from <= to then to - from else n + to - from
  }

  /** `send_to`: the ring successor of `rank`. */
  function SendTo(n: int, rank: int): (r: int)
    requires IsRank(n, rank)
    ensures IsRank(n, r)
    ensures Hops(n, rank, r) == (if n == 1 then 0 else 1)
  {
    ModSmall(rank + 1, n);
    (rank + 1) % n
  }

  /** `recv_from`: the ring predecessor of `rank`. */
  function RecvFrom(n: int, rank: int): (r: int)
    requires IsRank(n, rank)
    ensures IsRank(n, r)
    ensures Hops(n, r, rank) == (if n == 1 then 0 else 1)
  {
    ModSmall(rank + n - 1, n);
    (rank + n - 1) % n
  }

  /** Successor and predecessor undo each other. */
  lemma NeighboursInverse(n: int, rank: int)
    requires IsRank(n, rank)
    ensures SendTo(n, RecvFrom(n, rank)) == rank
    ensures RecvFrom(n, SendTo(n, rank)) == rank
  {
    ModSmall(rank + 1, n);
    ModSmall(rank + n - 1, n);
    var p := RecvFrom(n, rank);
    var s := SendTo(n, rank);
    ModSmall(p + 1, n);
    ModSmall(s + n - 1, n);
  }

  /**
   * `origin`: the rank that authored the data arriving at `rank` after it
   * travelled `i` hops. For `i == 0` this is `rank` itself, which describes
   * the buffer a peer starts from.
   */
  function Origin(n: int, rank: int, i: int): (o: int)
    requires IsRank(n, rank) && 0 <= i < n
    ensures IsRank(n, o)
    ensures Hops(n, o, rank) == i
  {
    ModSmall(n + rank - i, n);
    (n + rank - i) % n
  }

  /** The rank `i` hops behind `rank` is the only rank that far behind it. */
  lemma OriginUnique(n: int, rank: int, p: int)
    requires IsRank(n, rank) && IsRank(n, p)
    ensures Origin(n, rank, Hops(n, p, rank)) == p
  {
    ModSmall(n + rank - Hops(n, p, rank), n);
  }

  /** In rounds 1 .. n-1 the arriving data was never authored by the receiver. */
  lemma OriginNotSelf(n: int, rank: int, i: int)
    requires IsRank(n, rank) && 1 <= i < n
    ensures Origin(n, rank, i) != rank
  {
  }

  /**
   * Across rounds 1 .. n-1 the origins are pairwise distinct and are exactly
   * the ranks other than `rank`, so together with the self slot every entry
   * of the result row is written exactly once.
   */
  lemma OriginsPartitionPeers(n: int, rank: int)
    requires IsRank(n, rank)
    ensures forall i, j :: 1 <= i < n && 1 <= j < n && Origin(n, rank, i) == Origin(n, rank, j) ==> i == j
    ensures (set i | 1 <= i < n :: Origin(n, rank, i)) == (set p | 0 <= p < n && IsRank(n, p) && p != rank)
  {
    // `IsRank(n, p)` repeats the bound so the comprehension has a trigger
    var origins := set i | 1 <= i < n :: Origin(n, rank, i);
    var others := set p | 0 <= p < n && IsRank(n, p) && p != rank;
    forall p | p in others
      ensures p in origins
    {
      OriginUnique(n, rank, p);
      assert Origin(n, rank, Hops(n, p, rank)) == p;
    }
  }

  /**
   * `data_index`: where this rank's value sits in the buffer of round `i`.
   * It always lies inside the live window of `n - i` entries.
   */
  function DataIndex(n: int, rank: int, i: int): (d: int)
    requires IsRank(n, rank) && 1 <= i < n
    ensures 0 <= d < n - i
  {
    var origin := Origin(n, rank, i);
    if origin <= rank then origin else 0
  }
}
