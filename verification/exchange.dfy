/**
 * The whole ring run in lockstep: in round `i` every peer receives the live
 * prefix of its predecessor's buffer, as `MPI_Recv` pairs with the
 * predecessor's `MPI_Send` of the same round. The invariant says which
 * author's values each buffer holds and for which destinations, and yields
 * conservation: peer q's `res_arr[p]` is peer p's `msg_arr[q]`.
 */
module Exchange {
  import opened Ring
  import opened Compaction
  import opened Peer

  /** Every peer holds a row with one value per destination. */
  ghost predicate IsMatrix(rows: seq<seq<int>>) {
    forall p :: 0 <= p < |rows| ==> |rows[p]| == |rows|
  }

  /**
   * Once author `a`'s data has made `k` hops, the ranks `a, a+1, .., a+k`
   * (around the ring) have each taken their value out of it.
   */
  ghost predicate Delivered(n: int, a: int, k: int, d: int)
    requires IsRank(n, a) && IsRank(n, d)
  {
    Hops(n, a, d) <= k
  }

  /**
   * The destination that slot `j` of author `a`'s data targets after `k`
   * hops. Without wrap-around the delivered ranks form the block
   * `a .. a+k` and the survivors are `0 .. a-1` then `a+k+1 .. n-1`; with
   * wrap-around the survivors are the block `a+k+1-n .. a-1`.
   */
  ghost function DestAt(n: int, a: int, k: int, j: int): (d: int)
    requires IsRank(n, a) && 0 <= k < n && 0 <= j < n - 1 - k
    ensures IsRank(n, d)
    ensures !Delivered(n, a, k, d)
  {
    if a + k < n then (if j < a then j else j + k + 1) else j + a + k + 1 - n
  }

  /** Slots stay sorted by destination rank. */
  lemma DestAtAscending(n: int, a: int, k: int, j1: int, j2: int)
    requires IsRank(n, a) && 0 <= k < n && 0 <= j1 < j2 < n - 1 - k
    ensures DestAt(n, a, k, j1) < DestAt(n, a, k, j2)
  {
  }

  /** Every destination not yet delivered still has its slot. */
  lemma DestAtCovers(n: int, a: int, k: int, d: int)
    requires IsRank(n, a) && 0 <= k < n && IsRank(n, d) && !Delivered(n, a, k, d)
    ensures exists j :: 0 <= j < n - 1 - k && DestAt(n, a, k, j) == d
  {
    if a + k < n {
      if d < a {
        assert DestAt(n, a, k, d) == d;
      } else {
        assert DestAt(n, a, k, d - k - 1) == d;
      }
    } else {
      assert DestAt(n, a, k, d - (a + k + 1 - n)) == d;
    }
  }

  /** The author whose data peer `q` holds after `k` hops is its predecessor's author after `k - 1`. */
  lemma PredecessorAuthor(n: int, q: int, k: int)
    requires IsRank(n, q) && 1 <= k < n
    ensures Origin(n, RecvFrom(n, q), k - 1) == Origin(n, q, k)
  {
    var p := RecvFrom(n, q);
    ModSmall(n + p - (k - 1), n);
    ModSmall(n + q - k, n);
  }

  /**
   * The extraction rule of round `k`: in the data of author
   * `origin == Origin(n, q, k)` after `k - 1` hops, the slot at
   * `DataIndex(n, q, k)` is the one that targets `q`.
   */
  lemma DataIndexFindsSelf(n: int, q: int, k: int)
    requires IsRank(n, q) && 1 <= k < n
    ensures DestAt(n, Origin(n, q, k), k - 1, DataIndex(n, q, k)) == q
  {
  }

  /**
   * Removing the slot at `DataIndex` from author `a`'s data after `k - 1`
   * hops leaves exactly its data after `k` hops.
   */
  lemma CompactAdvancesDestinations(n: int, q: int, k: int, j: int)
    requires IsRank(n, q) && 1 <= k < n && 0 <= j < n - 1 - k
    ensures var a := Origin(n, q, k);
            DestAt(n, a, k, j) == if j < DataIndex(n, q, k) then DestAt(n, a, k - 1, j) else DestAt(n, a, k - 1, j + 1)
  {
  }

  /**
   * Peer `q` after `k` rounds: its buffer's live prefix holds the values of
   * author `Origin(n, q, k)` for the undelivered destinations in ascending
   * order, and its result row holds exactly the values of the `k + 1`
   * nearest authors behind it.
   */
  ghost predicate PeerInv(rows: seq<seq<int>>, k: int, q: int, st: PeerState)
    requires IsMatrix(rows) && IsRank(|rows|, q) && 0 <= k < |rows|
  {
    var n := |rows|;
    var a := Origin(n, q, k);
    && Shaped(n, st)
    && (forall j :: 0 <= j < n - 1 - k ==> st.buf[j] == rows[a][DestAt(n, a, k, j)])
    && (forall p :: 0 <= p < n ==> st.res[p] == if Hops(n, p, q) <= k then Some(rows[p][q]) else None)
  }

  ghost predicate WorldShaped(n: int, w: seq<PeerState>) {
    |w| == n && forall q :: 0 <= q < n ==> Shaped(n, w[q])
  }

  ghost predicate WorldInv(rows: seq<seq<int>>, k: int, w: seq<PeerState>)
    requires IsMatrix(rows) && 0 <= k < |rows|
  {
    |w| == |rows| && forall q :: 0 <= q < |rows| ==> PeerInv(rows, k, q, w[q])
  }

  /** Every peer before round 1. */
  function InitialWorld(rows: seq<seq<int>>): (w: seq<PeerState>)
    requires IsMatrix(rows) && |rows| >= 1
    ensures |w| == |rows|
  {
    seq(|rows|, q requires 0 <= q < |rows| => Start(rows[q], q))
  }

  /** Round `i` on every peer at once, each fed by its ring predecessor. */
  function Step(n: int, i: int, w: seq<PeerState>): (w': seq<PeerState>)
    requires 1 <= i < n && WorldShaped(n, w)
    ensures WorldShaped(n, w')
  {
    seq(n, q requires 0 <= q < n => Round(n, q, i, w[q], w[RecvFrom(n, q)].buf[..n - i]))
  }

  /**
   * After round `i`, rank `q` holds the `n - i` live entries its ring
   * predecessor sent, minus the one at `DataIndex`, and its result row has
   * gained exactly that entry, filed under the round's origin.
   */
  lemma StepFromPredecessor(n: int, i: int, w: seq<PeerState>, q: int)
    requires 1 <= i < n && WorldShaped(n, w) && IsRank(n, q)
    ensures var pred := w[RecvFrom(n, q)];
            && Step(n, i, w)[q].buf[..n - i - 1] == RemoveAt(pred.buf[..n - i], DataIndex(n, q, i))
            && Step(n, i, w)[q].res == w[q].res[Origin(n, q, i) := Some(pred.buf[DataIndex(n, q, i)])]
  {
    var st' := Step(n, i, w)[q];
    var o := Origin(n, q, i);
    var v := w[RecvFrom(n, q)].buf[DataIndex(n, q, i)];
    assert st' == Round(n, q, i, w[q], w[RecvFrom(n, q)].buf[..n - i]);
    assert forall p :: 0 <= p < n ==> st'.res[p] == w[q].res[o := Some(v)][p];
  }

  /** Before round 1 each peer holds its own data with only its own slot delivered. */
  lemma InitialWorldInv(rows: seq<seq<int>>)
    requires IsMatrix(rows) && |rows| >= 1
    ensures WorldInv(rows, 0, InitialWorld(rows))
  {
    var n := |rows|;
    var w := InitialWorld(rows);
    forall q | 0 <= q < n
      ensures PeerInv(rows, 0, q, w[q])
    {
      ModSmall(n + q, n);
      assert Origin(n, q, 0) == q;
      var st := w[q];
      forall j | 0 <= j < n - 1
        ensures st.buf[j] == rows[q][DestAt(n, q, 0, j)]
      {
        assert st.buf == RemoveAt(rows[q], q);
      }
    }
  }

  /** One lockstep round carries the invariant from `k - 1` hops to `k`. */
  lemma StepInv(rows: seq<seq<int>>, k: int, w: seq<PeerState>)
    requires IsMatrix(rows) && 1 <= k < |rows|
    requires WorldInv(rows, k - 1, w)
    ensures WorldShaped(|rows|, w)
    ensures WorldInv(rows, k, Step(|rows|, k, w))
  {
    var n := |rows|;
    forall q | 0 <= q < n
      ensures Shaped(n, w[q])
    {
      assert PeerInv(rows, k - 1, q, w[q]);
    }
    forall q | 0 <= q < n
      ensures PeerInv(rows, k, q, Step(n, k, w)[q])
    {
      var pred := RecvFrom(n, q);
      assert PeerInv(rows, k - 1, q, w[q]);
      assert PeerInv(rows, k - 1, pred, w[pred]);
      StepPeerInv(rows, k, w, q);
    }
  }

  /** `StepInv` for one rank, from its own and its predecessor's invariant. */
  lemma StepPeerInv(rows: seq<seq<int>>, k: int, w: seq<PeerState>, q: int)
    requires IsMatrix(rows) && 1 <= k < |rows| && IsRank(|rows|, q)
    requires WorldShaped(|rows|, w)
    requires PeerInv(rows, k - 1, q, w[q])
    requires PeerInv(rows, k - 1, RecvFrom(|rows|, q), w[RecvFrom(|rows|, q)])
    ensures PeerInv(rows, k, q, Step(|rows|, k, w)[q])
  {
    var n := |rows|;
    var predSt := w[RecvFrom(n, q)];
    var msg := predSt.buf[..n - k];
    var a := Origin(n, q, k);
    assert CarriesAuthor(rows, k, q, msg) by {
      PredecessorAuthor(n, q, k);
      assert Origin(n, RecvFrom(n, q), k - 1) == a;
      forall j | 0 <= j < n - k
        ensures msg[j] == rows[a][DestAt(n, a, k - 1, j)]
      {
        assert msg[j] == predSt.buf[j];
      }
    }
    StepFromPredecessor(n, k, w, q);
    RoundInv(rows, k, q, w[q], msg, Step(n, k, w)[q]);
  }

  /** The message of round `k` is author `Origin(n, q, k)`'s data after `k - 1` hops. */
  ghost predicate CarriesAuthor(rows: seq<seq<int>>, k: int, q: int, msg: seq<int>)
    requires IsMatrix(rows) && 1 <= k < |rows| && IsRank(|rows|, q)
  {
    var n := |rows|;
    var a := Origin(n, q, k);
    |msg| == n - k && forall j :: 0 <= j < n - k ==> msg[j] == rows[a][DestAt(n, a, k - 1, j)]
  }

  /**
   * What round `k` does to rank `q`, as `StepFromPredecessor` and
   * `Peer.Round` state it: `st'` keeps the shape of `st`, its live prefix is
   * `msg` without the slot at `DataIndex`, and its result row gains that
   * slot's value under the round's origin.
   */
  ghost predicate Received(n: int, k: int, q: int, st: PeerState, msg: seq<int>, st': PeerState)
    requires IsRank(n, q) && 1 <= k < n && |msg| == n - k
  {
    && Shaped(n, st) && Shaped(n, st')
    && st'.buf[..n - k - 1] == RemoveAt(msg, DataIndex(n, q, k))
    && st'.res == st.res[Origin(n, q, k) := Some(msg[DataIndex(n, q, k)])]
  }

  /**
   * The per-peer half of `StepInv`: rank `q` in state `st`, receiving its
   * predecessor's data `msg` in round `k`, keeps the invariant.
   */
  lemma RoundInv(rows: seq<seq<int>>, k: int, q: int, st: PeerState, msg: seq<int>, st': PeerState)
    requires IsMatrix(rows) && 1 <= k < |rows| && IsRank(|rows|, q)
    requires PeerInv(rows, k - 1, q, st) && CarriesAuthor(rows, k, q, msg)
    requires Received(|rows|, k, q, st, msg, st')
    ensures PeerInv(rows, k, q, st')
  {
    RoundBufferInv(rows, k, q, st, msg, st');
    RoundResultsInv(rows, k, q, st, msg, st');
  }

  /** After compaction the live prefix holds the author's data after `k` hops. */
  lemma RoundBufferInv(rows: seq<seq<int>>, k: int, q: int, st: PeerState, msg: seq<int>, st': PeerState)
    requires IsMatrix(rows) && 1 <= k < |rows| && IsRank(|rows|, q)
    requires CarriesAuthor(rows, k, q, msg) && Received(|rows|, k, q, st, msg, st')
    ensures var n := |rows|;
            var a := Origin(n, q, k);
            forall j :: 0 <= j < n - 1 - k ==> st'.buf[j] == rows[a][DestAt(n, a, k, j)]
  {
    var n := |rows|;
    var a := Origin(n, q, k);
    var idx := DataIndex(n, q, k);
    forall j | 0 <= j < n - 1 - k
      ensures st'.buf[j] == rows[a][DestAt(n, a, k, j)]
    {
      CompactAdvancesDestinations(n, q, k, j);
      assert st'.buf[j] == st'.buf[..n - k - 1][j] == RemoveAt(msg, idx)[j];
    }
  }

  /** Round `k` fills exactly one more result slot, the author's, with its value for `q`. */
  lemma RoundResultsInv(rows: seq<seq<int>>, k: int, q: int, st: PeerState, msg: seq<int>, st': PeerState)
    requires IsMatrix(rows) && 1 <= k < |rows| && IsRank(|rows|, q)
    requires PeerInv(rows, k - 1, q, st) && CarriesAuthor(rows, k, q, msg)
    requires Received(|rows|, k, q, st, msg, st')
    ensures var n := |rows|;
            forall p :: 0 <= p < n ==> st'.res[p] == if Hops(n, p, q) <= k then Some(rows[p][q]) else None
  {
    var n := |rows|;
    var a := Origin(n, q, k);
    DataIndexFindsSelf(n, q, k);
    assert st'.res[a] == Some(rows[a][q]);
    forall p | 0 <= p < n
      ensures st'.res[p] == if Hops(n, p, q) <= k then Some(rows[p][q]) else None
    {
      if p != a {
        OriginUnique(n, q, p);
      }
    }
  }

  /** The slot written in round `k` had not been written before. */
  lemma RoundWritesUnsetSlot(rows: seq<seq<int>>, k: int, w: seq<PeerState>, q: int)
    requires IsMatrix(rows) && 1 <= k < |rows| && IsRank(|rows|, q)
    requires WorldInv(rows, k - 1, w)
    ensures w[q].res[Origin(|rows|, q, k)] == None
  {
    assert PeerInv(rows, k - 1, q, w[q]);
  }

  /** The values of a completely written result row. */
  function Filled(res: seq<Option<int>>): (r: seq<int>)
    ensures |r| == |res|
    ensures forall p :: 0 <= p < |res| && res[p].Some? ==> r[p] == res[p].value
  {
    seq(|res|, p requires 0 <= p < |res| => if res[p].Some? then res[p].value else 0)
  }

  /** Round `k` on every peer, from a world that satisfies the invariant after `k - 1` rounds. */
  function Advance(rows: seq<seq<int>>, k: int, w: seq<PeerState>): (w': seq<PeerState>)
    requires IsMatrix(rows) && 1 <= k < |rows| && WorldInv(rows, k - 1, w)
    ensures WorldInv(rows, k, w')
  {
    StepInv(rows, k, w);
    Step(|rows|, k, w)
  }

  /** The result rows once all `n - 1` rounds have run: the transpose of the input. */
  function FinalRows(rows: seq<seq<int>>, w: seq<PeerState>): (results: seq<seq<int>>)
    requires IsMatrix(rows) && |rows| >= 1 && WorldInv(rows, |rows| - 1, w)
    ensures |results| == |rows|
    ensures forall q :: 0 <= q < |rows| ==> |results[q]| == |rows|
    ensures forall p, q :: 0 <= p < |rows| && 0 <= q < |rows| ==> results[q][p] == rows[p][q]
  {
    var n := |rows|;
    assert forall q :: 0 <= q < n ==> PeerInv(rows, n - 1, q, w[q]);
    seq(n, q requires 0 <= q < n => Filled(w[q].res))
  }

  /** `all_to_all_personalized` on every rank, rounds `1 .. n-1` in lockstep. */
  method ExchangeAll(rows: seq<seq<int>>) returns (results: seq<seq<int>>)
    requires IsMatrix(rows) && |rows| >= 1
    ensures |results| == |rows|
    ensures forall q :: 0 <= q < |rows| ==> |results[q]| == |rows|
    ensures forall p, q :: 0 <= p < |rows| && 0 <= q < |rows| ==> results[q][p] == rows[p][q]
  {
    var n := |rows|;
    var w := InitialWorld(rows);
    InitialWorldInv(rows);
    var i := 1;
    while i < n
      invariant 1 <= i <= n
      invariant WorldInv(rows, i - 1, w)
    {
      w := Advance(rows, i, w);
      i := i + 1;
    }
    assert i == n;
    results := FinalRows(rows, w);
  }
}
