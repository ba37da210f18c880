/**
 * What one peer does in `all_to_all_personalized`, with the transport
 * reduced to its effect: a send hands over the live prefix of the buffer,
 * and a receive overwrites the first `msg_size` entries of the buffer.
 */
module Peer {
  import opened Ring
  import opened Compaction

  datatype Option<T> = None | Some(value: T)

  /**
   * A peer between rounds: `buf` is the C array of `n - 1` ints (only a
   * prefix of it is live after the first round) and `res` is `res_arr`,
   * with `None` for a slot that has not been written yet.
   */
  datatype PeerState = PeerState(buf: seq<int>, res: seq<Option<int>>)

  predicate Shaped(n: int, st: PeerState) {
    |st.buf| == n - 1 && |st.res| == n
  }

  /** The first message: the row without the self-destined value. */
  function InitialBuffer(row: seq<int>, rank: int): (buf: seq<int>)
    requires IsRank(|row|, rank)
    ensures |buf| == |row| - 1
    ensures multiset(buf) + multiset{row[rank]} == multiset(row)
  {
    RemoveAt(row, rank)
  }

  /** The loop that fills `buf` slot by slot, skipping `i == rank`. */
  method BuildInitialBuffer(row: seq<int>, rank: int) returns (buf: seq<int>)
    requires IsRank(|row|, rank)
    ensures |buf| == |row| - 1
    ensures forall k :: 0 <= k < |buf| ==> buf[k] == if k < rank then row[k] else row[k + 1]
    ensures buf == InitialBuffer(row, rank)
  {
    buf := seq(|row| - 1, _ => 0);
    var i := 0;
    while i < |row|
      invariant 0 <= i <= |row|
      invariant |buf| == |row| - 1
      invariant forall k {:trigger buf[k]} :: 0 <= k < |buf| && k < (if i <= rank then i else i - 1) ==>
        buf[k] == if k < rank then row[k] else row[k + 1]
    {
      if i < rank {
        buf := buf[i := row[i]];
      } else if i == rank {
      } else {
        buf := buf[i - 1 := row[i]];
      }
      i := i + 1;
    }
    var b := InitialBuffer(row, rank);
    assert forall k :: 0 <= k < |buf| ==> buf[k] == b[k];
  }

  /** The state before round 1: initial buffer, and `res_arr[rank] = msg_arr[rank]`. */
  function Start(row: seq<int>, rank: int): (st: PeerState)
    requires IsRank(|row|, rank)
    ensures Shaped(|row|, st)
    ensures forall k :: 0 <= k < |row| - 1 ==> st.buf[k] == if k < rank then row[k] else row[k + 1]
    ensures st.res[rank] == Some(row[rank])
    ensures forall p :: 0 <= p < |row| && p != rank ==> st.res[p] == None
  {
    PeerState(InitialBuffer(row, rank), seq(|row|, p => None)[rank := Some(row[rank])])
  }

  /**
   * Round `i` of one peer after the send: receive `msg` (the predecessor's
   * `msg_size == n - i` live entries) over the first `msg_size` entries of
   * the buffer, record the value meant for this rank under its author, and
   * compact the buffer for the next round.
   */
  function Round(n: int, rank: int, i: int, st: PeerState, msg: seq<int>): (st': PeerState)
    requires IsRank(n, rank) && 1 <= i < n
    requires Shaped(n, st) && |msg| == n - i
    ensures Shaped(n, st')
    ensures st'.res[rank] == st.res[rank]
    ensures st'.res[Origin(n, rank, i)] == Some(msg[DataIndex(n, rank, i)])
    ensures forall p :: 0 <= p < n && p != Origin(n, rank, i) ==> st'.res[p] == st.res[p]
    ensures st'.buf[..n - i - 1] == RemoveAt(msg, DataIndex(n, rank, i))
  {
    var msgSize := n - i;
    var origin := Origin(n, rank, i);
    var buf := msg + st.buf[msgSize..];
    var dataIndex := DataIndex(n, rank, i);
    assert buf[..msgSize] == msg;
    PeerState(Compact(dataIndex, buf, msgSize), st.res[origin := Some(buf[dataIndex])])
  }
}
