/** The communication of the distributed program as pure data movement over
    the sequence of per-rank slices: the scatter of the road, the paired
    send-receive exchanges over the ring of ranks, and the theorem that one
    distributed step is one ring step of the whole road. */
module Halo {
  import opened Aggregate
  import opened Rule184
  import opened Ring
  import opened Simulation

  /** Ranks are numbered 0..size-1 and form a ring: the neighbours of a rank
      are those of a position on a ring of `size` positions. */
  function LeftTable(size: nat): (t: seq<int>)
    ensures |t| == size
  {
    seq(size, r requires 0 <= r < size => LeftOf(r, size))
  }

  function RightTable(size: nat): (t: seq<int>)
    ensures |t| == size
  {
    seq(size, r requires 0 <= r < size => RightOf(r, size))
  }

  /** In one collective send-receive, rank r sends to dest[r] and waits for a
      message from source[r]. Every rank completes exactly when each
      posted receive is met by the send addressed to it and each send by
      the receive expecting it. */
  predicate Matched(dest: seq<int>, source: seq<int>)
  {
    && |dest| == |source|
    && (forall r :: 0 <= r < |dest| ==> 0 <= dest[r] < |dest| && 0 <= source[r] < |dest|)
    && (forall r :: 0 <= r < |dest| ==> PairedAt(dest, source, r))
  }

  /** Rank r's send meets the receive of its destination, and its receive
      the send of its source. */
  predicate PairedAt(dest: seq<int>, source: seq<int>, r: int)
    requires |dest| == |source| && 0 <= r < |dest|
    requires 0 <= dest[r] < |dest| && 0 <= source[r] < |dest|
  {
    source[dest[r]] == r && dest[source[r]] == r
  }

  /** What every rank receives, or None when some rank would wait forever. */
  function SendRecv(sent: seq<int>, dest: seq<int>, source: seq<int>): Option<seq<int>>
    requires |sent| == |dest| == |source|
  {
    if Matched(dest, source) then
      Some(seq(|sent|, r requires 0 <= r < |sent| => sent[source[r]]))
    else
      None
  }

  /** A matched send-receive completes, each rank receiving from its source. */
  lemma ReceivedFromSource(sent: seq<int>, dest: seq<int>, source: seq<int>)
    requires |sent| == |dest| == |source| && Matched(dest, source)
    ensures SendRecv(sent, dest, source).Some?
    ensures |SendRecv(sent, dest, source).value| == |sent|
    ensures forall r :: 0 <= r < |sent| ==> SendRecv(sent, dest, source).value[r] == sent[source[r]]
  {
  }

  /** A send-receive completes exactly when the sends and receives pair
      up, and then no message is lost or misrouted: the value rank r sends
      is the one its destination receives. */
  lemma SendsArrive(sent: seq<int>, dest: seq<int>, source: seq<int>)
    requires |sent| == |dest| == |source|
    ensures SendRecv(sent, dest, source).Some? <==> Matched(dest, source)
    ensures Matched(dest, source) ==> forall r :: 0 <= r < |sent| ==>
      0 <= dest[r] < |sent| && SendRecv(sent, dest, source).value[dest[r]] == sent[r]
  {
    if Matched(dest, source) {
      ReceivedFromSource(sent, dest, source);
      forall r | 0 <= r < |sent|
        ensures SendRecv(sent, dest, source).value[dest[r]] == sent[r]
      {
        assert PairedAt(dest, source, r);
      }
    }
  }

  /** Both exchanges of a step pair up on the ring, for every number of
      ranks: sending left while receiving from the right, and sending right
      while receiving from the left. */
  lemma RingExchangesMatch(size: nat)
    ensures Matched(LeftTable(size), RightTable(size))
    ensures Matched(RightTable(size), LeftTable(size))
  {
    forall r | 0 <= r < size
      ensures RightOf(LeftOf(r, size), size) == r && LeftOf(RightOf(r, size), size) == r
    {
      NeighboursAreModular(r, size);
    }
  }

  /** Rank r's buffer once both exchanges of a step are done: the last cell
      of its left neighbour, its own cells, the first cell of its right
      neighbour. */
  function Exchanged(parts: seq<seq<int>>, r: int): seq<int>
    requires forall r :: 0 <= r < |parts| ==> |parts[r]| >= 1
    requires 0 <= r < |parts|
  {
    var left, right := parts[LeftOf(r, |parts|)], parts[RightOf(r, |parts|)];
    [left[|left| - 1]] + parts[r] + [right[0]]
  }

  /** Every rank's buffer after the exchanges of a step. */
  function Exchange(parts: seq<seq<int>>): (bufs: seq<seq<int>>)
    requires forall r :: 0 <= r < |parts| ==> |parts[r]| >= 1
    ensures |bufs| == |parts|
  {
    seq(|parts|, r requires 0 <= r < |parts| => Exchanged(parts, r))
  }

  /** What every rank sends in the first exchange: its first cell. */
  function Firsts(parts: seq<seq<int>>): (sent: seq<int>)
    requires forall r :: 0 <= r < |parts| ==> |parts[r]| >= 1
    ensures |sent| == |parts|
  {
    seq(|parts|, r requires 0 <= r < |parts| => parts[r][0])
  }

  /** What every rank sends in the second exchange: its last cell. */
  function Lasts(parts: seq<seq<int>>): (sent: seq<int>)
    requires forall r :: 0 <= r < |parts| ==> |parts[r]| >= 1
    ensures |sent| == |parts|
  {
    seq(|parts|, r requires 0 <= r < |parts| => parts[r][|parts[r]| - 1])
  }

  /** The two send-receive exchanges complete and deliver exactly the ghost
      values: sending the first cell left while receiving from the right
      fills every right ghost, sending the last cell right while receiving
      from the left fills every left ghost. */
  lemma ExchangesDeliverGhosts(parts: seq<seq<int>>)
    requires forall r :: 0 <= r < |parts| ==> |parts[r]| >= 1
    ensures var size, bufs := |parts|, Exchange(parts);
      SendRecv(Firsts(parts), LeftTable(size), RightTable(size))
        == Some(seq(size, r requires 0 <= r < size => bufs[r][|bufs[r]| - 1]))
    ensures var size, bufs := |parts|, Exchange(parts);
      SendRecv(Lasts(parts), RightTable(size), LeftTable(size))
        == Some(seq(size, r requires 0 <= r < size => bufs[r][0]))
  {
    var size, bufs := |parts|, Exchange(parts);
    RingExchangesMatch(size);
    ReceivedFromSource(Firsts(parts), LeftTable(size), RightTable(size));
    ReceivedFromSource(Lasts(parts), RightTable(size), LeftTable(size));
    var fromRight := SendRecv(Firsts(parts), LeftTable(size), RightTable(size)).value;
    var fromLeft := SendRecv(Lasts(parts), RightTable(size), LeftTable(size)).value;
    forall r | 0 <= r < size
      ensures fromRight[r] == bufs[r][|bufs[r]| - 1]
      ensures fromLeft[r] == bufs[r][0]
    {
      assert bufs[r] == Exchanged(parts, r);
    }
    assert fromRight == seq(size, r requires 0 <= r < size => bufs[r][|bufs[r]| - 1]);
    assert fromLeft == seq(size, r requires 0 <= r < size => bufs[r][0]);
  }

  /** With a single rank, the exchange is the serial program's periodic
      ghost refresh. */
  lemma SingleRankExchange(road: seq<int>)
    requires |road| >= 1
    ensures Exchange([road]) == [Ghosted(road)]
  {
    assert LeftOf(0, 1) == 0 && RightOf(0, 1) == 0;
  }

  /** The slices of the scatter: rank r gets the `len` cells starting at
      Offset(r, len) = r * len. */
  function Scatter(road: seq<int>, size: nat, len: nat): (parts: seq<seq<int>>)
    requires |road| == Offset(size, len)
    ensures |parts| == size && Uniform(parts, len)
  {
    OffsetsFit(size, len);
    seq(size, r requires 0 <= r < size => road[Offset(r, len) .. Offset(r, len) + len])
  }

  /** Cell k of rank r's slice is cell r*len+k of the road. */
  lemma ScatterAt(road: seq<int>, size: nat, len: nat, r: nat, k: nat)
    requires |road| == Offset(size, len) && r < size && k < len
    ensures Offset(r, len) + k < |road|
    ensures Scatter(road, size, len)[r][k] == road[Offset(r, len) + k]
  {
    OffsetBelow(r, size, len);
    var lo := Offset(r, len);
    assert Scatter(road, size, len)[r] == road[lo .. lo + len];
  }

  /** Scatter layout: the slices concatenated in rank order give back the
      road. */
  lemma ScatterLayout(road: seq<int>, size: nat, len: nat)
    requires |road| == Offset(size, len)
    ensures Flatten(Scatter(road, size, len)) == road
  {
    var parts := Scatter(road, size, len);
    forall r, k | 0 <= r < |parts| && 0 <= k < len
      ensures Offset(r, len) + k < |road| && road[Offset(r, len) + k] == parts[r][k]
    {
      ScatterAt(road, size, len, r, k);
    }
    OffsetsFit(size, len);
    FlattenUnique(parts, len, road);
  }

  /** The new real cells of every rank after its local step. */
  function DistributedStep(parts: seq<seq<int>>): seq<seq<int>>
    requires forall r :: 0 <= r < |parts| ==> |parts[r]| >= 1
  {
    var bufs := Exchange(parts);
    seq(|parts|, r requires 0 <= r < |parts| => WindowStep(bufs[r]))
  }

  /** The per-rank move counts of one step, before the reduction. */
  function LocalMoves(parts: seq<seq<int>>): seq<int>
    requires forall r :: 0 <= r < |parts| ==> |parts[r]| >= 1
  {
    var bufs := Exchange(parts);
    seq(|parts|, r requires 0 <= r < |parts| => WindowMoves(bufs[r]))
  }

  /** Where the left neighbour of cell k of rank r sits in the whole road:
      inside the same slice, at the end of the previous slice, or, for the
      first cell of rank 0, at the very end of the road. */
  lemma LeftIndex(size: nat, len: nat, r: nat, k: nat)
    requires len >= 1 && r < size && k < len
    ensures Offset(r, len) + k < Offset(size, len)
    ensures k > 0 ==> LeftOf(Offset(r, len) + k, Offset(size, len)) == Offset(r, len) + (k - 1)
    ensures k == 0 && r > 0 ==> LeftOf(Offset(r, len) + k, Offset(size, len)) == Offset(r - 1, len) + (len - 1)
    ensures k == 0 && r == 0 ==> LeftOf(Offset(r, len) + k, Offset(size, len)) == Offset(size - 1, len) + (len - 1)
  {
    OffsetBelow(r, size, len);
  }

  /** Where the right neighbour of cell k of rank r sits in the whole road:
      inside the same slice, at the start of the next slice, or, for the
      last cell of the last rank, at the very start of the road. */
  lemma RightIndex(size: nat, len: nat, r: nat, k: nat)
    requires len >= 1 && r < size && k < len
    ensures Offset(r, len) + k < Offset(size, len)
    ensures k < len - 1 ==> RightOf(Offset(r, len) + k, Offset(size, len)) == Offset(r, len) + (k + 1)
    ensures k == len - 1 && r < size - 1 ==> RightOf(Offset(r, len) + k, Offset(size, len)) == Offset(r + 1, len)
    ensures k == len - 1 && r == size - 1 ==> RightOf(Offset(r, len) + k, Offset(size, len)) == 0
  {
    OffsetBelow(r, size, len);
    if r < size - 1 {
      OffsetBelow(r + 1, size, len);
    }
  }

  /** The middle slot of the window of cell k of rank r is cell r*len+k of
      the whole road. */
  lemma CentreSlot(parts: seq<seq<int>>, len: nat, r: nat, k: nat)
    requires len >= 1 && Uniform(parts, len) && r < |parts| && k < len
    ensures |Exchanged(parts, r)| == len + 2
    ensures Offset(r, len) + k < |Flatten(parts)|
    ensures Exchanged(parts, r)[k + 1] == Flatten(parts)[Offset(r, len) + k]
  {
    FlattenAt(parts, len, r, k);
  }

  /** The slots of a rank's buffer after the exchange: the received left
      ghost, its own cells, the received right ghost. */
  lemma ExchangedSlots(parts: seq<seq<int>>, len: nat, r: nat, k: nat)
    requires len >= 1 && Uniform(parts, len) && r < |parts| && k < len
    ensures |Exchanged(parts, r)| == len + 2
    ensures Exchanged(parts, r)[k + 1] == parts[r][k]
    ensures Exchanged(parts, r)[0] == parts[LeftOf(r, |parts|)][len - 1]
    ensures Exchanged(parts, r)[len + 1] == parts[RightOf(r, |parts|)][0]
  {
  }

  /** The left ghost of rank r holds the last cell of the rank before it,
      or, for rank 0, the last cell of the last rank. */
  lemma LeftGhost(parts: seq<seq<int>>, len: nat, r: nat)
    requires len >= 1 && Uniform(parts, len) && r < |parts|
    ensures |Flatten(parts)| == Offset(|parts|, len) && Offset(r, len) + len <= |Flatten(parts)|
    ensures r > 0 ==> Offset(r - 1, len) + len == Offset(r, len)
    ensures r > 0 ==> Exchanged(parts, r)[0] == Flatten(parts)[Offset(r - 1, len) + (len - 1)]
    ensures r == 0 ==> Exchanged(parts, r)[0] == Flatten(parts)[Offset(|parts| - 1, len) + (len - 1)]
  {
    ExchangedSlots(parts, len, r, 0);
    FlattenLength(parts, len);
    OffsetBelow(r, |parts|, len);
    if r > 0 {
      FlattenAt(parts, len, r - 1, len - 1);
    } else {
      FlattenAt(parts, len, |parts| - 1, len - 1);
    }
  }

  /** The right ghost of rank r holds the first cell of the rank after it,
      or, for the last rank, the first cell of rank 0. */
  lemma RightGhost(parts: seq<seq<int>>, len: nat, r: nat)
    requires len >= 1 && Uniform(parts, len) && r < |parts|
    ensures |Flatten(parts)| == Offset(|parts|, len) && Offset(r, len) + len <= |Flatten(parts)|
    ensures r < |parts| - 1 ==> Offset(r + 1, len) + len <= |Flatten(parts)|
    ensures r < |parts| - 1 ==> Exchanged(parts, r)[len + 1] == Flatten(parts)[Offset(r + 1, len)]
    ensures r == |parts| - 1 ==> Exchanged(parts, r)[len + 1] == Flatten(parts)[0]
  {
    ExchangedSlots(parts, len, r, 0);
    FlattenLength(parts, len);
    OffsetBelow(r, |parts|, len);
    if r < |parts| - 1 {
      OffsetBelow(r + 1, |parts|, len);
      FlattenAt(parts, len, r + 1, 0);
    } else {
      FlattenAt(parts, len, 0, 0);
    }
  }

  /** The index step of LeftSlot on plain sequences: a buffer whose slot k
      holds the road cell that LeftIndex names holds the ring's left
      neighbour of cell r*len+k. */
  lemma LeftNeighbourSlot(b: seq<int>, road: seq<int>, size: nat, len: nat, r: nat, k: nat)
    requires len >= 1 && r < size && k < len && |road| == Offset(size, len) && |b| == len + 2
    requires k > 0 ==> Offset(r, len) + (k - 1) < |road| && b[(k - 1) + 1] == road[Offset(r, len) + (k - 1)]
    requires r > 0 ==> Offset(r - 1, len) + (len - 1) < |road| && b[0] == road[Offset(r - 1, len) + (len - 1)]
    requires r == 0 ==> Offset(size - 1, len) + (len - 1) < |road| && b[0] == road[Offset(size - 1, len) + (len - 1)]
    ensures Offset(r, len) + k < |road|
    ensures b[k] == road[LeftOf(Offset(r, len) + k, |road|)]
  {
    LeftIndex(size, len, r, k);
  }

  /** The index step of RightSlot on plain sequences. */
  lemma RightNeighbourSlot(b: seq<int>, road: seq<int>, size: nat, len: nat, r: nat, k: nat)
    requires len >= 1 && r < size && k < len && |road| == Offset(size, len) && |b| == len + 2
    requires k < len - 1 ==> Offset(r, len) + (k + 1) < |road| && b[(k + 1) + 1] == road[Offset(r, len) + (k + 1)]
    requires r < size - 1 ==> Offset(r + 1, len) < |road| && b[len + 1] == road[Offset(r + 1, len)]
    requires r == size - 1 ==> 0 < |road| && b[len + 1] == road[0]
    ensures Offset(r, len) + k < |road|
    ensures b[k + 2] == road[RightOf(Offset(r, len) + k, |road|)]
  {
    RightIndex(size, len, r, k);
  }

  /** The left slot of the window of cell k of rank r is the ring's left
      neighbour of cell r*len+k: inside the slice, or the ghost received
      from the left rank. */
  lemma LeftSlot(parts: seq<seq<int>>, len: nat, r: nat, k: nat)
    requires len >= 1 && Uniform(parts, len) && r < |parts| && k < len
    ensures |Exchanged(parts, r)| == len + 2
    ensures |Flatten(parts)| == Offset(|parts|, len) && Offset(r, len) + k < |Flatten(parts)|
    ensures Exchanged(parts, r)[k] == Flatten(parts)[LeftOf(Offset(r, len) + k, |Flatten(parts)|)]
  {
    ExchangedSlots(parts, len, r, k);
    if k > 0 {
      CentreSlot(parts, len, r, k - 1);
    }
    LeftGhost(parts, len, r);
    LeftNeighbourSlot(Exchanged(parts, r), Flatten(parts), |parts|, len, r, k);
  }

  /** The right slot of the window of cell k of rank r is the ring's right
      neighbour of cell r*len+k: inside the slice, or the ghost received
      from the right rank. */
  lemma RightSlot(parts: seq<seq<int>>, len: nat, r: nat, k: nat)
    requires len >= 1 && Uniform(parts, len) && r < |parts| && k < len
    ensures |Exchanged(parts, r)| == len + 2
    ensures |Flatten(parts)| == Offset(|parts|, len) && Offset(r, len) + k < |Flatten(parts)|
    ensures Exchanged(parts, r)[k + 2] == Flatten(parts)[RightOf(Offset(r, len) + k, |Flatten(parts)|)]
  {
    ExchangedSlots(parts, len, r, k);
    if k < len - 1 {
      CentreSlot(parts, len, r, k + 1);
    }
    RightGhost(parts, len, r);
    RightNeighbourSlot(Exchanged(parts, r), Flatten(parts), |parts|, len, r, k);
  }

  /** The window of cell k of rank r after the exchange is the ring window
      of cell r*len+k of the whole road. */
  lemma WindowIsRingWindow(parts: seq<seq<int>>, len: nat, r: nat, k: nat)
    requires len >= 1 && Uniform(parts, len) && r < |parts| && k < len
    ensures |Exchange(parts)[r]| == len + 2
    ensures Offset(r, len) + k < |Flatten(parts)|
    ensures WindowCell(Exchange(parts)[r], k) == RingCell(Flatten(parts), Offset(r, len) + k)
    ensures WindowFlag(Exchange(parts)[r], k) == RingFlag(Flatten(parts), Offset(r, len) + k)
  {
    assert Exchange(parts)[r] == Exchanged(parts, r);
    CentreSlot(parts, len, r, k);
    LeftSlot(parts, len, r, k);
    RightSlot(parts, len, r, k);
  }

  /** The per-cell move flags of every rank's local step. */
  function LocalFlags(parts: seq<seq<int>>): seq<seq<int>>
    requires forall r :: 0 <= r < |parts| ==> |parts[r]| >= 1
  {
    var bufs := Exchange(parts);
    seq(|parts|, r requires 0 <= r < |parts| => WindowFlags(bufs[r]))
  }

  /** Concatenating the ranks' new cells gives the ring step of the whole
      road. */
  lemma StepsConcatenate(parts: seq<seq<int>>, len: nat)
    requires len >= 1 && Uniform(parts, len)
    ensures Uniform(DistributedStep(parts), len)
    ensures Flatten(DistributedStep(parts)) == RingStep(Flatten(parts))
  {
    var road, bufs, cells := Flatten(parts), Exchange(parts), DistributedStep(parts);
    FlattenLength(parts, len);
    forall r, k | 0 <= r < |cells| && 0 <= k < len
      ensures Offset(r, len) + k < |RingStep(road)| && RingStep(road)[Offset(r, len) + k] == cells[r][k]
    {
      WindowIsRingWindow(parts, len, r, k);
      assert cells[r][k] == WindowCell(bufs[r], k);
    }
    OffsetsFit(|parts|, len);
    FlattenUnique(cells, len, RingStep(road));
  }

  /** Concatenating the ranks' move flags gives the ring's move flags. */
  lemma FlagsConcatenate(parts: seq<seq<int>>, len: nat)
    requires len >= 1 && Uniform(parts, len)
    ensures Uniform(LocalFlags(parts), len)
    ensures Flatten(LocalFlags(parts)) == RingFlags(Flatten(parts))
  {
    var road, bufs, flags := Flatten(parts), Exchange(parts), LocalFlags(parts);
    FlattenLength(parts, len);
    forall r, k | 0 <= r < |flags| && 0 <= k < len
      ensures Offset(r, len) + k < |RingFlags(road)| && RingFlags(road)[Offset(r, len) + k] == flags[r][k]
    {
      WindowIsRingWindow(parts, len, r, k);
      assert flags[r][k] == WindowFlag(bufs[r], k);
    }
    OffsetsFit(|parts|, len);
    FlattenUnique(flags, len, RingFlags(road));
  }

  /** Partition-count invariance of one step: for every number of ranks
      and slice length, concatenating the ranks' new cells gives the serial
      ring step of the whole road, and the sum of the ranks' move counts is
      the serial step's move count. */
  lemma DistributedIsSerial(parts: seq<seq<int>>, len: nat)
    requires len >= 1 && Uniform(parts, len)
    ensures Uniform(DistributedStep(parts), len)
    ensures Flatten(DistributedStep(parts)) == RingStep(Flatten(parts))
    ensures Sum(LocalMoves(parts)) == RingMoves(Flatten(parts))
  {
    StepsConcatenate(parts, len);
    FlagsConcatenate(parts, len);
    var flags := LocalFlags(parts);
    SumFlatten(flags);
    assert seq(|flags|, r requires 0 <= r < |flags| => Sum(flags[r])) == LocalMoves(parts);
  }
}
