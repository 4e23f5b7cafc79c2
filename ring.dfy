/** Reference semantics of the road as a ring of N cells, independent of any
    buffer layout, plus the ghost-cell buffer layout that both the serial and
    the distributed programs step. */
module Ring {
  import opened Aggregate
  import opened Rule184

  /** Every position of the road holds a cell value. */
  ghost predicate Binary(s: seq<int>)
  {
    forall i :: 0 <= i < |s| ==> IsCell(s[i])
  }

  /** Index of the left neighbour of position i on a ring of n positions,
      written as the program computes a rank's left neighbour. */
  function LeftOf(i: int, n: int): (j: int)
    requires 0 <= i < n
    ensures 0 <= j < n
  {
    if i == 0 then n - 1 else i - 1
  }

  /** Index of the right neighbour of position i on a ring of n positions. */
  function RightOf(i: int, n: int): (j: int)
    requires 0 <= i < n
    ensures 0 <= j < n
  {
    if i == n - 1 then 0 else i + 1
  }

  /** The neighbour functions are the modular ones, and each undoes the
      other, for every ring size including 1. */
  lemma NeighboursAreModular(i: int, n: int)
    requires 0 <= i < n
    ensures LeftOf(i, n) == (i - 1 + n) % n
    ensures RightOf(i, n) == (i + 1) % n
    ensures RightOf(LeftOf(i, n), n) == i
    ensures LeftOf(RightOf(i, n), n) == i
  {
    if i == 0 {
      ModBelow(i - 1 + n, n);
    } else {
      ModAbove(i - 1 + n, n);
    }
    if i == n - 1 {
      ModAbove(i + 1, n);
    } else {
      ModBelow(i + 1, n);
    }
  }

  lemma ModBelow(x: int, n: int)
    requires 0 <= x < n
    ensures x % n == x
  {
  }

  lemma ModAbove(x: int, n: int)
    requires n <= x < 2 * n
    ensures x % n == x - n
  {
  }

  /** New value of position i of the ring: it sees its left and right
      neighbours, with position n-1 adjacent to position 0. */
  function RingCell(road: seq<int>, i: int): int
    requires 0 <= i < |road|
  {
    Next(road[LeftOf(i, |road|)], road[i], road[RightOf(i, |road|)])
  }

  /** Whether the car at position i of the ring moves (1) or not (0). */
  function RingFlag(road: seq<int>, i: int): int
    requires 0 <= i < |road|
  {
    MoveFlag(road[i], road[RightOf(i, |road|)])
  }

  /** One step of the automaton on the whole ring. */
  function RingStep(road: seq<int>): seq<int>
  {
    seq(|road|, i requires 0 <= i < |road| => RingCell(road, i))
  }

  /** Per-cell move flags of one ring step. */
  function RingFlags(road: seq<int>): seq<int>
  {
    seq(|road|, i requires 0 <= i < |road| => RingFlag(road, i))
  }

  /** Number of cars that move in one ring step. */
  function RingMoves(road: seq<int>): int
  {
    Sum(RingFlags(road))
  }

  /** A step of a road of cells is again a road of cells of the same length. */
  lemma StepIsBinary(road: seq<int>)
    ensures |RingStep(road)| == |road| && Binary(RingStep(road))
  {
  }

  /** The counted cells are exactly those occupied before the step and
      empty after it. */
  lemma MovedIffEmptied(road: seq<int>)
    requires Binary(road)
    ensures forall i :: 0 <= i < |road| ==>
      (RingFlags(road)[i] == 1 <==> road[i] == 1 && RingStep(road)[i] == 0)
  {
    var n := |road|;
    forall i | 0 <= i < n
      ensures RingFlags(road)[i] == 1 <==> road[i] == 1 && RingStep(road)[i] == 0
    {
      MovesIffEmptied(road[LeftOf(i, n)], road[i], road[RightOf(i, n)]);
    }
  }

  /** The left neighbour's right neighbour is the position itself. */
  lemma RightOfLeft(i: int, n: int)
    requires 0 <= i < n
    ensures RightOf(LeftOf(i, n), n) == i
  {
  }

  /** Per-cell conservation on the ring: a cell gains the car moving in from
      its left neighbour and loses its own car if that car moves. */
  lemma RingFlux(road: seq<int>, i: int)
    requires Binary(road) && 0 <= i < |road|
    ensures RingCell(road, i) == road[i] + RingFlag(road, LeftOf(i, |road|)) - RingFlag(road, i)
  {
    var n := |road|;
    var l, r := LeftOf(i, n), RightOf(i, n);
    RightOfLeft(i, n);
    assert RingFlag(road, l) == MoveFlag(road[l], road[i]);
    Flux(road[l], road[i], road[r]);
  }

  /** Car conservation: a step keeps the number of occupied cells. */
  lemma CarsConserved(road: seq<int>)
    requires Binary(road)
    ensures Sum(RingStep(road)) == Sum(road)
  {
    var n := |road|;
    if n > 0 {
      var flags := RingFlags(road);
      // the flags rotated one place right: the car arriving at each cell
      var arrivals := [flags[n - 1]] + flags[..n - 1];
      var next := RingStep(road);
      forall i | 0 <= i < n
        ensures next[i] == road[i] + arrivals[i] - flags[i]
      {
        assert next[i] == RingCell(road, i) && flags[i] == RingFlag(road, i);
        RingFlux(road, i);
        if i == 0 {
          assert arrivals[i] == flags[n - 1] == RingFlag(road, LeftOf(i, n));
        } else {
          assert arrivals[i] == flags[i - 1] == RingFlag(road, LeftOf(i, n));
        }
      }
      SumLinear(road, arrivals, flags, next);
      SumRotate(flags);
    }
  }

  /** At most every car moves in one step. */
  lemma MovesBounded(road: seq<int>)
    requires Binary(road)
    ensures 0 <= RingMoves(road) <= Sum(road)
  {
    SumBounds(RingFlags(road), road);
  }

  /** No step counts a negative number of moves. */
  lemma MovesNonNegative(road: seq<int>)
    ensures RingMoves(road) >= 0
  {
    var flags := RingFlags(road);
    SumBounds(flags, flags);
  }

  /** A worked step: on the ring 1, 0, 1, 0 each car has an empty cell
      ahead, so both cars move and every cell takes its left neighbour's
      value. */
  lemma AlternatingRoad()
    ensures RingStep([1, 0, 1, 0]) == [0, 1, 0, 1]
    ensures RingMoves([1, 0, 1, 0]) == 2
  {
    var road := [1, 0, 1, 0];
    var flags := [1, 0, 1, 0];
    assert RingFlags(road) == flags;
    assert flags[..3] == [1, 0, 1] && flags[..3][..2] == [1, 0] && flags[..3][..2][..1] == [1];
    assert Sum([1]) == 1 && Sum([1, 0]) == 1 && Sum([1, 0, 1]) == 2;
  }

  /** The road after k steps. */
  function Iterate(road: seq<int>, k: nat): seq<int>
  {
    if k == 0 then road else RingStep(Iterate(road, k - 1))
  }

  /** The sum of the move counts of the first k steps. */
  function TotalMoves(road: seq<int>, k: nat): int
  {
    if k == 0 then 0 else TotalMoves(road, k - 1) + RingMoves(Iterate(road, k - 1))
  }

  /** One more step of a run: the road and the running total it extends. */
  lemma IterateStep(road: seq<int>, k: nat, before: seq<int>)
    requires before == Iterate(road, k)
    ensures Iterate(road, k + 1) == RingStep(before)
    ensures TotalMoves(road, k + 1) == TotalMoves(road, k) + RingMoves(before)
  {
  }

  /** Iterating keeps the length, the cell values and the number of cars. */
  lemma {:induction false} IterateInvariant(road: seq<int>, k: nat)
    requires Binary(road)
    ensures |Iterate(road, k)| == |road|
    ensures Binary(Iterate(road, k))
    ensures Sum(Iterate(road, k)) == Sum(road)
  {
    if k > 0 {
      var before := Iterate(road, k - 1);
      IterateInvariant(road, k - 1);
      assert Iterate(road, k) == RingStep(before);
      StepIsBinary(before);
      CarsConserved(before);
    }
  }

  /** After k steps at most k times the number of cars have moved. */
  lemma TotalMovesBounded(road: seq<int>, k: nat)
    requires Binary(road)
    ensures 0 <= TotalMoves(road, k) <= k * Sum(road)
  {
    SumBounds(road, road);
    TotalMovesWithin(road, k, Sum(road));
    OffsetIsProduct(k, Sum(road));
  }

  /** The same bound with k times the car count built up by addition. */
  lemma {:induction false} TotalMovesWithin(road: seq<int>, k: nat, cars: nat)
    requires Binary(road) && Sum(road) == cars
    ensures 0 <= TotalMoves(road, k) <= Offset(k, cars)
  {
    if k > 0 {
      TotalMovesWithin(road, k - 1, cars);
      IteratedMovesBounded(road, k - 1);
    }
  }

  /** Every step of the run moves at most the initial number of cars. */
  lemma IteratedMovesBounded(road: seq<int>, k: nat)
    requires Binary(road)
    ensures 0 <= RingMoves(Iterate(road, k)) <= Sum(road)
  {
    IterateInvariant(road, k);
    MovesBounded(Iterate(road, k));
  }

  /** The running total never decreases. */
  lemma {:induction false} TotalMovesMonotone(road: seq<int>, j: nat, k: nat)
    requires j <= k
    ensures TotalMoves(road, j) <= TotalMoves(road, k)
  {
    if j < k {
      TotalMovesMonotone(road, j, k - 1);
      MovesNonNegative(Iterate(road, k - 1));
    }
  }

  /** Ghost-cell layout: slot 0 and slot |b|-1 are ghosts, the window of real
      cell k (slot k+1) is slots k, k+1, k+2. New values of the real cells. */
  function WindowStep(b: seq<int>): seq<int>
    requires |b| >= 2
  {
    seq(|b| - 2, k requires 0 <= k < |b| - 2 => WindowCell(b, k))
  }

  /** New value of real cell k (buffer slot k+1). */
  function WindowCell(b: seq<int>, k: int): int
    requires 0 <= k < |b| - 2
  {
    Next(b[k], b[k + 1], b[k + 2])
  }

  /** Move flag of real cell k (buffer slot k+1). */
  function WindowFlag(b: seq<int>, k: int): int
    requires 0 <= k < |b| - 2
  {
    MoveFlag(b[k + 1], b[k + 2])
  }

  /** Move flags of the real cells of a ghosted buffer. */
  function WindowFlags(b: seq<int>): seq<int>
    requires |b| >= 2
  {
    seq(|b| - 2, k requires 0 <= k < |b| - 2 => WindowFlag(b, k))
  }

  /** Move count of the real cells of a ghosted buffer. */
  function WindowMoves(b: seq<int>): int
    requires |b| >= 2
  {
    Sum(WindowFlags(b))
  }

  /** The serial buffer after its periodic ghost refresh: slot 0 mirrors the
      last cell, slot N+1 the first. */
  function Ghosted(road: seq<int>): seq<int>
    requires |road| > 0
  {
    [road[|road| - 1]] + road + [road[0]]
  }

  /** With refreshed ghosts, stepping the buffer is the ring step and counts
      the ring's moves. */
  lemma GhostedIsRing(road: seq<int>)
    requires |road| > 0
    ensures WindowStep(Ghosted(road)) == RingStep(road)
    ensures WindowFlags(Ghosted(road)) == RingFlags(road)
    ensures WindowMoves(Ghosted(road)) == RingMoves(road)
  {
    var n, b := |road|, Ghosted(road);
    forall k | 0 <= k < n
      ensures b[k] == road[LeftOf(k, n)] && b[k + 1] == road[k] && b[k + 2] == road[RightOf(k, n)]
    {
    }
  }
}
