/** The distributed program, its processes run in lock step. The memories of
    the ranks are the rows of two matrices: row r of `localRoad` is rank r's
    buffer with its ghost slots 0 and local_N+1, row r of `newLocalRoad` the
    buffer its step writes into. Distinct rows never alias, as the memories
    of distinct processes do not. Collective operations (scatter,
    send-receive, all-reduce) are sequential loops over the ranks that move
    exactly the values the collective delivers. */
module Distributed {
  import opened Aggregate
  import opened Rule184
  import opened Ring
  import opened Simulation
  import opened Halo

  class Processes {
    const size: nat
    const localN: nat
    var localRoad: array2<int>
    var newLocalRoad: array2<int>

    /** Every rank holds two buffers of local_N + 2 slots. */
    ghost predicate Valid()
      reads this
    {
      && size >= 1 && localN >= 1
      && localRoad.Length0 == size && localRoad.Length1 == localN + 2
      && newLocalRoad.Length0 == size && newLocalRoad.Length1 == localN + 2
      && localRoad != newLocalRoad
    }

    /** The current buffers have one row of local_N + 2 slots per rank:
        what reading a rank's buffer needs. */
    ghost predicate Readable()
      reads this
    {
      localRoad.Length0 == size && localRoad.Length1 == localN + 2
    }

    /** Rank r's whole buffer, ghost slots included. */
    ghost function Buffer(r: int): (b: seq<int>)
      requires Readable() && 0 <= r < size
      reads this, localRoad
      ensures |b| == localN + 2
    {
      seq(localN + 2, k requires 0 <= k < localRoad.Length1 && r < localRoad.Length0 reads this, localRoad =>
        localRoad[r, k])
    }

    /** Rank r's real cells. */
    ghost function Cells(r: int): (c: seq<int>)
      requires Readable() && 0 <= r < size
      reads this, localRoad
      ensures |c| == localN
    {
      seq(localN, k requires 0 <= k < localRoad.Length1 - 1 && r < localRoad.Length0 reads this, localRoad =>
        localRoad[r, k + 1])
    }

    /** The slices of all ranks, in rank order. */
    ghost function Slices(): (parts: seq<seq<int>>)
      requires Readable()
      reads this, localRoad
      ensures |parts| == size && Uniform(parts, localN)
    {
      seq(size, r requires 0 <= r < size && Readable() reads this, localRoad => Cells(r))
    }

    /** Start-up and scatter: `size` ranks with `localN` cells each, rank r
        receiving the cells of `init` from r*localN on into its real slots. */
    constructor (init: seq<int>, size: nat, localN: nat)
      requires size >= 1 && localN >= 1 && |init| == Offset(size, localN)
      ensures this.size == size && this.localN == localN && Valid()
      ensures fresh(localRoad) && fresh(newLocalRoad)
      ensures Slices() == Scatter(init, size, localN)
    {
      this.size := size;
      this.localN := localN;
      OffsetsFit(size, localN);
      localRoad := new int[size, localN + 2]((r, k) requires 0 <= r < size && 0 <= k < localN + 2 =>
        if 1 <= k <= localN then init[Offset(r, localN) + k - 1] else 0);
      newLocalRoad := new int[size, localN + 2];
      new;
      ghost var parts := Scatter(init, size, localN);
      forall r | 0 <= r < size
        ensures Cells(r) == parts[r]
      {
        forall k | 0 <= k < localN
          ensures Cells(r)[k] == parts[r][k]
        {
          ScatterAt(init, size, localN, r, k);
        }
      }
    }

    /** Rank r's own car count, before the all-reduce. */
    method CountCars(r: nat) returns (cars: int)
      requires Valid() && r < size
      ensures cars == Sum(Cells(r))
    {
      ghost var cells := Cells(r);
      cars := 0;
      var i := 1;
      while i <= localN
        invariant 1 <= i <= localN + 1
        invariant cars == Sum(cells[..i - 1])
      {
        assert cells[..i][..i - 1] == cells[..i - 1];
        cars := cars + localRoad[r, i];
        i := i + 1;
      }
      assert cells[..localN] == cells;
    }

    /** Every rank counts its cars; the all-reduce sums the counts, which is
        the number of cars on the whole road. */
    method CountAll() returns (totalCars: int)
      requires Valid()
      ensures totalCars == Sum(Flatten(Slices()))
    {
      ghost var parts := Slices();
      var counts := [];
      var r := 0;
      while r < size
        invariant 0 <= r <= size && |counts| == r
        invariant forall s :: 0 <= s < r ==> counts[s] == Sum(parts[s])
      {
        var c := CountCars(r);
        counts := counts + [c];
        r := r + 1;
      }
      SumFlatten(parts);
      assert counts == seq(|parts|, r requires 0 <= r < |parts| => Sum(parts[r]));
      totalCars := Sum(counts);
    }

    /** What the ranks send in the first exchange: their first cells. */
    method GatherFirsts() returns (firsts: seq<int>)
      requires Valid()
      ensures firsts == Firsts(Slices())
    {
      ghost var parts := Slices();
      firsts := [];
      var r := 0;
      while r < size
        invariant 0 <= r <= size && firsts == Firsts(parts)[..r]
      {
        assert localRoad[r, 1] == parts[r][0];
        firsts := firsts + [localRoad[r, 1]];
        r := r + 1;
      }
    }

    /** What the ranks send in the second exchange: their last cells. */
    method GatherLasts(ghost parts: seq<seq<int>>) returns (lasts: seq<int>)
      requires Valid() && |parts| == size && Uniform(parts, localN)
      requires forall r :: 0 <= r < size ==> localRoad[r, localN] == parts[r][localN - 1]
      ensures lasts == Lasts(parts)
    {
      lasts := [];
      var r := 0;
      while r < size
        invariant 0 <= r <= size && lasts == Lasts(parts)[..r]
      {
        lasts := lasts + [localRoad[r, localN]];
        r := r + 1;
      }
    }

    /** The receives of one exchange: every rank stores the message it got
        in ghost slot `slot` of its buffer. */
    method Deliver(received: seq<int>, slot: nat)
      requires Valid() && |received| == size && (slot == 0 || slot == localN + 1)
      modifies localRoad
      ensures forall r, k :: 0 <= r < size && 0 <= k < localN + 2 ==>
        localRoad[r, k] == if k == slot then received[r] else old(localRoad[r, k])
    {
      var r := 0;
      while r < size
        invariant 0 <= r <= size
        invariant forall s, k :: 0 <= s < size && 0 <= k < localN + 2 ==>
          localRoad[s, k] == if k == slot && s < r then received[s] else old(localRoad[s, k])
      {
        localRoad[r, slot] := received[r];
        r := r + 1;
      }
    }

    /** Both send-receive exchanges of a step: every rank sends its first
        cell to its left neighbour and receives its right ghost from its
        right neighbour, then sends its last cell to its right neighbour and
        receives its left ghost from its left neighbour. Afterwards every
        buffer is its slice between the two ghosts the ring calls for. */
    method ExchangeHalos()
      requires Valid()
      modifies localRoad
      ensures Valid()
      ensures forall r :: 0 <= r < size ==> Buffer(r) == Exchange(old(Slices()))[r]
    {
      ghost var parts := Slices();
      assert forall r, k :: 0 <= r < size && 1 <= k <= localN ==> localRoad[r, k] == parts[r][k - 1];
      ExchangesDeliverGhosts(parts);
      var firsts := GatherFirsts();
      var fromRight := SendRecv(firsts, LeftTable(size), RightTable(size)).value;
      Deliver(fromRight, localN + 1);
      var lasts := GatherLasts(parts);
      var fromLeft := SendRecv(lasts, RightTable(size), LeftTable(size)).value;
      Deliver(fromLeft, 0);
      forall r | 0 <= r < size
        ensures Buffer(r) == Exchange(parts)[r]
      {
        var b := Exchanged(parts, r);
        assert Exchange(parts)[r] == b;
        forall k | 0 <= k < localN + 2
          ensures Buffer(r)[k] == b[k]
        {
          if 1 <= k <= localN {
            assert b[k] == parts[r][k - 1];
          }
        }
      }
    }

    /** Rank r applies the rule to its exchanged buffer, writing its row of
        the other buffer, and counts the cars that move. */
    method StepRank(r: nat) returns (moves: int)
      requires Valid() && r < size
      modifies newLocalRoad
      ensures forall k :: 0 <= k < localN ==> newLocalRoad[r, k + 1] == WindowCell(Buffer(r), k)
      ensures forall s, k :: 0 <= s < size && s != r && 0 <= k < localN + 2 ==>
        newLocalRoad[s, k] == old(newLocalRoad[s, k])
      ensures moves == WindowMoves(Buffer(r))
    {
      ghost var b := Buffer(r);
      ghost var flags := WindowFlags(b);
      moves := 0;
      var i := 1;
      while i <= localN
        invariant 1 <= i <= localN + 1
        invariant forall k :: 0 <= k < i - 1 ==> newLocalRoad[r, k + 1] == WindowCell(b, k)
        invariant forall s, k :: 0 <= s < size && s != r && 0 <= k < localN + 2 ==>
          newLocalRoad[s, k] == old(newLocalRoad[s, k])
        invariant moves == Sum(flags[..i - 1])
      {
        var left, centre, right := localRoad[r, i - 1], localRoad[r, i], localRoad[r, i + 1];
        newLocalRoad[r, i] := Next(left, centre, right);
        if Moves(centre, right) {
          moves := moves + 1;
        }
        assert flags[..i][..i - 1] == flags[..i - 1];
        i := i + 1;
      }
      assert flags[..localN] == flags;
    }

    /** Every rank takes its local step; then every rank swaps its buffers.
        The ranks' new cells and move counts are those of the distributed
        step of the slices the exchange started from. */
    method StepAll(ghost parts: seq<seq<int>>) returns (localMoves: seq<int>)
      requires Valid() && |parts| == size && Uniform(parts, localN)
      requires forall r :: 0 <= r < size ==> Buffer(r) == Exchange(parts)[r]
      modifies this, newLocalRoad
      ensures Valid() && localRoad == old(newLocalRoad) && newLocalRoad == old(localRoad)
      ensures Slices() == DistributedStep(parts)
      ensures localMoves == LocalMoves(parts)
    {
      localMoves := [];
      var r := 0;
      while r < size
        invariant 0 <= r <= size && |localMoves| == r
        invariant localRoad == old(localRoad) && newLocalRoad == old(newLocalRoad)
        invariant forall s, k :: 0 <= s < r && 0 <= k < localN ==>
          newLocalRoad[s, k + 1] == WindowCell(Exchange(parts)[s], k)
        invariant forall s :: 0 <= s < r ==> localMoves[s] == LocalMoves(parts)[s]
      {
        var m := StepRank(r);
        assert Buffer(r) == Exchange(parts)[r];
        assert LocalMoves(parts)[r] == WindowMoves(Exchange(parts)[r]);
        localMoves := localMoves + [m];
        r := r + 1;
      }
      localRoad, newLocalRoad := newLocalRoad, localRoad;
      forall s | 0 <= s < size
        ensures Cells(s) == DistributedStep(parts)[s]
      {
        assert Cells(s) == WindowStep(Exchange(parts)[s]);
      }
    }

    /** One iteration on every rank: the halo exchange, the local steps and
        the all-reduce of the move counts. The new slices concatenate to the
        ring step of the whole road and the reduced count is that step's
        move count. */
    method Round() returns (movesThisIter: int)
      requires Valid()
      modifies this, localRoad, newLocalRoad
      ensures Valid() && localRoad == old(newLocalRoad) && newLocalRoad == old(localRoad)
      ensures Flatten(Slices()) == RingStep(Flatten(old(Slices())))
      ensures movesThisIter == RingMoves(Flatten(old(Slices())))
    {
      ghost var parts := Slices();
      ExchangeHalos();
      var localMoves := StepAll(parts);
      DistributedIsSerial(parts, localN);
      movesThisIter := Sum(localMoves);
    }

    /** After k rounds from the road `road`, the slices concatenate to the
        k-th ring step of `road` and `total` is the sum of the move counts of
        those k steps. */
    ghost predicate Reached(road: seq<int>, k: nat, total: int)
      reads this, localRoad
    {
      Valid() && Flatten(Slices()) == Iterate(road, k) && total == TotalMoves(road, k)
    }

    /** Before the first round, the current slices have reached themselves
        after zero steps with no moves. */
    lemma ReachedStart()
      requires Valid()
      ensures Reached(Flatten(Slices()), 0, 0)
    {
    }

    /** One pass of the simulation loop's body: a round, its reduced move
        count added to the running total. */
    method Advance(ghost road: seq<int>, ghost k: nat, total: int) returns (newTotal: int)
      requires Reached(road, k, total)
      modifies this, localRoad, newLocalRoad
      ensures Reached(road, k + 1, newTotal)
      ensures localRoad == old(newLocalRoad) && newLocalRoad == old(localRoad)
    {
      ghost var before := Flatten(Slices());
      var movesThisIter := Round();
      IterateStep(road, k, before);
      newTotal := total + movesThisIter;
    }

    /** The simulation loop: `iterations` rounds from the road `road`, the
        buffers swapped once per round. */
    method Rounds(ghost road: seq<int>, iterations: nat) returns (globalMoves: int)
      requires Reached(road, 0, 0)
      modifies this, localRoad, newLocalRoad
      ensures Reached(road, iterations, globalMoves)
    {
      globalMoves := 0;
      var iter := 0;
      while iter < iterations
        invariant 0 <= iter <= iterations && Reached(road, iter, globalMoves)
        invariant (localRoad == old(localRoad) && newLocalRoad == old(newLocalRoad)) ||
                  (localRoad == old(newLocalRoad) && newLocalRoad == old(localRoad))
      {
        globalMoves := Advance(road, iter, globalMoves);
        iter := iter + 1;
      }
    }

    /** The simulation loop from the current slices, rank 0 adding each
        reduced move count to its running total. */
    method Run(iterations: nat) returns (globalMoves: int)
      requires Valid()
      modifies this, localRoad, newLocalRoad
      ensures Valid()
      ensures Flatten(Slices()) == Iterate(Flatten(old(Slices())), iterations)
      ensures globalMoves == TotalMoves(Flatten(old(Slices())), iterations)
    {
      ghost var road := Flatten(Slices());
      ReachedStart();
      globalMoves := Rounds(road, iterations);
    }
  }

  /** The whole run of the distributed program on `size` ranks: argument
      and divisibility checks, the scatter, the all-reduced car count with
      its zero-car short circuit, then `iterations` rounds, rank 0 adding
      each reduced move count to its running total. The concatenated final
      road is returned as a ghost. */
  method Simulate(n: int, size: int, iterations: int, init: seq<int>)
    returns (res: Result<Outcome>, ghost final: seq<int>)
    requires size >= 1
    requires n <= 0 || |init| == n
    ensures res == ExpectedDistributed(n, size, iterations, init)
    ensures res.Ok? && res.value.Ran? ==> final == Iterate(init, iterations)
  {
    final := init;
    if n <= 0 || iterations <= 0 {
      return Err(NonPositiveArguments), final;
    }
    if n % size != 0 {
      return Err(IndivisibleDomain), final;
    }
    var localN := n / size;
    OffsetIsProduct(size, localN);
    ScatterLayout(init, size, localN);
    var procs := new Processes(init, size, localN);
    var totalCars := procs.CountAll();
    if totalCars == 0 {
      return Ok(NoCars), final;
    }
    var globalMoves := procs.Run(iterations);
    final := Flatten(procs.Slices());
    return Ok(Ran(globalMoves, totalCars)), final;
  }
}
