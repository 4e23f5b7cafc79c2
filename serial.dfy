/** The single-process reference program: one road of N cells in a buffer of
    N+2 slots whose slots 0 and N+1 are refreshed from the opposite ends
    before every step, and a second buffer that the step writes into. */
module Serial {
  import opened Aggregate
  import opened Ring
  import opened Partition
  import opened Simulation

  /** Periodic boundary: slot 0 takes the last real cell and slot N+1 the
      first, so the buffer becomes the ghosted form of the ring. */
  method RefreshGhosts(road: array<int>, n: nat)
    requires n >= 1 && road.Length == n + 2
    modifies road
    ensures road[..] == Ghosted(old(road[1..n + 1]))
  {
    road[0] := road[n];
    road[n + 1] := road[1];
  }

  /** Puts the initial cells into slots 1..N and counts the cars. */
  method LoadRoad(road: array<int>, init: seq<int>) returns (totalCars: int)
    requires road.Length == |init| + 2
    modifies road
    ensures road[1..|init| + 1] == init
    ensures totalCars == Sum(init)
  {
    var n := |init|;
    totalCars := 0;
    var i := 1;
    while i <= n
      invariant 1 <= i <= n + 1
      invariant road[1..i] == init[..i - 1]
      invariant totalCars == Sum(init[..i - 1])
    {
      road[i] := init[i - 1];
      totalCars := totalCars + road[i];
      assert init[..i][..i - 1] == init[..i - 1];
      i := i + 1;
    }
    assert init[..n] == init;
  }

  /** The whole run: argument check, loading the road and counting its cars,
      the zero-car short circuit, then `iterations` steps, each refreshing
      the ghosts, applying the rule into the other buffer, adding the step's
      move count to the running total and swapping the buffers. The final
      road is returned as a ghost. */
  method Simulate(n: int, iterations: int, init: seq<int>) returns (res: Result<Outcome>, ghost final: seq<int>)
    requires n <= 0 || |init| == n
    ensures res == Expected(n, iterations, init)
    ensures res.Ok? && res.value.Ran? ==> final == Iterate(init, iterations)
  {
    final := init;
    if n <= 0 || iterations <= 0 {
      return Err(NonPositiveArguments), final;
    }
    var road := new int[n + 2];
    var newRoad := new int[n + 2];
    var totalCars := LoadRoad(road, init);
    if totalCars == 0 {
      return Ok(NoCars), final;
    }
    road[0] := road[n];
    road[n + 1] := road[1];
    var globalMoves := 0;
    var iter := 0;
    while iter < iterations
      invariant 0 <= iter <= iterations
      invariant fresh(road) && fresh(newRoad) && road != newRoad
      invariant road.Length == n + 2 && newRoad.Length == n + 2
      invariant road[1..n + 1] == Iterate(init, iter)
      invariant globalMoves == TotalMoves(init, iter)
    {
      RefreshGhosts(road, n);
      var localMoves := ApplyRule(road, newRoad, n);
      GhostedIsRing(Iterate(init, iter));
      globalMoves := globalMoves + localMoves;
      road, newRoad := newRoad, road;
      iter := iter + 1;
    }
    final := road[1..n + 1];
    return Ok(Ran(globalMoves, totalCars)), final;
  }
}
