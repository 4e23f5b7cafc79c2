/** The serial program's local update over a buffer with ghost slots: real
    cells in slots 1..n, ghosts in slots 0 and n+1. The distributed program
    runs the same loop over a row of its rank buffers
    (Distributed.Processes.StepRank); both are specified by the window
    functions of the Ring module. */
module Partition {
  import opened Aggregate
  import opened Rule184
  import opened Ring

  /** Applies the rule to every real cell of `cur`, writing the new values
      into the same slots of `nxt`, and counts the cars that move. The ghost
      slots of `nxt` are left as they were: they are stale until refreshed. */
  method ApplyRule(cur: array<int>, nxt: array<int>, n: nat) returns (moves: int)
    requires cur.Length == n + 2 && nxt.Length == n + 2 && cur != nxt
    modifies nxt
    ensures nxt[1..n + 1] == WindowStep(cur[..])
    ensures moves == WindowMoves(cur[..])
    ensures nxt[0] == old(nxt[0]) && nxt[n + 1] == old(nxt[n + 1])
  {
    ghost var b := cur[..];
    ghost var flags := WindowFlags(b);
    moves := 0;
    var i := 1;
    while i <= n
      invariant 1 <= i <= n + 1
      invariant forall k :: 1 <= k < i ==> nxt[k] == WindowCell(b, k - 1)
      invariant moves == Sum(flags[..i - 1])
      invariant nxt[0] == old(nxt[0]) && nxt[n + 1] == old(nxt[n + 1])
    {
      var l, c, r := cur[i - 1], cur[i], cur[i + 1];
      nxt[i] := Next(l, c, r);
      if Moves(c, r) {
        moves := moves + 1;
      }
      assert flags[..i][..i - 1] == flags[..i - 1];
      i := i + 1;
    }
    assert flags[..n] == flags;
    assert nxt[1..n + 1] == WindowStep(b);
  }
}
