/** The traffic rule applied to one cell (a Rule-184 automaton): a car moves
    one cell to the right when the cell ahead of it is empty. */
module Rule184 {

  /** A cell is empty (0) or holds a car (1). */
  predicate IsCell(x: int)
  {
    x == 0 || x == 1
  }

  /** Next value of the centre cell of the window (l, c, r): occupied when a
      car arrives from the left into an empty cell, or when a car is blocked
      by the car ahead of it. */
  function Next(l: int, c: int, r: int): int
  {
    if (l == 1 && c == 0) || (c == 1 && r == 1) then 1 else 0
  }

  /** The car in the centre cell moves this step. */
  predicate Moves(c: int, r: int)
  {
    c == 1 && r == 0
  }

  /** Contribution of one cell to the step's move counter. */
  function MoveFlag(c: int, r: int): int
  {
    if Moves(c, r) then 1 else 0
  }

  /** The eight rows of the rule's truth table, and the move flag. */
  lemma TruthTable()
    ensures Next(0, 0, 0) == 0 && Next(0, 0, 1) == 0 && Next(0, 1, 0) == 0 && Next(0, 1, 1) == 1
    ensures Next(1, 0, 0) == 1 && Next(1, 0, 1) == 1 && Next(1, 1, 0) == 0 && Next(1, 1, 1) == 1
    ensures MoveFlag(1, 0) == 1 && MoveFlag(0, 0) == 0 && MoveFlag(0, 1) == 0 && MoveFlag(1, 1) == 0
  {
  }

  /** Whatever the window holds, the new value is a cell value. */
  lemma NextIsCell(l: int, c: int, r: int)
    ensures IsCell(Next(l, c, r))
  {
  }

  /** Local conservation: the new centre is the old centre, plus the car that
      arrives from the left, minus the car that leaves to the right. */
  lemma Flux(l: int, c: int, r: int)
    requires IsCell(c) && IsCell(r)
    ensures Next(l, c, r) == c + MoveFlag(l, c) - MoveFlag(c, r)
  {
  }

  /** On cell values, a move is counted exactly when the centre is occupied
      before the step and empty after it. */
  lemma MovesIffEmptied(l: int, c: int, r: int)
    requires IsCell(r)
    ensures Moves(c, r) <==> c == 1 && Next(l, c, r) == 0
  {
  }
}
