/**
 * Streaming mine placement. Cells are visited once, row by row; each becomes a
 * mine with probability minesLeft / squaresLeft. The random comparison is
 * replaced by an oracle draw, which only matters when that ratio lies strictly
 * between 0 and 1: at ratio 1 or more the cell must be a mine, at 0 or less it
 * cannot be one.
 */
module Placement {
  import opened Grid

  /** Whether the next cell is a mine, given the counters before the step and the oracle draw. */
  function Pick(minesLeft: int, squaresLeft: int, draw: bool): bool
  {
    if minesLeft >= squaresLeft then true
    else if minesLeft <= 0 then false
    else draw
  }

  /** The next position in row-major order on a grid of width w. */
  function Next(w: int, a: int, b: int): Pos
  {
    if b + 1 < w then (a, b + 1) else (a + 1, 0)
  }

  /** p comes at or after (a, b) in row-major order. */
  predicate AtOrAfter(p: Pos, a: int, b: int)
  {
    p.0 > a || (p.0 == a && p.1 >= b)
  }

  /** Inside a row of width w, Next(w, a, b) is the immediate successor of (a, b). */
  lemma NextIsSuccessor(w: int, a: int, b: int, p: Pos)
    requires 0 <= b < w && 0 <= p.1 < w
    ensures AtOrAfter(p, Next(w, a, b).0, Next(w, a, b).1) <==> AtOrAfter(p, a, b) && p != (a, b)
  {
  }

  /** The mines placed on the remaining |draws| cells, starting at (a, b) with
      minesLeft mines still to place. */
  function Place(minesLeft: int, draws: seq<bool>, w: int, a: int, b: int): set<Pos>
    decreases |draws|
  {
    if draws == [] then {}
    else
      var mine := Pick(minesLeft, |draws|, draws[0]);
      var next := Next(w, a, b);
      var rest := Place(if mine then minesLeft - 1 else minesLeft, draws[1..], w, next.0, next.1);
      if mine then {(a, b)} + rest else rest
  }

  /** One step of the stream: deciding (a, b) moves it, if it is a mine, from the
      stream still to come into the placed set, and the union stays the same. */
  lemma PlaceAdvance(placed: set<Pos>, minesLeft: int, draws: seq<bool>, w: int, a: int, b: int)
    requires draws != []
    ensures var mine := Pick(minesLeft, |draws|, draws[0]);
            var next := Next(w, a, b);
            placed + Place(minesLeft, draws, w, a, b) ==
              (if mine then placed + {(a, b)} else placed) +
              Place(if mine then minesLeft - 1 else minesLeft, draws[1..], w, next.0, next.1)
  {
  }

  /** A step keeps 0 <= minesLeft <= squaresLeft. */
  lemma PickKeepsCounters(minesLeft: int, squaresLeft: int, draw: bool)
    requires 0 <= minesLeft <= squaresLeft && squaresLeft > 0
    ensures var m := if Pick(minesLeft, squaresLeft, draw) then minesLeft - 1 else minesLeft;
            0 <= m <= squaresLeft - 1
  {
  }

  /** The stream only places mines at or after its starting position. */
  lemma {:induction false} PlaceAfter(minesLeft: int, draws: seq<bool>, w: int, a: int, b: int, p: Pos)
    requires 0 <= b
    requires p in Place(minesLeft, draws, w, a, b)
    ensures AtOrAfter(p, a, b)
    decreases |draws|
  {
    var mine := Pick(minesLeft, |draws|, draws[0]);
    var next := Next(w, a, b);
    if p != (a, b) {
      PlaceAfter(if mine then minesLeft - 1 else minesLeft, draws[1..], w, next.0, next.1, p);
    }
  }

  /** Whatever the draws, the stream places exactly minesLeft mines when
      0 <= minesLeft <= the number of cells left. */
  lemma {:induction false} PlaceCount(minesLeft: int, draws: seq<bool>, w: int, a: int, b: int)
    requires 0 <= minesLeft <= |draws| && 0 <= b
    ensures |Place(minesLeft, draws, w, a, b)| == minesLeft
    decreases |draws|
  {
    if draws != [] {
      var mine := Pick(minesLeft, |draws|, draws[0]);
      var left := if mine then minesLeft - 1 else minesLeft;
      var next := Next(w, a, b);
      PickKeepsCounters(minesLeft, |draws|, draws[0]);
      PlaceCount(left, draws[1..], w, next.0, next.1);
      if (a, b) in Place(left, draws[1..], w, next.0, next.1) {
        PlaceAfter(left, draws[1..], w, next.0, next.1, (a, b));
      }
    }
  }
}
