/**
 * Games played through the board's public operations, checking what a player
 * of the app sees: the first move never loses, later moves on a mine do,
 * a double flag toggle changes nothing, and flag counting on a fresh board.
 */
module Scenarios {
  import opened Grid
  import opened Placement
  import opened Minesweeper

  /** Toggling the flag of a cell twice leaves the board as it was. */
  method ToggleTwiceRestores(b: Board, y: int, x: int)
    requires b.Valid() && InBounds(b.height, b.width, y, x)
    modifies b, b.cells
    ensures b.Valid() && b.flagSet == old(b.flagSet) && b.flagsLeft == old(b.flagsLeft)
    ensures forall c, d {:trigger b.cells[c, d]} :: InBounds(b.height, b.width, c, d) ==> b.cells[c, d] == old(b.cells[c, d])
  {
    b.TogFlag(y, x);
    b.TogFlag(y, x);
    ToggleTwice(old(b.flagSet), (y, x));
  }

  /** The first reveal of a game with nothing revealed yet never loses. */
  method FirstRevealIsSafe(b: Board, y: int, x: int) returns (r: int)
    requires b.Valid() && InBounds(b.height, b.width, y, x)
    requires b.firstTurn && b.shown == {}
    requires (y, x) in b.mineSet ==> exists j :: 0 <= j < b.width && (0, j) !in b.mineSet
    modifies b, b.cells
    ensures r != -1
  {
    b.PoolExpand(y, x);
    r := b.GameOverCheck();
  }

  /** A chord can reveal cells while the first move is still pending. When it has
      revealed the first mine-free cell of row 0, a first tap on a mine moves the
      mine onto that revealed cell, and the game is lost. */
  method FirstRevealAfterChordLoses(b: Board, y: int, x: int) returns (r: int)
    requires b.Valid() && InBounds(b.height, b.width, y, x)
    requires b.firstTurn && (y, x) in b.mineSet
    requires exists j :: 0 <= j < b.width && (0, j) !in b.mineSet
    requires (0, FirstSafeColumn(b.mineSet, b.width, 0)) in b.shown
    modifies b, b.cells
    ensures r == -1
  {
    b.PoolExpand(y, x);
    assert (0, FirstSafeColumn(old(b.mineSet), b.width, 0)) in b.shown * b.mineSet;
    r := b.GameOverCheck();
  }

  /** After the first move, revealing a mine loses the game. */
  method MineAfterFirstTurnLoses(b: Board, y: int, x: int) returns (r: int)
    requires b.Valid() && InBounds(b.height, b.width, y, x)
    requires !b.firstTurn && (y, x) in b.mineSet
    modifies b, b.cells
    ensures r == -1
  {
    b.PoolExpand(y, x);
    assert (y, x) in b.shown * b.mineSet;
    r := b.GameOverCheck();
  }

  /** A 1 x 2 board whose single mine is placed at (0, 0): the first tap there moves
      the mine to (0, 1), the tapped cell then shows 1, and the game is won. */
  method TinyBoardFirstMove() returns (number: int, outcome: int)
    ensures number == 1 && outcome == 1
  {
    var b := new Board(1, 2, 1, [true, false]);
    assert b.mineSet == {(0, 0)};
    assert FirstSafeColumn({(0, 0)}, 2, 0) == 1;
    b.PoolExpand(0, 0);
    assert b.mineSet == {(0, 1)};
    TinyNumber();
    number := b.Check(0, 0);
    assert (0, 1) !in b.shown;
    forall p | p in b.shown ensures p == (0, 0) {
      assert InBounds(1, 2, p.0, p.1);
    }
    assert b.shown == {(0, 0)};
    outcome := b.GameOverCheck();
  }

  /** Three flags on a fresh 8 x 8 board with 10 mines leave 7 flags to place. */
  method ThreeFlags(draws: seq<bool>) returns (left: int)
    requires |draws| == 64
    ensures left == 7
  {
    var b := new Board(8, 8, 10, draws);
    b.TogFlag(0, 0);
    b.TogFlag(0, 1);
    b.TogFlag(0, 2);
    left := b.flagsLeft;
  }

  /** On the 1 x 2 board with its mine at (0, 1), cell (0, 0) is numbered 1. */
  lemma TinyNumber()
    ensures Number({(0, 1)}, 1, 2, 0, 0) == 1
  {
    var s: set<Pos> := {(0, 1)};
    assert CountAround(s, 1, 2, 0, 0, 3) == 0;
    assert CountAround(s, 1, 2, 0, 0, 4) == 1;
    assert CountAround(s, 1, 2, 0, 0, 6) == 1;
    assert CountAround(s, 1, 2, 0, 0, 8) == 1;
  }
}
