/**
 * The Minesweeper board engine: a grid of cells with streamed mine placement,
 * neighbour numbering, flag toggling, flood-fill reveal with a one-time
 * first-move relocation, chord reveal, and the win/loss check.
 */
module Minesweeper {
  import opened Grid
  import opened Placement

  class Board {
    const height: int
    const width: int
    const mines: int
    /** The number of non-mine cells, which must all be revealed to win. */
    const emptySquares: int
    const cells: array2<Cell>

    var flagsLeft: int
    var minesLeft: int
    var squaresLeft: int
    var firstTurn: bool

    /** Abstract view of the grid: where the mines are, which cells carry a flag,
        which cells have been revealed. */
    ghost var mineSet: set<Pos>
    ghost var flagSet: set<Pos>
    ghost var shown: set<Pos>

    /** The grid matches the abstract view and the counters agree with it. */
    ghost predicate Layout()
      reads this, cells
    {
      cells.Length0 == height && cells.Length1 == width &&
      0 <= mines <= height * width && emptySquares == height * width - mines &&
      (forall p :: p in mineSet ==> InBounds(height, width, p.0, p.1)) &&
      (forall p :: p in flagSet ==> InBounds(height, width, p.0, p.1)) &&
      (forall p :: p in shown ==> InBounds(height, width, p.0, p.1)) &&
      (forall a, b {:trigger cells[a, b]} :: InBounds(height, width, a, b) ==>
         (cells[a, b].isMine <==> (a, b) in mineSet) &&
         (cells[a, b].flag <==> (a, b) in flagSet) &&
         (cells[a, b].visible <==> (a, b) in shown)) &&
      |mineSet| == mines &&
      flagsLeft == mines - |flagSet|
    }

    /** Every cell carries the number its position has in the current mine layout. */
    ghost predicate Numbered()
      reads this, cells
    {
      cells.Length0 == height && cells.Length1 == width &&
      forall a, b {:trigger Number(mineSet, height, width, a, b)} :: InBounds(height, width, a, b) ==>
        cells[a, b].value == Number(mineSet, height, width, a, b)
    }

    /** The invariant of a constructed board. */
    ghost predicate Valid()
      reads this, cells
    {
      Layout() && Numbered() && minesLeft == 0 && squaresLeft == 0
    }

    /** Builds a height x width board with `mines` mines. draws holds the outcome of the
        random comparison for each cell, in the row-major order the cells are created. */
    constructor (height: int, width: int, mines: int, draws: seq<bool>)
      requires 0 <= height && 0 <= width
      requires 0 <= mines <= height * width
      requires |draws| == height * width
      ensures Valid() && fresh(cells)
      ensures this.height == height && this.width == width && this.mines == mines
      ensures firstTurn && flagsLeft == mines && flagSet == {} && shown == {}
      ensures mineSet == Place(mines, draws, width, 0, 0)
    {
      this.height := height;
      this.width := width;
      this.mines := mines;
      emptySquares := height * width - mines;
      cells := new Cell[height, width]((a, b) => Cell(false, 0, false, false));
      flagsLeft := mines;
      minesLeft := mines;
      squaresLeft := height * width;
      firstTurn := true;
      mineSet, flagSet, shown := {}, {}, {};
      new;
      assert Placing(0, 0, draws, Place(mines, draws, width, 0, 0));
      PlaceMines(draws);
      assert mineSet == Place(mines, draws, width, 0, 0);
      CalculateNumbers();
    }

    /** Mine placement has reached (i, j): the cells before it hold the mines the
        stream has placed so far, the rest are untouched, and the stream still
        to come places the remaining mines of `all`. */
    ghost predicate Placing(i: int, j: int, remaining: seq<bool>, all: set<Pos>)
      reads this, cells
    {
      cells.Length0 == height && cells.Length1 == width &&
      squaresLeft == |remaining| && 0 <= minesLeft <= squaresLeft &&
      all == mineSet + Place(minesLeft, remaining, width, i, j) &&
      |mineSet| == mines - minesLeft &&
      (forall p :: p in mineSet ==> InBounds(height, width, p.0, p.1)) &&
      (forall a, b {:trigger cells[a, b]} :: InBounds(height, width, a, b) ==>
         !cells[a, b].flag && !cells[a, b].visible &&
         (cells[a, b].isMine <==> (a, b) in mineSet) &&
         (AtOrAfter((a, b), i, j) ==> !cells[a, b].isMine))
    }

    /** Fills the grid row by row, one placement decision per cell. */
    method PlaceMines(draws: seq<bool>)
      requires |draws| == height * width && 0 <= height && 0 <= width
      requires Placing(0, 0, draws, Place(mines, draws, width, 0, 0))
      modifies this`minesLeft, this`squaresLeft, this`mineSet, cells
      ensures Placing(height, 0, [], Place(mines, draws, width, 0, 0))
    {
      ghost var all := Place(mines, draws, width, 0, 0);
      var remaining := draws;
      for i := 0 to height
        invariant |remaining| == height * width - i * width
        invariant Placing(i, 0, remaining, all)
      {
        RowMajorStep(i, width, height);
        for j := 0 to width
          invariant |remaining| == height * width - (i * width + j)
          invariant j < width ==> Placing(i, j, remaining, all)
          invariant j == width ==> Placing(i + 1, 0, remaining, all)
        {
          remaining := PlaceCell(i, j, remaining, all);
        }
      }
    }

    /** Creates cell (i, j) with the next placement decision, consuming one draw. */
    method PlaceCell(i: int, j: int, remaining: seq<bool>, ghost all: set<Pos>) returns (rest: seq<bool>)
      requires InBounds(height, width, i, j) && remaining != []
      requires Placing(i, j, remaining, all)
      modifies this`minesLeft, this`squaresLeft, this`mineSet, cells
      ensures rest == remaining[1..]
      ensures Placing(Next(width, i, j).0, Next(width, i, j).1, rest, all)
    {
      ghost var before := minesLeft;
      assert !cells[i, j].isMine && (i, j) !in mineSet;
      var isMine := MineGenHelp(remaining[0]);
      PickKeepsCounters(before, squaresLeft + 1, remaining[0]);
      rest := remaining[1..];
      cells[i, j] := Cell(isMine, 0, false, false);
      ghost var n := Next(width, i, j);
      PlaceAdvance(mineSet, before, remaining, width, i, j);
      if isMine {
        mineSet := mineSet + {(i, j)};
      }
      forall a, b | InBounds(height, width, a, b) && AtOrAfter((a, b), n.0, n.1)
        ensures !cells[a, b].isMine
      {
        NextIsSuccessor(width, i, j, (a, b));
      }
      forall a, b | InBounds(height, width, a, b)
        ensures !cells[a, b].flag && !cells[a, b].visible && (cells[a, b].isMine <==> (a, b) in mineSet)
      {
        if (a, b) != (i, j) {
          assert cells[a, b] == old(cells[a, b]);
        }
      }
    }

    /** One streamed placement decision; squaresLeft always counts down, minesLeft
        only when a mine is placed. */
    method MineGenHelp(draw: bool) returns (isMine: bool)
      requires squaresLeft > 0
      modifies this`minesLeft, this`squaresLeft
      ensures isMine == Pick(old(minesLeft), old(squaresLeft), draw)
      ensures squaresLeft == old(squaresLeft) - 1
      ensures minesLeft == if isMine then old(minesLeft) - 1 else old(minesLeft)
    {
      isMine := Pick(minesLeft, squaresLeft, draw);
      squaresLeft := squaresLeft - 1;
      if isMine {
        minesLeft := minesLeft - 1;
      }
    }

    /** Gives every cell the number of its position in the current mine layout;
        nothing else in the grid changes. */
    method CalculateNumbers()
      requires Layout()
      modifies cells
      ensures Layout() && Numbered()
      ensures forall a, b {:trigger cells[a, b]} :: InBounds(height, width, a, b) ==>
                cells[a, b] == old(cells[a, b]).(value := Number(mineSet, height, width, a, b))
    {
      for i := 0 to height
        invariant forall a, b {:trigger cells[a, b]} :: InBounds(height, width, a, b) ==>
                    cells[a, b] == old(cells[a, b]).(value := if a < i then Number(mineSet, height, width, a, b) else old(cells[a, b].value))
      {
        for j := 0 to width
          invariant forall a, b {:trigger cells[a, b]} :: InBounds(height, width, a, b) ==>
                      cells[a, b] == old(cells[a, b]).(value := if a < i || (a == i && b < j) then Number(mineSet, height, width, a, b) else old(cells[a, b].value))
        {
          if cells[i, j].isMine {
            cells[i, j] := cells[i, j].(value := MineValue);
          } else {
            var count := 0;
            for k := 0 to 8
              invariant count == CountAround(mineSet, height, width, i, j, k)
            {
              var yo := i + YOffsets[k];
              var xo := j + XOffsets[k];
              if 0 <= yo < height && 0 <= xo < width {
                if cells[yo, xo].isMine {
                  count := count + 1;
                }
              }
            }
            cells[i, j] := cells[i, j].(value := count);
          }
        }
      }
    }

    /** The number shown on a cell. */
    function Check(y: int, x: int): (v: int)
      reads this, cells
      requires Valid() && InBounds(height, width, y, x)
      ensures v == Number(mineSet, height, width, y, x)
      ensures v == MineValue <==> (y, x) in mineSet
      ensures v != MineValue ==> 0 <= v <= 8 && v == |Neighbours(height, width, y, x) * mineSet|
    {
      NumberMeaning(mineSet, height, width, y, x);
      cells[y, x].value
    }

    /** Whether a cell has been revealed. */
    function Vis(y: int, x: int): (b: bool)
      reads this, cells
      requires Valid() && InBounds(height, width, y, x)
      ensures b <==> (y, x) in shown
    {
      cells[y, x].visible
    }

    /** Whether a cell carries a flag. */
    function Flag(y: int, x: int): (b: bool)
      reads this, cells
      requires Valid() && InBounds(height, width, y, x)
      ensures b <==> (y, x) in flagSet
    {
      cells[y, x].flag
    }

    /** Flips the flag of a hidden cell and moves flagsLeft against it; a revealed cell is left alone. */
    method TogFlag(y: int, x: int)
      requires Valid() && InBounds(height, width, y, x)
      modifies this`flagsLeft, this`flagSet, cells
      ensures Valid()
      ensures flagSet == if (y, x) in old(shown) then old(flagSet) else Toggle(old(flagSet), (y, x))
      ensures flagsLeft == old(flagsLeft) + (if (y, x) in old(shown) then 0 else if (y, x) in flagSet then -1 else 1)
      ensures forall a, b {:trigger cells[a, b]} :: InBounds(height, width, a, b) ==>
                cells[a, b] == if (a, b) == (y, x) && (y, x) !in old(shown)
                               then old(cells[a, b]).(flag := !old(cells[a, b].flag))
                               else old(cells[a, b])
    {
      if !Vis(y, x) {
        cells[y, x] := cells[y, x].(flag := !cells[y, x].flag);
        flagSet := Toggle(flagSet, (y, x));
        flagsLeft := flagsLeft + (if cells[y, x].flag then -1 else 1);
        forall a, b | InBounds(height, width, a, b)
          ensures cells[a, b] == if (a, b) == (y, x) then old(cells[a, b]).(flag := !old(cells[a, b].flag)) else old(cells[a, b])
        {
        }
      }
    }

    /** Reveals cell (a, b); nothing else changes. */
    method Show(a: int, b: int)
      requires Valid() && InBounds(height, width, a, b)
      modifies this`shown, cells
      ensures Valid() && shown == old(shown) + {(a, b)}
      ensures forall c, d {:trigger cells[c, d]} :: InBounds(height, width, c, d) ==>
                cells[c, d] == if (c, d) == (a, b) then old(cells[c, d]).(visible := true) else old(cells[c, d])
    {
      cells[a, b] := cells[a, b].(visible := true);
      shown := shown + {(a, b)};
      forall c, d | InBounds(height, width, c, d)
        ensures cells[c, d] == if (c, d) == (a, b) then old(cells[c, d]).(visible := true) else old(cells[c, d])
      {
      }
    }

    /** The first-move rescue: moves the mine at (y, x) to the first mine-free cell
        of row 0, scanning that row from the left. */
    method Relocate(y: int, x: int)
      requires Layout() && InBounds(height, width, y, x) && (y, x) in mineSet
      requires exists j :: 0 <= j < width && (0, j) !in mineSet
      modifies this`mineSet, cells
      ensures Layout()
      ensures FirstSafeColumn(old(mineSet), width, 0) < width
      ensures mineSet == old(mineSet) - {(y, x)} + {(0, FirstSafeColumn(old(mineSet), width, 0))}
      ensures forall a, b {:trigger cells[a, b]} :: InBounds(height, width, a, b) ==>
                cells[a, b] == old(cells[a, b]).(isMine := (a, b) in mineSet)
    {
      ghost var col := FirstSafeColumn(mineSet, width, 0);
      ghost var moved := mineSet - {(y, x)} + {(0, col)};
      var j := 0;
      while cells[y, x].isMine
        invariant 0 <= j <= width && col < width
        invariant mineSet == if (y, x) in old(mineSet) - mineSet then moved else old(mineSet)
        invariant (y, x) in mineSet ==> j <= col
        invariant forall a, b {:trigger cells[a, b]} :: InBounds(height, width, a, b) ==>
                    cells[a, b] == old(cells[a, b]).(isMine := (a, b) in mineSet)
        decreases width - j
      {
        if !cells[0, j].isMine {
          cells[y, x] := cells[y, x].(isMine := false);
          cells[0, j] := cells[0, j].(isMine := true);
          mineSet := moved;
        }
        j := j + 1;
      }
    }

    /** Reveals (y, x) and, when it is numbered 0, every hidden unflagged neighbour,
        continuing from each one. On the first move a mine under (y, x) is first
        relocated to row 0 and the numbers recomputed. */
    method PoolExpand(y: int, x: int)
      requires Valid() && InBounds(height, width, y, x)
      requires firstTurn && (y, x) in mineSet ==> exists j :: 0 <= j < width && (0, j) !in mineSet
      modifies this`firstTurn, this`mineSet, this`shown, cells
      ensures Valid() && !firstTurn
      ensures mineSet == if old(firstTurn) && (y, x) in old(mineSet)
                         then old(mineSet) - {(y, x)} + {(0, FirstSafeColumn(old(mineSet), width, 0))}
                         else old(mineSet)
      ensures old(firstTurn) ==> (y, x) !in mineSet
      ensures old(shown) <= shown && (y, x) in shown
      ensures forall p :: p in shown - old(shown) && p != (y, x) ==> p !in flagSet && p !in mineSet
      ensures forall p :: p in shown - old(shown) || p == (y, x) ==>
                Settled(mineSet, flagSet, shown, height, width, p.0, p.1)
      ensures forall p :: p in shown - old(shown) && p != (y, x) ==>
                ViaZero(mineSet, height, width, (shown - old(shown)) + {(y, x)}, p)
      ensures Number(mineSet, height, width, y, x) != 0 ==> shown == old(shown) + {(y, x)}
      decreases Cells(height, width) - shown, 1
    {
      if firstTurn {
        firstTurn := false;
        if cells[y, x].isMine {
          Relocate(y, x);
          CalculateNumbers();
        }
      }
      Show(y, x);
      assert cells[y, x].value == Number(mineSet, height, width, y, x);
      if cells[y, x].value == 0 {
        ghost var start := shown;
        ExpandAround(y, x);
        FillFromTarget(mineSet, flagSet, height, width, old(shown), start, shown, (y, x));
      }
    }

    /** The neighbour loop of PoolExpand for a cell numbered 0: reveals each hidden,
        unflagged in-bounds neighbour and expands from it. */
    method ExpandAround(y: int, x: int)
      requires Valid() && InBounds(height, width, y, x) && !firstTurn
      requires Number(mineSet, height, width, y, x) == 0
      modifies this`firstTurn, this`mineSet, this`shown, cells
      ensures Valid() && !firstTurn && mineSet == old(mineSet)
      ensures old(shown) <= shown
      ensures FillSound(mineSet, flagSet, height, width, old(shown), shown, y, x)
      ensures forall c, d :: InBounds(height, width, c, d) && Adjacent(y, x, c, d) ==>
                (c, d) in shown || (c, d) in flagSet
      decreases Cells(height, width) - shown, 0
    {
      for k := 0 to 8
        invariant Valid() && !firstTurn && mineSet == old(mineSet)
        invariant old(shown) <= shown
        invariant FillSound(mineSet, flagSet, height, width, old(shown), shown, y, x)
        invariant Covered(shown, flagSet, height, width, y, x, k)
      {
        var yo := y + YOffsets[k];
        var xo := x + XOffsets[k];
        ghost var before := shown;
        assert Offset(y, x, k) == (yo, xo);
        if 0 <= yo < height && 0 <= xo < width {
          if !cells[yo, xo].visible && !cells[yo, xo].flag {
            NoHitBelowZero(mineSet, height, width, y, x, 8, k);
            OffsetIsAdjacent(y, x, k);
            SpreadTo(y, x, yo, xo);
            FillSoundTrans(mineSet, flagSet, height, width, old(shown), before, shown, y, x);
          }
        }
        CoveredStep(before, shown, flagSet, height, width, y, x, k);
      }
      CoveredAll(shown, flagSet, height, width, y, x);
    }

    /** One pass of the neighbour loop of PoolExpand: the hidden, unflagged neighbour (a, b)
        of the zero cell (y, x) is revealed and expanded. */
    method SpreadTo(y: int, x: int, a: int, b: int)
      requires Valid() && InBounds(height, width, a, b) && !firstTurn
      requires Number(mineSet, height, width, y, x) == 0 && Adjacent(y, x, a, b)
      requires (a, b) !in shown && (a, b) !in flagSet && (a, b) !in mineSet
      modifies this`firstTurn, this`mineSet, this`shown, cells
      ensures Valid() && !firstTurn && mineSet == old(mineSet)
      ensures old(shown) + {(a, b)} <= shown
      ensures FillSound(mineSet, flagSet, height, width, old(shown), shown, y, x)
      decreases Cells(height, width) - shown - {(a, b)}, 2
    {
      assert (a, b) in Cells(height, width);
      Show(a, b);
      ghost var mid := shown;
      assert Cells(height, width) - shown == Cells(height, width) - old(shown) - {(a, b)};
      PoolExpand(a, b);
      FillStep(mineSet, flagSet, height, width, old(shown), old(shown), mid, shown, y, x, a, b);
    }

    /** The chord: when the flags around (y, x) match its number, reveals every hidden,
        unflagged neighbour, expanding from those numbered 0. Otherwise nothing happens. */
    method DTapExpand(y: int, x: int)
      requires Valid() && InBounds(height, width, y, x)
      modifies this`firstTurn, this`mineSet, this`shown, cells
      ensures Valid() && mineSet == old(mineSet)
      ensures firstTurn ==> old(firstTurn)
      ensures old(shown) <= shown
      ensures |Neighbours(height, width, y, x) * flagSet| != Number(mineSet, height, width, y, x) ==>
                shown == old(shown) && firstTurn == old(firstTurn)
      ensures (y, x) in mineSet ==> shown == old(shown) && firstTurn == old(firstTurn)
      ensures |Neighbours(height, width, y, x) * flagSet| == Number(mineSet, height, width, y, x) ==>
                forall c, d :: InBounds(height, width, c, d) && Adjacent(y, x, c, d) ==>
                  (c, d) in shown || (c, d) in flagSet
      ensures forall p :: p in shown - old(shown) ==>
                p !in flagSet && Settled(mineSet, flagSet, shown, height, width, p.0, p.1) &&
                (p in mineSet ==> Adjacent(y, x, p.0, p.1))
      ensures forall p :: p in shown - old(shown) ==>
                Adjacent(y, x, p.0, p.1) || ViaZero(mineSet, height, width, shown - old(shown), p)
      ensures firstTurn == (old(firstTurn) &&
                forall p :: p in shown - old(shown) ==> Number(mineSet, height, width, p.0, p.1) != 0)
    {
      var flagSurrounding := 0;
      for k := 0 to 8
        invariant flagSurrounding == CountAround(flagSet, height, width, y, x, k)
      {
        var yo := y + YOffsets[k];
        var xo := x + XOffsets[k];
        if 0 <= yo < height && 0 <= xo < width {
          if cells[yo, xo].flag {
            flagSurrounding := flagSurrounding + 1;
          }
        }
      }
      CountAroundIsNeighbourCount(flagSet, height, width, y, x);
      if flagSurrounding == Check(y, x) {
        RevealAround(y, x);
      }
    }

    /** The reveal loop of DTapExpand: every hidden, unflagged in-bounds neighbour of
        (y, x) is revealed, and those numbered 0 are expanded. */
    method RevealAround(y: int, x: int)
      requires Valid() && InBounds(height, width, y, x)
      modifies this`firstTurn, this`mineSet, this`shown, cells
      ensures Valid() && mineSet == old(mineSet)
      ensures firstTurn ==> old(firstTurn)
      ensures old(shown) <= shown
      ensures forall c, d :: InBounds(height, width, c, d) && Adjacent(y, x, c, d) ==>
                (c, d) in shown || (c, d) in flagSet
      ensures forall p :: p in shown - old(shown) ==>
                p !in flagSet && Settled(mineSet, flagSet, shown, height, width, p.0, p.1) &&
                (p in mineSet ==> Adjacent(y, x, p.0, p.1))
      ensures forall p :: p in shown - old(shown) ==>
                Adjacent(y, x, p.0, p.1) || ViaZero(mineSet, height, width, shown - old(shown), p)
      ensures firstTurn == (old(firstTurn) &&
                forall p :: p in shown - old(shown) ==> Number(mineSet, height, width, p.0, p.1) != 0)
    {
      for k := 0 to 8
        invariant Valid() && mineSet == old(mineSet) && (firstTurn ==> old(firstTurn))
        invariant old(shown) <= shown
        invariant forall p :: p in shown - old(shown) ==>
                    p !in flagSet && Settled(mineSet, flagSet, shown, height, width, p.0, p.1) &&
                    (p in mineSet ==> Adjacent(y, x, p.0, p.1))
        invariant forall p :: p in shown - old(shown) ==>
                    Adjacent(y, x, p.0, p.1) || ViaZero(mineSet, height, width, shown - old(shown), p)
        invariant firstTurn == (old(firstTurn) &&
                    forall p :: p in shown - old(shown) ==> Number(mineSet, height, width, p.0, p.1) != 0)
        invariant Covered(shown, flagSet, height, width, y, x, k)
      {
        var yo := y + YOffsets[k];
        var xo := x + XOffsets[k];
        ghost var before := shown;
        assert Offset(y, x, k) == (yo, xo);
        if 0 <= yo < height && 0 <= xo < width {
          if !cells[yo, xo].visible && !cells[yo, xo].flag {
            OffsetIsAdjacent(y, x, k);
            Uncover(yo, xo);
            forall p | p in shown - old(shown)
              ensures p !in flagSet && Settled(mineSet, flagSet, shown, height, width, p.0, p.1) &&
                      (p in mineSet ==> Adjacent(y, x, p.0, p.1))
            {
              if p in before {
                SettledGrows(mineSet, flagSet, before, shown, height, width, p.0, p.1);
              }
            }
            forall p | p in shown - old(shown) && !Adjacent(y, x, p.0, p.1)
              ensures ViaZero(mineSet, height, width, shown - old(shown), p)
            {
              if p in before {
                ViaZeroGrows(mineSet, height, width, before - old(shown), shown - old(shown), p);
              } else {
                ViaZeroGrows(mineSet, height, width, shown - before, shown - old(shown), p);
              }
            }
          }
        }
        CoveredStep(before, shown, flagSet, height, width, y, x, k);
      }
      CoveredAll(shown, flagSet, height, width, y, x);
    }

    /** One step of the chord: reveals the hidden, unflagged cell (a, b) and expands
        from it when it is numbered 0. */
    method Uncover(a: int, b: int)
      requires Valid() && InBounds(height, width, a, b) && (a, b) !in shown && (a, b) !in flagSet
      modifies this`firstTurn, this`mineSet, this`shown, cells
      ensures Valid() && mineSet == old(mineSet)
      ensures firstTurn ==> old(firstTurn)
      ensures old(shown) + {(a, b)} <= shown
      ensures forall p :: p in shown - old(shown) ==>
                p !in flagSet && Settled(mineSet, flagSet, shown, height, width, p.0, p.1) &&
                (p in mineSet ==> p == (a, b))
      ensures Number(mineSet, height, width, a, b) != 0 ==>
                shown == old(shown) + {(a, b)} && firstTurn == old(firstTurn)
      ensures forall p :: p in shown - old(shown) && p != (a, b) ==>
                ViaZero(mineSet, height, width, shown - old(shown), p)
      ensures firstTurn == (old(firstTurn) && Number(mineSet, height, width, a, b) != 0)
    {
      Show(a, b);
      assert cells[a, b].value == Number(mineSet, height, width, a, b);
      if cells[a, b].value == 0 {
        ghost var mid := shown;
        PoolExpand(a, b);
        assert (shown - mid) + {(a, b)} == shown - old(shown);
      }
    }

    /** With no mine revealed, the count of revealed cells reaches emptySquares exactly
        when every mine-free cell is revealed. */
    lemma WonIffAllSafeShown()
      requires Layout() && shown * mineSet == {}
      ensures |shown| == emptySquares <==> shown == Cells(height, width) - mineSet
    {
      forall p | p in mineSet + shown ensures p in Cells(height, width) {
      }
      AllSafeRevealed(mineSet, shown, height, width);
    }

    /** -1 when a mine has been revealed, else 1 when exactly the emptySquares count
        of cells is revealed, else 0. */
    method GameOverCheck() returns (r: int)
      requires Layout()
      ensures r == -1 <==> shown * mineSet != {}
      ensures r == 1 <==> shown * mineSet == {} && |shown| == emptySquares
      ensures r == 0 <==> shown * mineSet == {} && |shown| != emptySquares
      ensures r == 1 <==> shown * mineSet == {} && shown == Cells(height, width) - mineSet
    {
      var clearCount := 0;
      ghost var seen: set<Pos> := {};
      for i := 0 to height
        invariant clearCount == |seen|
        invariant seen <= shown - mineSet
        invariant forall p :: p in seen ==> p.0 < i
        invariant forall p :: p in shown && p.0 < i ==> p in seen
      {
        for j := 0 to width
          invariant clearCount == |seen|
          invariant seen <= shown - mineSet
          invariant forall p :: p in seen ==> p.0 < i || (p.0 == i && p.1 < j)
          invariant forall p :: p in shown && (p.0 < i || (p.0 == i && p.1 < j)) ==> p in seen
        {
          if cells[i, j].visible {
            if cells[i, j].isMine {
              assert (i, j) in shown * mineSet;
              return -1;
            }
            seen := seen + {(i, j)};
            clearCount := clearCount + 1;
          }
        }
      }
      assert seen == shown;
      assert shown * mineSet == {};
      WonIffAllSafeShown();
      if clearCount == emptySquares {
        return 1;
      }
      return 0;
    }
  }

  /** The flag set after flipping the flag at p. */
  function Toggle(flags: set<Pos>, p: Pos): (r: set<Pos>)
    ensures p in r <==> p !in flags
    ensures forall q :: q != p ==> (q in r <==> q in flags)
    ensures |r| == if p in flags then |flags| - 1 else |flags| + 1
  {
    if p in flags then flags - {p} else flags + {p}
  }

  /** Flipping the same flag twice restores the flag set. */
  lemma ToggleTwice(flags: set<Pos>, p: Pos)
    ensures Toggle(Toggle(flags, p), p) == flags
  {
  }

  /** Row i of a row-major layout fits in the first (i + 1) * width positions. */
  lemma RowMajorStep(i: int, width: int, height: int)
    requires 0 <= i < height && 0 <= width
    ensures (i + 1) * width == i * width + width <= height * width
  {
  }
}
