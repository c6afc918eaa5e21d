/**
 * Geometry of a height x width Minesweeper grid: cells, the eight Moore
 * neighbours reached through the board's offset tables, and counting of a
 * set of positions (mines or flags) around a cell.
 */
module Grid {

  /** A (row, column) coordinate. */
  type Pos = (int, int)

  /** One square of the board: mine status, neighbouring-mine number (-1 on a mine),
      whether it has been revealed and whether the player has flagged it. */
  datatype Cell = Cell(isMine: bool, value: int, visible: bool, flag: bool)

  /** The sentinel number carried by a mine. */
  const MineValue: int := -1

  /** Row and column offsets of the eight neighbours, clockwise from the top left. */
  const YOffsets: seq<int> := [-1, -1, -1, 0, 1, 1, 1, 0]
  const XOffsets: seq<int> := [-1, 0, 1, 1, 1, 0, -1, -1]

  predicate InBounds(h: int, w: int, y: int, x: int)
  {
    0 <= y < h && 0 <= x < w
  }

  /** Every position of the grid. */
  function Cells(h: int, w: int): set<Pos>
  {
    set a, b | 0 <= a < h && 0 <= b < w :: (a, b)
  }

  /** (a, b) is one of the eight positions around (y, x). */
  predicate Adjacent(y: int, x: int, a: int, b: int)
  {
    -1 <= a - y <= 1 && -1 <= b - x <= 1 && (a != y || b != x)
  }

  /** The in-bounds Moore neighbours of (y, x). */
  function Neighbours(h: int, w: int, y: int, x: int): set<Pos>
  {
    set a, b | y - 1 <= a <= y + 1 && x - 1 <= b <= x + 1 && InBounds(h, w, a, b) && Adjacent(y, x, a, b) :: (a, b)
  }

  /** The position reached from (y, x) by the k-th offset. */
  function Offset(y: int, x: int, k: int): Pos
    requires 0 <= k < 8
  {
    (y + YOffsets[k], x + XOffsets[k])
  }

  /** True when the k-th offset of (y, x) lands inside the grid on a member of s. */
  predicate Hit(s: set<Pos>, h: int, w: int, y: int, x: int, k: int)
    requires 0 <= k < 8
  {
    var p := Offset(y, x, k);
    InBounds(h, w, p.0, p.1) && p in s
  }

  /** How many of the first k offsets of (y, x) land inside the grid on a member of s:
      the counting loop over the offset tables, k steps in. */
  function CountAround(s: set<Pos>, h: int, w: int, y: int, x: int, k: int): (n: nat)
    requires 0 <= k <= 8
    ensures n <= k
  {
    if k == 0 then 0
    else CountAround(s, h, w, y, x, k - 1) + (if Hit(s, h, w, y, x, k - 1) then 1 else 0)
  }

  /** The number a cell shows for the mine layout `mines`: the sentinel on a mine,
      otherwise the count of mines around it. */
  function Number(mines: set<Pos>, h: int, w: int, y: int, x: int): int
  {
    if (y, x) in mines then MineValue else CountAround(mines, h, w, y, x, 8)
  }

  /** The first column at or after j whose row-0 cell is not in `mines`, or w if there is none. */
  function FirstSafeColumn(mines: set<Pos>, w: int, j: int): (r: int)
    requires 0 <= j <= w
    decreases w - j
    ensures j <= r <= w
    ensures forall c :: j <= c < r ==> (0, c) in mines
    ensures r < w ==> (0, r) !in mines
  {
    if j == w then w
    else if (0, j) !in mines then j
    else FirstSafeColumn(mines, w, j + 1)
  }

  /** Every offset reaches a neighbour. */
  lemma OffsetIsAdjacent(y: int, x: int, k: int)
    requires 0 <= k < 8
    ensures Adjacent(y, x, Offset(y, x, k).0, Offset(y, x, k).1)
  {
    assert k == 0 || k == 1 || k == 2 || k == 3 || k == 4 || k == 5 || k == 6 || k == 7;
  }

  /** Every neighbour is reached by some offset. */
  lemma AdjacentHasOffset(y: int, x: int, a: int, b: int) returns (k: int)
    requires Adjacent(y, x, a, b)
    ensures 0 <= k < 8 && Offset(y, x, k) == (a, b)
  {
    if a == y - 1 {
      k := if b == x - 1 then 0 else if b == x then 1 else 2;
    } else if a == y {
      k := if b == x + 1 then 3 else 7;
    } else {
      k := if b == x + 1 then 4 else if b == x then 5 else 6;
    }
  }

  /** The eight offsets reach eight different positions. */
  lemma OffsetsDistinct(y: int, x: int, i: int, j: int)
    requires 0 <= i < 8 && 0 <= j < 8 && i != j
    ensures Offset(y, x, i) != Offset(y, x, j)
  {
    assert i == 0 || i == 1 || i == 2 || i == 3 || i == 4 || i == 5 || i == 6 || i == 7;
    assert j == 0 || j == 1 || j == 2 || j == 3 || j == 4 || j == 5 || j == 6 || j == 7;
  }

  /** The members of s reached by the first k offsets. */
  function HitSet(s: set<Pos>, h: int, w: int, y: int, x: int, k: int): set<Pos>
    requires 0 <= k <= 8
  {
    if k == 0 then {}
    else HitSet(s, h, w, y, x, k - 1) + (if Hit(s, h, w, y, x, k - 1) then {Offset(y, x, k - 1)} else {})
  }

  /** The members of HitSet are exactly the hits of the first k offsets. */
  lemma {:induction false} HitSetMembers(s: set<Pos>, h: int, w: int, y: int, x: int, k: int, p: Pos)
    requires 0 <= k <= 8
    ensures p in HitSet(s, h, w, y, x, k) <==>
              exists i :: 0 <= i < k && Hit(s, h, w, y, x, i) && p == Offset(y, x, i)
  {
    if k > 0 {
      HitSetMembers(s, h, w, y, x, k - 1, p);
      if p == Offset(y, x, k - 1) && Hit(s, h, w, y, x, k - 1) {
        assert p in HitSet(s, h, w, y, x, k);
      }
    }
  }

  lemma {:induction false} HitSetCount(s: set<Pos>, h: int, w: int, y: int, x: int, k: int)
    requires 0 <= k <= 8
    ensures |HitSet(s, h, w, y, x, k)| == CountAround(s, h, w, y, x, k)
  {
    if k > 0 {
      HitSetCount(s, h, w, y, x, k - 1);
      var q := Offset(y, x, k - 1);
      var prev := HitSet(s, h, w, y, x, k - 1);
      if q in prev {
        HitSetMembers(s, h, w, y, x, k - 1, q);
        var i :| 0 <= i < k - 1 && Hit(s, h, w, y, x, i) && q == Offset(y, x, i);
        OffsetsDistinct(y, x, i, k - 1);
      }
      assert q !in prev;
    }
  }

  /** The offset loop counts exactly the members of s among the in-bounds neighbours. */
  lemma CountAroundIsNeighbourCount(s: set<Pos>, h: int, w: int, y: int, x: int)
    ensures CountAround(s, h, w, y, x, 8) == |Neighbours(h, w, y, x) * s|
  {
    HitSetCount(s, h, w, y, x, 8);
    var hits, around := HitSet(s, h, w, y, x, 8), Neighbours(h, w, y, x) * s;
    forall p | p in hits ensures p in around {
      HitSetMembers(s, h, w, y, x, 8, p);
      var i :| 0 <= i < 8 && Hit(s, h, w, y, x, i) && p == Offset(y, x, i);
      OffsetIsAdjacent(y, x, i);
    }
    forall p | p in around ensures p in hits {
      var k := AdjacentHasOffset(y, x, p.0, p.1);
      assert Hit(s, h, w, y, x, k);
      HitSetMembers(s, h, w, y, x, 8, p);
    }
    assert hits == around;
  }

  /** What a cell's number means: -1 exactly on a mine, otherwise the number of
      in-bounds neighbouring mines, which lies in 0..8. */
  lemma NumberMeaning(mines: set<Pos>, h: int, w: int, y: int, x: int)
    ensures Number(mines, h, w, y, x) == MineValue <==> (y, x) in mines
    ensures (y, x) !in mines ==>
              0 <= Number(mines, h, w, y, x) <= 8 &&
              Number(mines, h, w, y, x) == |Neighbours(h, w, y, x) * mines|
  {
    CountAroundIsNeighbourCount(mines, h, w, y, x);
  }

  /** A cell numbered 0 has nothing left to uncover around it: each in-bounds
      neighbour is already revealed or carries a flag. */
  ghost predicate Settled(mines: set<Pos>, flags: set<Pos>, shown: set<Pos>, h: int, w: int, a: int, b: int)
  {
    Number(mines, h, w, a, b) == 0 ==>
      forall c, d {:trigger Adjacent(a, b, c, d)} :: InBounds(h, w, c, d) && Adjacent(a, b, c, d) ==>
        (c, d) in shown || (c, d) in flags
  }

  /** Revealing more cells keeps a settled cell settled. */
  lemma SettledGrows(mines: set<Pos>, flags: set<Pos>, s: set<Pos>, t: set<Pos>, h: int, w: int, a: int, b: int)
    requires s <= t && Settled(mines, flags, s, h, w, a, b)
    ensures Settled(mines, flags, t, h, w, a, b)
  {
  }

  /** p is next to some cell of src numbered 0: the flood fill only goes on from zero cells. */
  ghost predicate ViaZero(mines: set<Pos>, h: int, w: int, src: set<Pos>, p: Pos)
  {
    exists q :: q in src && Number(mines, h, w, q.0, q.1) == 0 && Adjacent(q.0, q.1, p.0, p.1)
  }

  /** A larger source set still reaches p through a zero cell. */
  lemma ViaZeroGrows(mines: set<Pos>, h: int, w: int, src: set<Pos>, more: set<Pos>, p: Pos)
    requires src <= more && ViaZero(mines, h, w, src, p)
    ensures ViaZero(mines, h, w, more, p)
  {
  }

  /** When the offset loop finds nothing in its first k steps, no one of those offsets is a hit. */
  lemma {:induction false} NoHitBelowZero(s: set<Pos>, h: int, w: int, y: int, x: int, k: int, i: int)
    requires 0 <= i < k <= 8 && CountAround(s, h, w, y, x, k) == 0
    ensures !Hit(s, h, w, y, x, i)
    decreases k
  {
    if i < k - 1 {
      NoHitBelowZero(s, h, w, y, x, k - 1, i);
    }
  }

  /** The cells of row a. */
  function Row(a: int, w: int): set<Pos>
  {
    set b | 0 <= b < w :: (a, b)
  }

  lemma {:induction false} RowCount(a: int, w: int)
    requires 0 <= w
    ensures |Row(a, w)| == w
    decreases w
  {
    if w > 0 {
      RowCount(a, w - 1);
      assert Row(a, w) == Row(a, w - 1) + {(a, w - 1)};
    }
  }

  /** The grid of h rows is the grid of h - 1 rows plus its last row. */
  lemma CellsSplit(h: int, w: int)
    requires 0 < h
    ensures Cells(h, w) == Cells(h - 1, w) + Row(h - 1, w)
    ensures Cells(h - 1, w) * Row(h - 1, w) == {}
  {
    var upper, last := Cells(h - 1, w), Row(h - 1, w);
    forall p | p in Cells(h, w) ensures p in upper + last {
      if p.0 < h - 1 {
        assert p in upper;
      } else {
        assert p in last;
      }
    }
  }

  /** A height x width grid has height * width cells. */
  lemma {:induction false} CellsCount(h: int, w: int)
    requires 0 <= h && 0 <= w
    ensures |Cells(h, w)| == h * w
    decreases h
  {
    if h > 0 {
      CellsCount(h - 1, w);
      RowCount(h - 1, w);
      CellsSplit(h, w);
      assert h * w == (h - 1) * w + w;
    }
  }

  /** With no mine revealed and m of the h * w cells mined, exactly h * w - m cells are
      revealed if and only if every mine-free cell is revealed. */
  lemma AllSafeRevealed(mines: set<Pos>, shown: set<Pos>, h: int, w: int)
    requires 0 <= h && 0 <= w
    requires mines <= Cells(h, w) && shown <= Cells(h, w) && shown * mines == {}
    ensures |shown| == h * w - |mines| <==> shown == Cells(h, w) - mines
  {
    CellsCount(h, w);
    var safe := Cells(h, w) - mines;
    assert |safe| == h * w - |mines|;
    if |shown| == |safe| {
      assert |safe - shown| == |safe| - |shown|;
      assert safe - shown == {};
    }
  }

  /** What a flood fill from the zero cell (y, x) has revealed since `start`, now that
      `now` is revealed: only safe, unflagged cells, each fully expanded and next to a
      zero cell the fill went through. */
  ghost predicate FillSound(mines: set<Pos>, flags: set<Pos>, h: int, w: int, start: set<Pos>, now: set<Pos>, y: int, x: int)
  {
    forall p :: p in now - start ==>
      p !in flags && p !in mines && Settled(mines, flags, now, h, w, p.0, p.1) &&
      ViaZero(mines, h, w, (now - start) + {(y, x)}, p)
  }

  /** One step of the flood fill from the zero cell (y, x): its neighbour (a, b) is revealed
      (before becomes mid) and expanded (mid becomes after). Whatever the fill had revealed
      since start stays safe, unflagged, fully expanded and reached through a zero cell. */
  lemma FillStep(mines: set<Pos>, flags: set<Pos>, h: int, w: int,
                 start: set<Pos>, before: set<Pos>, mid: set<Pos>, after: set<Pos>,
                 y: int, x: int, a: int, b: int)
    requires start <= before && mid == before + {(a, b)} && (a, b) !in before && mid <= after
    requires Number(mines, h, w, y, x) == 0 && Adjacent(y, x, a, b)
    requires (a, b) !in flags && (a, b) !in mines
    requires FillSound(mines, flags, h, w, start, before, y, x)
    requires forall p :: p in after - mid && p != (a, b) ==> p !in flags && p !in mines
    requires forall p :: p in after - mid || p == (a, b) ==> Settled(mines, flags, after, h, w, p.0, p.1)
    requires forall p :: p in after - mid && p != (a, b) ==> ViaZero(mines, h, w, (after - mid) + {(a, b)}, p)
    ensures FillSound(mines, flags, h, w, start, after, y, x)
  {
    var src := (after - start) + {(y, x)};
    forall p | p in after - start
      ensures p !in flags && p !in mines && Settled(mines, flags, after, h, w, p.0, p.1) && ViaZero(mines, h, w, src, p)
    {
      if p in before {
        SettledGrows(mines, flags, before, after, h, w, p.0, p.1);
        ViaZeroGrows(mines, h, w, (before - start) + {(y, x)}, src, p);
      } else if p == (a, b) {
        assert (y, x) in src;
      } else {
        ViaZeroGrows(mines, h, w, (after - mid) + {(a, b)}, src, p);
      }
    }
  }

  /** The cells a fill from target t reveals, once t itself is revealed (start), are
      also reached through zero cells when counted from before t was revealed (o). */
  lemma FillFromTarget(mines: set<Pos>, flags: set<Pos>, h: int, w: int, o: set<Pos>, start: set<Pos>, after: set<Pos>, t: Pos)
    requires start == o + {t} && start <= after
    requires FillSound(mines, flags, h, w, start, after, t.0, t.1)
    ensures forall p :: p in after - o && p != t ==>
              p !in flags && p !in mines && Settled(mines, flags, after, h, w, p.0, p.1) &&
              ViaZero(mines, h, w, (after - o) + {t}, p)
  {
    forall p | p in after - o && p != t
      ensures p !in flags && p !in mines && Settled(mines, flags, after, h, w, p.0, p.1) &&
              ViaZero(mines, h, w, (after - o) + {t}, p)
    {
      ViaZeroGrows(mines, h, w, (after - start) + {t}, (after - o) + {t}, p);
    }
  }

  /** Two stretches of the same fill make one. */
  lemma FillSoundTrans(mines: set<Pos>, flags: set<Pos>, h: int, w: int, s: set<Pos>, t: set<Pos>, u: set<Pos>, y: int, x: int)
    requires s <= t <= u
    requires FillSound(mines, flags, h, w, s, t, y, x) && FillSound(mines, flags, h, w, t, u, y, x)
    ensures FillSound(mines, flags, h, w, s, u, y, x)
  {
    var src := (u - s) + {(y, x)};
    forall p | p in u - s
      ensures p !in flags && p !in mines && Settled(mines, flags, u, h, w, p.0, p.1) && ViaZero(mines, h, w, src, p)
    {
      if p in t {
        SettledGrows(mines, flags, t, u, h, w, p.0, p.1);
        ViaZeroGrows(mines, h, w, (t - s) + {(y, x)}, src, p);
      } else {
        ViaZeroGrows(mines, h, w, (u - t) + {(y, x)}, src, p);
      }
    }
  }

  /** The first k offsets of (y, x) that land inside the grid reach revealed or flagged cells. */
  ghost predicate Covered(shown: set<Pos>, flags: set<Pos>, h: int, w: int, y: int, x: int, k: int)
    requires 0 <= k <= 8
  {
    forall i :: 0 <= i < k && InBounds(h, w, Offset(y, x, i).0, Offset(y, x, i).1) ==>
      Offset(y, x, i) in shown || Offset(y, x, i) in flags
  }

  /** Coverage grows by one offset once that offset's cell is revealed, flagged or outside the grid. */
  lemma CoveredStep(before: set<Pos>, after: set<Pos>, flags: set<Pos>, h: int, w: int, y: int, x: int, k: int)
    requires 0 <= k < 8 && before <= after && Covered(before, flags, h, w, y, x, k)
    requires InBounds(h, w, Offset(y, x, k).0, Offset(y, x, k).1) ==> Offset(y, x, k) in after || Offset(y, x, k) in flags
    ensures Covered(after, flags, h, w, y, x, k + 1)
  {
  }

  /** All eight offsets covered: every in-bounds neighbour is revealed or flagged. */
  lemma CoveredAll(shown: set<Pos>, flags: set<Pos>, h: int, w: int, y: int, x: int)
    requires Covered(shown, flags, h, w, y, x, 8)
    ensures forall c, d :: InBounds(h, w, c, d) && Adjacent(y, x, c, d) ==> (c, d) in shown || (c, d) in flags
  {
    forall c, d | InBounds(h, w, c, d) && Adjacent(y, x, c, d)
      ensures (c, d) in shown || (c, d) in flags
    {
      var k := AdjacentHasOffset(y, x, c, d);
    }
  }
}
