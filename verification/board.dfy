/** The Minesweeper board engine: a grid of tiles, each of which may hold a
    mine, be exposed and be marked with a flag, together with the running
    count of marks and whether the board still accepts input. */
module Minesweeper {
  import opened Grid
  import opened Placement

  /** The mouse buttons the click handler reacts to. */
  const LeftButton := 0
  const RightButton := 2

  /** A set with one tile flipped in or out. */
  function Toggle(s: set<Cell>, c: Cell): set<Cell> {
    if c in s then s - {c} else s + {c}
  }

  /** The positions at which a grid of flags is set. */
  ghost function Cells(g: array2<bool>): set<Cell>
    reads g
  {
    set c | c in AllCells(g.Length0, g.Length1) && g[c.0, c.1]
  }

  /** The positions at which a grid of flags is clear. */
  ghost function Unset(g: array2<bool>): set<Cell>
    reads g
  {
    set c | c in AllCells(g.Length0, g.Length1) && !g[c.0, c.1]
  }

  /** A grid that agrees with the sets `on` and `off` of positions
      everywhere except at (x, y), where it now holds v: (x, y) has moved
      into or out of them and nothing else has. */
  lemma CellsAfterWrite(g: array2<bool>, x: int, y: int, v: bool, on: set<Cell>, off: set<Cell>)
    requires 0 <= x < g.Length0 && 0 <= y < g.Length1 && g[x, y] == v
    requires forall c :: c != (x, y) ==> (c in on <==> c in Cells(g)) && (c in off <==> c in Unset(g))
    ensures v ==> Cells(g) == on + {(x, y)} && Unset(g) == off - {(x, y)}
    ensures !v ==> Cells(g) == on - {(x, y)} && Unset(g) == off + {(x, y)}
  {
    assert (x, y) in AllCells(g.Length0, g.Length1);
    assert Cells(g) == (if v then on + {(x, y)} else on - {(x, y)});
    assert Unset(g) == (if v then off - {(x, y)} else off + {(x, y)});
  }

  class Board {
    const width: nat
    const height: nat
    const mineCount: nat

    /** Tile state, indexed [x, y] with x the column and y the row. */
    const hasMine: array2<bool>
    const exposed: array2<bool>
    const marked: array2<bool>

    /** The number of marks the player has placed. */
    var markerCount: int
    /** Set once the game is over: the board then ignores every click. */
    var disabled: bool

    ghost function MineSet(): set<Cell>
      reads hasMine
    {
      Cells(hasMine)
    }

    ghost function ExposedSet(): set<Cell>
      reads exposed
    {
      Cells(exposed)
    }

    ghost function MarkedSet(): set<Cell>
      reads marked
    {
      Cells(marked)
    }

    ghost function UnexposedSet(): set<Cell>
      reads exposed
    {
      Unset(exposed)
    }

    /** The neighbour mine count of tile c. */
    ghost function AdjCount(c: Cell): nat
      reads hasMine
    {
      MinesAround(MineSet(), width, height, c)
    }

    /** The shape of the board: three grids of the board's size, exactly
        mineCount mines, and markerCount in step with the marks. */
    ghost predicate Shape()
      reads this`markerCount, hasMine, marked
    {
      && hasMine.Length0 == width && hasMine.Length1 == height
      && exposed.Length0 == width && exposed.Length1 == height
      && marked.Length0 == width && marked.Length1 == height
      && hasMine != exposed && hasMine != marked && exposed != marked
      && |MineSet()| == mineCount
      && markerCount == |MarkedSet()|
    }

    /** The shape, and a board on which a mine is exposed no longer takes
        input. This holds throughout a cascade. */
    ghost predicate Consistent()
      reads this`markerCount, this`disabled, hasMine, exposed, marked
    {
      Shape() && (!disabled ==> MineSet() !! ExposedSet())
    }

    /** No cascade is pending: every exposed tile with no mine around it has
        all its neighbours exposed. This holds between clicks. */
    ghost predicate Settled()
      reads hasMine, exposed
    {
      CascadeClosed(MineSet(), width, height, ExposedSet(), ExposedSet())
    }

    /** The board invariant between clicks. */
    ghost predicate Valid()
      reads this`markerCount, this`disabled, hasMine, exposed, marked
    {
      Consistent() && Settled()
    }

    /** Builds the board (populateBoard): every tile starts mine-free,
        unexposed and unmarked, then the mines are placed from the draws. */
    constructor Populate(width: nat, height: nat, mineCount: nat, draws: seq<Cell>)
      requires forall d :: d in draws ==> InBounds(width, height, d)
      requires mineCount <= |Drawn(draws)|
      ensures Valid()
      ensures this.width == width && this.height == height && this.mineCount == mineCount
      ensures fresh(hasMine) && fresh(exposed) && fresh(marked)
      ensures MineSet() == Place(draws, mineCount)
      ensures ExposedSet() == {} && MarkedSet() == {}
      ensures markerCount == 0 && !disabled
    {
      this.width, this.height, this.mineCount := width, height, mineCount;
      hasMine := new bool[width, height]((a, b) => false);
      exposed := new bool[width, height]((a, b) => false);
      marked := new bool[width, height]((a, b) => false);
      markerCount, disabled := 0, false;
      new;
      assert ExposedSet() == {} && MarkedSet() == {};
      PlaceMines(draws);
      PlaceExact(draws, mineCount);
    }

    /** Rejection sampling: each draw puts a mine on its tile unless the tile
        already has one, until mineCount mines are down. */
    method PlaceMines(draws: seq<Cell>)
      requires hasMine.Length0 == width && hasMine.Length1 == height
      requires MineSet() == {}
      requires forall d :: d in draws ==> InBounds(width, height, d)
      requires mineCount <= |Drawn(draws)|
      modifies hasMine
      ensures MineSet() == Place(draws, mineCount)
    {
      var minesPlaced := 0;
      var k := 0;
      // placed: the mines put down so far, as a set
      ghost var placed: set<Cell> := {};
      ghost var target := Place(draws, mineCount);
      PlaceExact(draws, mineCount);
      while minesPlaced < mineCount
        invariant 0 <= k <= |draws|
        invariant MineSet() == placed
        invariant minesPlaced == |placed| <= mineCount
        invariant PlaceFrom(placed, draws, k, mineCount) == target
        decreases |draws| - k
      {
        if k == |draws| {
          assert false;
        }
        assert draws[k] in draws;
        var tileX, tileY := draws[k].0, draws[k].1;
        assert draws[k] == (tileX, tileY);
        if !hasMine[tileX, tileY] {
          LayMine(tileX, tileY);
          minesPlaced := minesPlaced + 1;
        } else {
          assert draws[k] in AllCells(width, height);
        }
        PlaceFromStep(placed, draws, k, mineCount);
        placed := placed + {draws[k]};
        k := k + 1;
      }
    }

    /** Puts a mine on the mine-free tile (x, y): one mine more. */
    method LayMine(x: int, y: int)
      requires hasMine.Length0 == width && hasMine.Length1 == height && InBounds(width, height, (x, y))
      requires !hasMine[x, y]
      modifies hasMine
      ensures MineSet() == old(MineSet()) + {(x, y)}
      ensures |MineSet()| == |old(MineSet())| + 1
    {
      ghost var mines, clear := MineSet(), Unset(hasMine);
      assert (x, y) in AllCells(width, height) && (x, y) !in mines;
      hasMine[x, y] := true;
      CellsAfterWrite(hasMine, x, y, true, mines, clear);
    }

    /** The neighbour mine count of (x, y), counted the way the tile's
        adjacentCount getter does. */
    method AdjacentCount(x: int, y: int) returns (count: nat)
      requires hasMine.Length0 == width && hasMine.Length1 == height && InBounds(width, height, (x, y))
      ensures count == AdjCount((x, y))
    {
      ghost var mines := MineSet();
      count := 0;
      for i := -1 to 2
        invariant count == PrefixCount(mines, width, height, (x, y), 3 * (i + 1))
      {
        if 0 <= y + i < height {
          for j := -1 to 2
            invariant count == PrefixCount(mines, width, height, (x, y), 3 * (i + 1) + (j + 1))
          {
            CountStep(x, y, i, j);
            if 0 <= x + j < width && !(i == 0 && j == 0) {
              if hasMine[x + j, y + i] {
                count := count + 1;
              }
            }
          }
        } else {
          PrefixCountSkipRow(mines, width, height, (x, y), i);
        }
      }
      BlockCountIsMinesAround(mines, width, height, (x, y));
    }

    /** One step of the counting loop, read off the mine grid: the tile at
        row offset i, column offset j adds one exactly when it is on the
        board, is not (x, y) and holds a mine. */
    lemma CountStep(x: int, y: int, i: int, j: int)
      requires hasMine.Length0 == width && hasMine.Length1 == height
      requires -1 <= i <= 1 && -1 <= j <= 1 && 0 <= y + i < height
      ensures PrefixCount(MineSet(), width, height, (x, y), 3 * (i + 1) + (j + 1) + 1)
              == PrefixCount(MineSet(), width, height, (x, y), 3 * (i + 1) + (j + 1))
                 + (if 0 <= x + j < width && !(i == 0 && j == 0) && hasMine[x + j, y + i] then 1 else 0)
    {
      PrefixCountStep(MineSet(), width, height, (x, y), i, j);
      if 0 <= x + j < width {
        assert (x + j, y + i) in AllCells(width, height);
      }
    }

    /** Toggles the mark on (x, y). An exposed tile cannot be marked or
        unmarked; otherwise the mark flips and markerCount follows it. */
    method Mark(x: int, y: int)
      requires Valid() && InBounds(width, height, (x, y))
      modifies marked, this`markerCount
      ensures Valid()
      ensures old(exposed[x, y]) ==> MarkedSet() == old(MarkedSet()) && markerCount == old(markerCount)
      ensures !old(exposed[x, y]) ==> MarkedSet() == Toggle(old(MarkedSet()), (x, y))
      ensures !old(exposed[x, y]) ==> markerCount == old(markerCount) + (if old(marked[x, y]) then -1 else 1)
    {
      if exposed[x, y] {
        return;
      }
      if !marked[x, y] {
        ghost var marks, clear := MarkedSet(), Unset(marked);
        marked[x, y] := true;
        CellsAfterWrite(marked, x, y, true, marks, clear);
        markerCount := markerCount + 1;
      } else {
        ghost var marks, clear := MarkedSet(), Unset(marked);
        marked[x, y] := false;
        CellsAfterWrite(marked, x, y, false, marks, clear);
        markerCount := markerCount - 1;
      }
    }

    /** Every tile at offsets (dx, dy) from (x, y) with -1 <= dy <= 1 and
        -1 <= dx <= 1 that the cascade loop visits before row offset i,
        column offset j, is exposed if it is on the board and is not (x, y). */
    ghost predicate ScannedExposed(x: int, y: int, i: int, j: int)
      reads exposed
    {
      forall a, b :: 0 <= a < exposed.Length0 && 0 <= b < exposed.Length1
        && -1 <= a - x <= 1 && -1 <= b - y <= 1 && !(a == x && b == y)
        && (b - y < i || (b - y == i && a - x < j))
        ==> exposed[a, b]
    }

    /** Exposes the one tile (x, y), whatever its state (tile.expose). */
    method Expose(x: int, y: int)
      requires exposed.Length0 == width && exposed.Length1 == height && InBounds(width, height, (x, y))
      modifies exposed
      ensures ExposedSet() == old(ExposedSet()) + {(x, y)}
      ensures UnexposedSet() == old(UnexposedSet()) - {(x, y)}
    {
      ghost var shown, hidden := ExposedSet(), UnexposedSet();
      exposed[x, y] := true;
      CellsAfterWrite(exposed, x, y, true, shown, hidden);
    }

    /** Stops the board from taking input (disableBoard). */
    method DisableBoard()
      modifies this`disabled
      ensures disabled
    {
      disabled := true;
    }

    /** Exposes (x, y). A mine ends the game; a tile with no mine around it
        (mined or not) then exposes each of its unexposed neighbours the same
        way. Marks do not stop the cascade and are left in place. */
    method ExposeTile(x: int, y: int)
      requires Consistent() && InBounds(width, height, (x, y))
      modifies exposed, this`disabled
      decreases |UnexposedSet()| + (if exposed[x, y] then 1 else 0), 3
      ensures Consistent()
      ensures (x, y) in ExposedSet() && old(ExposedSet()) <= ExposedSet()
      ensures UnexposedSet() <= old(UnexposedSet()) - {(x, y)}
      ensures disabled == (old(disabled) || hasMine[x, y])
      ensures CascadeClosed(MineSet(), width, height, {(x, y)} + (ExposedSet() - old(ExposedSet())), ExposedSet())
      ensures InEveryZeroRegion(MineSet(), width, height, (x, y), ExposedSet() - old(ExposedSet()))
      ensures ExposedSet() - old(ExposedSet()) <= ZeroReachable(MineSet(), width, height, (x, y))
      ensures ((x, y) in old(ExposedSet()) && (AdjCount((x, y)) != 0 || Neighbours(width, height, (x, y)) <= old(ExposedSet())))
                ==> ExposedSet() == old(ExposedSet()) && disabled == old(disabled)
    {
      ghost var start, s, unexposedAtStart := ExposedSet(), (x, y), UnexposedSet();
      assert s in unexposedAtStart <==> !exposed[x, y];
      Expose(x, y);
      RemoveOneSize(unexposedAtStart, s);
      if hasMine[x, y] {
        // showGameOver: its recolouring of the mines is presentation only
        DisableBoard();
      } else {
        assert s !in MineSet();
      }
      var count := AdjacentCount(x, y);
      if count == 0 {
        Cascade(x, y, start);
      }
      ExposeOutcome(MineSet(), width, height, s, start, ExposedSet());
      ZeroRegionWithinReach(MineSet(), width, height, s, ExposedSet() - start);
    }

    /** The cascade from the freshly exposed zero-count tile (x, y): every
        neighbour on the board that is not exposed yet is exposed in turn,
        row offset -1..1 outside, column offset -1..1 inside. Afterwards
        all its neighbours are exposed, and nothing more is exposed when they
        all were exposed before. */
    method Cascade(x: int, y: int, ghost start: set<Cell>)
      requires Consistent() && InBounds(width, height, (x, y)) && AdjCount((x, y)) == 0
      requires ExposedSet() == start + {(x, y)}
      modifies exposed, this`disabled
      decreases |UnexposedSet()| + 1, 2
      ensures Consistent() && disabled == old(disabled)
      ensures start + {(x, y)} <= ExposedSet()
      ensures UnexposedSet() <= old(UnexposedSet())
      ensures CascadeClosed(MineSet(), width, height, ExposedSet() - start - {(x, y)}, ExposedSet())
      ensures InEveryZeroRegion(MineSet(), width, height, (x, y), ExposedSet() - start)
      ensures Neighbours(width, height, (x, y)) <= ExposedSet()
      ensures Neighbours(width, height, (x, y)) <= start ==> ExposedSet() == start + {(x, y)}
    {
      ghost var s, unexposedAtStart := (x, y), UnexposedSet();
      // grown: a neighbour outside `start` has been exposed, witnessed by grownAt
      ghost var grown, grownAt := false, s;
      for i := -1 to 2
        invariant Consistent() && disabled == old(disabled)
        invariant start + {s} <= ExposedSet()
        invariant UnexposedSet() <= unexposedAtStart
        invariant CascadeClosed(MineSet(), width, height, ExposedSet() - start - {s}, ExposedSet())
        invariant InEveryZeroRegion(MineSet(), width, height, s, ExposedSet() - start)
        invariant grown ==> grownAt in Neighbours(width, height, s) && grownAt !in start
        invariant !grown ==> ExposedSet() == start + {s}
        invariant ScannedExposed(x, y, i, -1)
      {
        if y + i < 0 || y + i >= height {
          continue;
        }
        for j := -1 to 2
          invariant Consistent() && disabled == old(disabled)
          invariant start + {s} <= ExposedSet()
          invariant UnexposedSet() <= unexposedAtStart
          invariant CascadeClosed(MineSet(), width, height, ExposedSet() - start - {s}, ExposedSet())
          invariant InEveryZeroRegion(MineSet(), width, height, s, ExposedSet() - start)
          invariant grown ==> grownAt in Neighbours(width, height, s) && grownAt !in start
          invariant !grown ==> ExposedSet() == start + {s}
          invariant ScannedExposed(x, y, i, j)
        {
          SubsetSize(UnexposedSet(), unexposedAtStart);
          grown, grownAt := VisitNeighbour(x, y, i, j, start, grown, grownAt);
        }
      }
      forall n | n in Neighbours(width, height, s)
        ensures n in ExposedSet()
      {
        NeighbourOffsets(width, height, s, n);
      }
      if grown {
        assert !(Neighbours(width, height, s) <= start) by {
          assert grownAt in Neighbours(width, height, s) && grownAt !in start;
        }
      }
    }

    /** One pass of the cascade loop around the zero-count tile (x, y), at row
        offset i and column offset j: the tile there is skipped when it is off
        the board or is (x, y) itself, and is exposed when it is not exposed
        yet. It holds no mine, and the cascade's facts about everything
        exposed since `start` carry over. */
    method VisitNeighbour(x: int, y: int, i: int, j: int, ghost start: set<Cell>, ghost grown: bool, ghost grownAt: Cell)
      returns (ghost grown': bool, ghost grownAt': Cell)
      requires Consistent() && InBounds(width, height, (x, y)) && AdjCount((x, y)) == 0
      requires -1 <= i <= 1 && -1 <= j <= 1 && 0 <= y + i < height
      requires start + {(x, y)} <= ExposedSet()
      requires CascadeClosed(MineSet(), width, height, ExposedSet() - start - {(x, y)}, ExposedSet())
      requires InEveryZeroRegion(MineSet(), width, height, (x, y), ExposedSet() - start)
      requires grown ==> grownAt in Neighbours(width, height, (x, y)) && grownAt !in start
      requires !grown ==> ExposedSet() == start + {(x, y)}
      requires ScannedExposed(x, y, i, j)
      modifies exposed, this`disabled
      decreases |UnexposedSet()| + 1, 1
      ensures Consistent() && disabled == old(disabled)
      ensures start + {(x, y)} <= ExposedSet()
      ensures UnexposedSet() <= old(UnexposedSet())
      ensures CascadeClosed(MineSet(), width, height, ExposedSet() - start - {(x, y)}, ExposedSet())
      ensures InEveryZeroRegion(MineSet(), width, height, (x, y), ExposedSet() - start)
      ensures grown' ==> grownAt' in Neighbours(width, height, (x, y)) && grownAt' !in start
      ensures !grown' ==> ExposedSet() == start + {(x, y)}
      ensures ScannedExposed(x, y, i, j + 1)
    {
      grown', grownAt' := grown, grownAt;
      if x + j < 0 || x + j >= width {
        ScannedExposedStep(x, y, i, j);
        return;
      }
      if i == 0 && j == 0 {
        ScannedExposedStep(x, y, i, j);
        return;
      }
      if !exposed[x + j, y + i] {
        NeighbourAtOffset(width, height, x, y, i, j);
        assert (x + j, y + i) !in ExposedSet();
        ghost var mines, mid := MineSet(), ExposedSet();
        ExposeNeighbour(x, y, i, j);
        ghost var now := ExposedSet();
        CascadeClosedCompose(mines, width, height, (x, y), (x + j, y + i), start, mid, now);
        InEveryZeroRegionCompose(mines, width, height, (x, y), (x + j, y + i), start, mid, now);
        grown', grownAt' := true, (x + j, y + i);
      } else {
        ScannedExposedStep(x, y, i, j);
      }
    }

    /** The scan moves one column on: the tile it passes is off the board,
        is the centre, or is exposed. */
    lemma ScannedExposedStep(x: int, y: int, i: int, j: int)
      requires exposed.Length0 == width && exposed.Length1 == height
      requires ScannedExposed(x, y, i, j)
      requires !InBounds(width, height, (x + j, y + i)) || (i == 0 && j == 0) || exposed[x + j, y + i]
      ensures ScannedExposed(x, y, i, j + 1)
    {
    }

    /** The tiles the cascade loop visits before row offset i, column offset
        j around (x, y), on the board and other than (x, y), all lie in E. */
    ghost predicate ScannedIn(x: int, y: int, i: int, j: int, E: set<Cell>) {
      forall c {:trigger c in E} :: InBounds(width, height, c)
        && -1 <= c.0 - x <= 1 && -1 <= c.1 - y <= 1 && c != (x, y)
        && (c.1 - y < i || (c.1 - y == i && c.0 - x < j))
        ==> c in E
    }

    /** The visited tiles that are exposed, as a set. */
    lemma ScannedAsSet(x: int, y: int, i: int, j: int)
      requires exposed.Length0 == width && exposed.Length1 == height
      requires ScannedExposed(x, y, i, j)
      ensures ScannedIn(x, y, i, j, ExposedSet())
    {
    }

    /** Once the visited tiles lie in a set E of exposed tiles and the tile at
        (i, j) is exposed as well, the scan can move one column on. */
    lemma ScannedPast(x: int, y: int, i: int, j: int, E: set<Cell>)
      requires exposed.Length0 == width && exposed.Length1 == height
      requires ScannedIn(x, y, i, j, E) && E <= ExposedSet() && (x + j, y + i) in ExposedSet()
      ensures ScannedExposed(x, y, i, j + 1)
    {
      forall a, b | 0 <= a < width && 0 <= b < height && -1 <= a - x <= 1 && -1 <= b - y <= 1
                    && !(a == x && b == y) && (b - y < i || (b - y == i && a - x < j + 1))
        ensures exposed[a, b]
      {
        assert (a, b) in AllCells(width, height) && (a, b) in ExposedSet();
      }
    }

    /** Exposes (x + j, y + i), an unexposed neighbour of the zero-count tile
        (x, y), by the recursive call: it holds no mine, so the board stays
        live, and the scan moves past it. */
    method ExposeNeighbour(x: int, y: int, i: int, j: int)
      requires Consistent() && InBounds(width, height, (x, y)) && AdjCount((x, y)) == 0
      requires -1 <= i <= 1 && -1 <= j <= 1
      requires (x + j, y + i) in Neighbours(width, height, (x, y)) && !exposed[x + j, y + i]
      requires ScannedExposed(x, y, i, j)
      modifies exposed, this`disabled
      decreases |UnexposedSet()| + 1, 0
      ensures Consistent() && disabled == old(disabled) && MineSet() == old(MineSet())
      ensures old(ExposedSet()) + {(x + j, y + i)} <= ExposedSet()
      ensures UnexposedSet() <= old(UnexposedSet())
      ensures CascadeClosed(MineSet(), width, height, {(x + j, y + i)} + (ExposedSet() - old(ExposedSet())), ExposedSet())
      ensures InEveryZeroRegion(MineSet(), width, height, (x + j, y + i), ExposedSet() - old(ExposedSet()))
      ensures ScannedExposed(x, y, i, j + 1)
    {
      ghost var mid := ExposedSet();
      ScannedAsSet(x, y, i, j);
      ZeroCountMeansNoMinedNeighbour(MineSet(), width, height, (x, y), (x + j, y + i));
      ExposeTile(x + j, y + i);
      ScannedPast(x, y, i, j, mid);
    }

    /** No tile scanned before row y, column x carries a mark without a mine:
        rows 0..y-1 in full and the first x tiles of row y. */
    ghost predicate NoFalseMarkBefore(x: int, y: int)
      reads hasMine, marked
      requires hasMine.Length0 == width && hasMine.Length1 == height
      requires marked.Length0 == width && marked.Length1 == height
    {
      forall a, b :: 0 <= a < width && 0 <= b < height && (b < y || (b == y && a < x))
        ==> !(marked[a, b] && !hasMine[a, b])
    }

    /** The win check: the game is won when no tile without a mine carries a
        mark, and a won game stops taking input. */
    method CheckForWin() returns (win: bool)
      requires Valid()
      modifies this`disabled
      ensures Valid()
      ensures win <==> MarkedSet() <= MineSet()
      ensures disabled == (old(disabled) || win)
    {
      win := true;
      for y := 0 to height
        invariant win <==> NoFalseMarkBefore(0, y)
      {
        for x := 0 to width
          invariant win <==> NoFalseMarkBefore(x, y)
        {
          if !hasMine[x, y] && marked[x, y] {
            win := false;
          }
        }
      }
      if win {
        forall c | c in MarkedSet() ensures c in MineSet() {
          assert marked[c.0, c.1];
        }
        DisableBoard();
      } else {
        var a, b :| 0 <= a < width && 0 <= b < height && marked[a, b] && !hasMine[a, b];
        assert (a, b) in MarkedSet() && (a, b) !in MineSet();
      }
    }

    /** When as many marks are down as there are mines and every mark is on a
        mine, the marks are exactly the mines. */
    lemma WinMarksExactlyTheMines()
      requires Valid() && markerCount == mineCount && MarkedSet() <= MineSet()
      ensures MarkedSet() == MineSet()
    {
      SubsetOfSameSize(MarkedSet(), MineSet());
    }

    /** On a settled board an exposed tile has nothing left to cascade: it
        has mines around it, or all its neighbours are exposed too. */
    lemma SettledTile(x: int, y: int)
      requires exposed.Length0 == width && exposed.Length1 == height
      requires Settled() && InBounds(width, height, (x, y)) && exposed[x, y]
      ensures (x, y) in ExposedSet()
      ensures AdjCount((x, y)) != 0 || Neighbours(width, height, (x, y)) <= ExposedSet()
    {
      assert (x, y) in AllCells(width, height);
    }

    /** The mouse-down handler of a tile. A board that has been disabled
        takes no clicks. The left button exposes the tile and, through the
        cascade, its whole zero region, so a second left click on an exposed
        tile changes nothing; the right button
        toggles its mark and, when the marks then number mineCount, runs the
        win check. Other buttons do nothing. */
    method TileClicked(x: int, y: int, button: int)
      requires Valid() && InBounds(width, height, (x, y))
      modifies exposed, marked, this`markerCount, this`disabled
      ensures Valid()
      ensures (old(disabled) || (button != LeftButton && button != RightButton))
                ==> disabled == old(disabled) && unchanged(this, exposed, marked)
      ensures !old(disabled) && button == LeftButton ==>
                && MarkedSet() == old(MarkedSet()) && markerCount == old(markerCount)
                && (x, y) in ExposedSet()
                && ExposedSet() == old(ExposedSet()) + ZeroReachable(MineSet(), width, height, (x, y))
                && (disabled <==> hasMine[x, y])
                && (old(exposed[x, y]) ==> ExposedSet() == old(ExposedSet()) && disabled == old(disabled))
      ensures !old(disabled) && button == RightButton ==>
                && ExposedSet() == old(ExposedSet())
                && MarkedSet() == (if old(exposed[x, y]) then old(MarkedSet()) else Toggle(old(MarkedSet()), (x, y)))
                && (disabled <==> MarkedSet() == MineSet())
    {
      if disabled {
        return;
      }
      if button == LeftButton {
        ghost var start := ExposedSet();
        if exposed[x, y] {
          SettledTile(x, y);
        }
        ExposeTile(x, y);
        SettledOutcome(MineSet(), width, height, (x, y), start, ExposedSet());
      } else if button == RightButton {
        Mark(x, y);
        if markerCount == mineCount {
          var win := CheckForWin();
          if win {
            WinMarksExactlyTheMines();
          }
        }
      }
    }
  }
}
