/** Geometry of the Minesweeper grid: bounds, the Moore neighbourhood of a
    tile and the number of mines around it. Everything here is stated over a
    set of mined positions, independently of how a board stores its tiles. */
module Grid {

  /** A tile position (x, y): x is the column, y the row. */
  type Cell = (int, int)

  predicate InBounds(width: int, height: int, c: Cell) {
    0 <= c.0 < width && 0 <= c.1 < height
  }

  /** The tiles of column a, rows 0 to height - 1. */
  function Column(a: int, height: nat): (r: set<Cell>)
    ensures forall c :: c in r <==> c.0 == a && 0 <= c.1 < height
  {
    if height == 0 then {} else Column(a, height - 1) + {(a, height - 1)}
  }

  /** Every tile of a width x height board, column by column. */
  function AllCells(width: nat, height: nat): (r: set<Cell>)
    ensures forall c :: c in r <==> InBounds(width, height, c)
  {
    if width == 0 then {} else AllCells(width - 1, height) + Column(width - 1, height)
  }

  function Abs(n: int): nat {
    if n < 0 then -n else n
  }

  /** Chebyshev (king-move) distance between two tiles. */
  function Chebyshev(c: Cell, d: Cell): nat {
    var dx, dy := Abs(c.0 - d.0), Abs(c.1 - d.1);
    if dx < dy then dy else dx
  }

  /** The in-bounds tiles at Chebyshev distance exactly 1 from c: its Moore
      neighbourhood, clipped at the edges of the board. */
  function Neighbours(width: nat, height: nat, c: Cell): set<Cell> {
    set d | d in AllCells(width, height) && Chebyshev(c, d) == 1
  }

  /** The offset (column, row) of position k of the 3x3 block, in the order
      the counting loop visits it: row offset -1..1 outside, column offset
      -1..1 inside. Position 4 is the centre. */
  function Offset(k: int): (int, int) {
    if k == 0 then (-1, -1) else if k == 1 then (0, -1) else if k == 2 then (1, -1)
    else if k == 3 then (-1, 0) else if k == 4 then (0, 0) else if k == 5 then (1, 0)
    else if k == 6 then (-1, 1) else if k == 7 then (0, 1) else (1, 1)
  }

  /** Position k (0 <= k < 9) of the 3x3 block centred on c. */
  function BlockCell(c: Cell, k: int): Cell {
    (c.0 + Offset(k).0, c.1 + Offset(k).1)
  }

  /** Whether block position k contributes a mine to the count around c. */
  predicate CountsAt(mines: set<Cell>, width: nat, height: nat, c: Cell, k: int) {
    k != 4 && InBounds(width, height, BlockCell(c, k)) && BlockCell(c, k) in mines
  }

  /** The mines found in the first k positions of the block around c. */
  function PrefixCount(mines: set<Cell>, width: nat, height: nat, c: Cell, k: nat): (n: nat)
    requires k <= 9
    ensures n <= (if k <= 4 then k else k - 1)
  {
    if k == 0 then 0
    else PrefixCount(mines, width, height, c, k - 1) + (if CountsAt(mines, width, height, c, k - 1) then 1 else 0)
  }

  /** The neighbour mine count of c: the number of mined tiles among its
      neighbours. */
  function MinesAround(mines: set<Cell>, width: nat, height: nat, c: Cell): nat {
    |Neighbours(width, height, c) * mines|
  }

  /** The block position that the loop reaches with row offset i and column
      offset j. */
  lemma BlockCellAt(c: Cell, i: int, j: int)
    requires -1 <= i <= 1 && -1 <= j <= 1
    ensures BlockCell(c, 3 * (i + 1) + (j + 1)) == (c.0 + j, c.1 + i)
  {
  }

  /** Distinct block positions are distinct tiles. */
  lemma BlockCellInjective(c: Cell, k: int, l: int)
    requires 0 <= k < 9 && 0 <= l < 9 && k != l
    ensures BlockCell(c, k) != BlockCell(c, l)
  {
  }

  /** One step of the counting loop: visiting row offset i, column offset j
      adds one exactly when that tile is a mined in-bounds neighbour. */
  lemma PrefixCountStep(mines: set<Cell>, width: nat, height: nat, c: Cell, i: int, j: int)
    requires -1 <= i <= 1 && -1 <= j <= 1
    ensures PrefixCount(mines, width, height, c, 3 * (i + 1) + (j + 1) + 1)
            == PrefixCount(mines, width, height, c, 3 * (i + 1) + (j + 1))
               + (if !(i == 0 && j == 0) && InBounds(width, height, (c.0 + j, c.1 + i)) && (c.0 + j, c.1 + i) in mines then 1 else 0)
  {
    BlockCellAt(c, i, j);
  }

  /** A row of the block that lies off the board adds nothing. */
  lemma PrefixCountSkipRow(mines: set<Cell>, width: nat, height: nat, c: Cell, i: int)
    requires -1 <= i <= 1
    requires c.1 + i < 0 || c.1 + i >= height
    ensures PrefixCount(mines, width, height, c, 3 * (i + 1) + 3) == PrefixCount(mines, width, height, c, 3 * (i + 1))
  {
    PrefixCountStep(mines, width, height, c, i, -1);
    PrefixCountStep(mines, width, height, c, i, 0);
    PrefixCountStep(mines, width, height, c, i, 1);
  }

  /** The tiles counted in the first k block positions. */
  function PrefixMines(mines: set<Cell>, width: nat, height: nat, c: Cell, k: nat): set<Cell> {
    set l | 0 <= l < k && CountsAt(mines, width, height, c, l) :: BlockCell(c, l)
  }

  lemma {:induction false} PrefixCountIsPrefixMines(mines: set<Cell>, width: nat, height: nat, c: Cell, k: nat)
    requires k <= 9
    ensures PrefixCount(mines, width, height, c, k) == |PrefixMines(mines, width, height, c, k)|
  {
    if k == 0 {
      assert PrefixMines(mines, width, height, c, 0) == {};
    } else {
      PrefixCountIsPrefixMines(mines, width, height, c, k - 1);
      var before := PrefixMines(mines, width, height, c, k - 1);
      var d := BlockCell(c, k - 1);
      forall l | 0 <= l < k - 1 ensures BlockCell(c, l) != d {
        BlockCellInjective(c, l, k - 1);
      }
      assert d !in before;
      if CountsAt(mines, width, height, c, k - 1) {
        assert PrefixMines(mines, width, height, c, k) == before + {d};
      } else {
        assert PrefixMines(mines, width, height, c, k) == before;
      }
    }
  }

  /** The whole block, less the centre and the out-of-bounds positions, is
      exactly the neighbourhood. */
  lemma BlockIsNeighbourhood(mines: set<Cell>, width: nat, height: nat, c: Cell)
    ensures PrefixMines(mines, width, height, c, 9) == Neighbours(width, height, c) * mines
  {
    var block := PrefixMines(mines, width, height, c, 9);
    forall d | d in block ensures d in Neighbours(width, height, c) * mines {
      var l :| 0 <= l < 9 && CountsAt(mines, width, height, c, l) && BlockCell(c, l) == d;
    }
    forall d | d in Neighbours(width, height, c) * mines ensures d in block {
      var i, j := d.1 - c.1, d.0 - c.0;
      BlockCellAt(c, i, j);
      assert CountsAt(mines, width, height, c, 3 * (i + 1) + (j + 1));
    }
  }

  /** Counting the mined tiles of the whole 3x3 block, less its centre and
      the positions off the board, gives the neighbour mine count. */
  lemma BlockCountIsMinesAround(mines: set<Cell>, width: nat, height: nat, c: Cell)
    ensures PrefixCount(mines, width, height, c, 9) == MinesAround(mines, width, height, c)
  {
    PrefixCountIsPrefixMines(mines, width, height, c, 9);
    BlockIsNeighbourhood(mines, width, height, c);
  }

  /** A tile has at most eight mines around it. */
  lemma MinesAroundAtMostEight(mines: set<Cell>, width: nat, height: nat, c: Cell)
    ensures MinesAround(mines, width, height, c) <= 8
  {
    BlockCountIsMinesAround(mines, width, height, c);
  }

  /** A tile whose count is zero has no mined neighbour. */
  lemma ZeroCountMeansNoMinedNeighbour(mines: set<Cell>, width: nat, height: nat, c: Cell, d: Cell)
    requires MinesAround(mines, width, height, c) == 0
    requires d in Neighbours(width, height, c)
    ensures d !in mines
  {
    assert d in Neighbours(width, height, c) * mines ==> |Neighbours(width, height, c) * mines| > 0;
  }

  /** A set of tiles that contains every neighbour of each of its zero-count
      tiles. The tiles reachable from s through zero-count tiles lie in every
      such set that contains s. */
  ghost predicate ZeroClosed(mines: set<Cell>, width: nat, height: nat, region: set<Cell>) {
    forall u, v {:trigger v in Neighbours(width, height, u), u in region} ::
      u in region && MinesAround(mines, width, height, u) == 0 && v in Neighbours(width, height, u) ==> v in region
  }

  /** A chain of tiles, each a neighbour of the one before, in which every tile
      but the last has a zero count: the path a cascade follows. */
  ghost predicate ZeroPath(mines: set<Cell>, width: nat, height: nat, p: seq<Cell>) {
    && |p| > 0
    && (forall k :: 0 <= k < |p| - 1 ==> MinesAround(mines, width, height, p[k]) == 0)
    && (forall k :: 0 <= k < |p| - 1 ==> p[k + 1] in Neighbours(width, height, p[k]))
  }

  /** The end of a zero path lies in every zero-closed region holding its start. */
  lemma {:induction false} ZeroPathStaysInRegion(mines: set<Cell>, width: nat, height: nat, p: seq<Cell>, region: set<Cell>)
    requires ZeroPath(mines, width, height, p)
    requires ZeroClosed(mines, width, height, region) && p[0] in region
    ensures p[|p| - 1] in region
    decreases |p|
  {
    if |p| > 1 {
      ZeroPathStaysInRegion(mines, width, height, p[..|p| - 1], region);
      assert p[|p| - 2] in region;
    }
  }

  /** Some zero path leads from s to t. */
  ghost predicate Reaches(mines: set<Cell>, width: nat, height: nat, s: Cell, t: Cell) {
    exists p :: ZeroPath(mines, width, height, p) && p[0] == s && p[|p| - 1] == t
  }

  /** The tiles of the board that a zero path from s reaches. */
  ghost function ZeroReachable(mines: set<Cell>, width: nat, height: nat, s: Cell): set<Cell> {
    set t | t in AllCells(width, height) && Reaches(mines, width, height, s, t)
  }

  /** A zero path may go on from a zero-count end to any neighbour of it. */
  lemma ZeroPathExtend(mines: set<Cell>, width: nat, height: nat, p: seq<Cell>, v: Cell)
    requires ZeroPath(mines, width, height, p)
    requires MinesAround(mines, width, height, p[|p| - 1]) == 0 && v in Neighbours(width, height, p[|p| - 1])
    ensures ZeroPath(mines, width, height, p + [v])
  {
    var q := p + [v];
    forall k | 0 <= k < |q| - 1 ensures MinesAround(mines, width, height, q[k]) == 0 {
      assert q[k] == p[k];
    }
    forall k | 0 <= k < |q| - 1 ensures q[k + 1] in Neighbours(width, height, q[k]) {
      assert q[k] == p[k];
    }
  }

  /** The reachable tiles form a zero-closed region that holds its start. */
  lemma ZeroReachableIsClosed(mines: set<Cell>, width: nat, height: nat, s: Cell)
    requires InBounds(width, height, s)
    ensures s in ZeroReachable(mines, width, height, s)
    ensures ZeroClosed(mines, width, height, ZeroReachable(mines, width, height, s))
  {
    var reach := ZeroReachable(mines, width, height, s);
    assert ZeroPath(mines, width, height, [s]);
    assert Reaches(mines, width, height, s, s);
    assert s in AllCells(width, height);
    forall u, v | u in reach && MinesAround(mines, width, height, u) == 0 && v in Neighbours(width, height, u)
      ensures v in reach
    {
      var p :| ZeroPath(mines, width, height, p) && p[0] == s && p[|p| - 1] == u;
      ZeroPathExtend(mines, width, height, p, v);
      var q := p + [v];
      assert q[0] == s && q[|q| - 1] == v;
      assert Reaches(mines, width, height, s, v);
      assert v in AllCells(width, height);
    }
  }

  /** The reachable tiles lie in every zero-closed region holding s: with
      ZeroReachableIsClosed, they are the least such region. */
  lemma ZeroReachableIsLeast(mines: set<Cell>, width: nat, height: nat, s: Cell, region: set<Cell>)
    requires ZeroClosed(mines, width, height, region) && s in region
    ensures ZeroReachable(mines, width, height, s) <= region
  {
    forall t | t in ZeroReachable(mines, width, height, s) ensures t in region {
      var p :| ZeroPath(mines, width, height, p) && p[0] == s && p[|p| - 1] == t;
      ZeroPathStaysInRegion(mines, width, height, p, region);
    }
  }

  /** Tiles that lie in every zero-closed region holding s are reachable
      from s through zero-count tiles. */
  lemma ZeroRegionWithinReach(mines: set<Cell>, width: nat, height: nat, s: Cell, added: set<Cell>)
    requires InBounds(width, height, s) && InEveryZeroRegion(mines, width, height, s, added)
    ensures added <= ZeroReachable(mines, width, height, s)
  {
    ZeroReachableIsClosed(mines, width, height, s);
  }

  /** Every zero-count tile of `region` has all its neighbours in `shown`. */
  ghost predicate CascadeClosed(mines: set<Cell>, width: nat, height: nat, region: set<Cell>, shown: set<Cell>) {
    forall t {:trigger MinesAround(mines, width, height, t)} ::
      t in region && MinesAround(mines, width, height, t) == 0 ==> Neighbours(width, height, t) <= shown
  }

  /** `added` lies inside every zero-closed region that holds s. */
  ghost predicate InEveryZeroRegion(mines: set<Cell>, width: nat, height: nat, s: Cell, added: set<Cell>) {
    forall region {:trigger ZeroClosed(mines, width, height, region)} ::
      ZeroClosed(mines, width, height, region) && s in region ==> added <= region
  }

  /** Closure survives a nested cascade that exposes `now - mid`. */
  lemma CascadeClosedCompose(mines: set<Cell>, width: nat, height: nat, s: Cell, n: Cell,
                             start: set<Cell>, mid: set<Cell>, now: set<Cell>)
    requires start <= mid <= now
    requires CascadeClosed(mines, width, height, mid - start - {s}, mid)
    requires CascadeClosed(mines, width, height, {n} + (now - mid), now)
    ensures CascadeClosed(mines, width, height, now - start - {s}, now)
  {
    forall t | t in now - start - {s} && MinesAround(mines, width, height, t) == 0
      ensures Neighbours(width, height, t) <= now
    {
      if t in mid {
        assert t in mid - start - {s};
      } else {
        assert t in {n} + (now - mid);
      }
    }
  }

  /** A cascade started at a neighbour n of a zero-count tile s stays inside
      every zero-closed region holding s. */
  lemma InEveryZeroRegionCompose(mines: set<Cell>, width: nat, height: nat, s: Cell, n: Cell,
                                 start: set<Cell>, mid: set<Cell>, now: set<Cell>)
    requires MinesAround(mines, width, height, s) == 0 && n in Neighbours(width, height, s)
    requires start <= mid <= now
    requires InEveryZeroRegion(mines, width, height, s, mid - start)
    requires InEveryZeroRegion(mines, width, height, n, now - mid)
    ensures InEveryZeroRegion(mines, width, height, s, now - start)
  {
    forall region | ZeroClosed(mines, width, height, region) && s in region
      ensures now - start <= region
    {
      assert n in region;
      assert now - mid <= region;
    }
  }

  /** What exposing s does, given what its cascade did: `now` is what is
      exposed afterwards and `start` what was exposed before. The newly
      exposed tiles are closed under the cascade, lie in every zero-closed
      region holding s, are reachable from s through zero-count tiles, and
      are none at all when s was exposed and had nothing left to cascade to. */
  lemma ExposeOutcome(mines: set<Cell>, width: nat, height: nat, s: Cell, start: set<Cell>, now: set<Cell>)
    requires InBounds(width, height, s) && start + {s} <= now
    requires MinesAround(mines, width, height, s) != 0 ==> now == start + {s}
    requires MinesAround(mines, width, height, s) == 0 ==>
               && CascadeClosed(mines, width, height, now - start - {s}, now)
               && InEveryZeroRegion(mines, width, height, s, now - start)
               && Neighbours(width, height, s) <= now
               && (Neighbours(width, height, s) <= start ==> now == start + {s})
    ensures CascadeClosed(mines, width, height, {s} + (now - start), now)
    ensures InEveryZeroRegion(mines, width, height, s, now - start)
    ensures (s in start && (MinesAround(mines, width, height, s) != 0 || Neighbours(width, height, s) <= start)) ==> now == start
  {
    if MinesAround(mines, width, height, s) != 0 {
      NumberedOutcome(mines, width, height, s, start, now);
    } else {
      CascadedOutcome(mines, width, height, s, start, now);
    }
  }

  /** ExposeOutcome for a tile with mines around it: only the tile itself
      can be new. */
  lemma NumberedOutcome(mines: set<Cell>, width: nat, height: nat, s: Cell, start: set<Cell>, now: set<Cell>)
    requires InBounds(width, height, s) && MinesAround(mines, width, height, s) != 0
    requires now == start + {s}
    ensures CascadeClosed(mines, width, height, {s} + (now - start), now)
    ensures InEveryZeroRegion(mines, width, height, s, now - start)
    ensures s in start ==> now == start
  {
    assert now - start <= {s};
    forall region | ZeroClosed(mines, width, height, region) && s in region
      ensures now - start <= region
    {
    }
  }

  /** ExposeOutcome for a zero-count tile, from what its cascade did. */
  lemma CascadedOutcome(mines: set<Cell>, width: nat, height: nat, s: Cell, start: set<Cell>, now: set<Cell>)
    requires InBounds(width, height, s) && MinesAround(mines, width, height, s) == 0
    requires start + {s} <= now
    requires CascadeClosed(mines, width, height, now - start - {s}, now)
    requires Neighbours(width, height, s) <= now
    ensures CascadeClosed(mines, width, height, {s} + (now - start), now)
  {
    forall t | t in {s} + (now - start) && MinesAround(mines, width, height, t) == 0
      ensures Neighbours(width, height, t) <= now
    {
      if t != s {
        assert t in now - start - {s};
      }
    }
  }

  /** Exposing s on a settled board (one on which every exposed zero-count
      tile has all its neighbours exposed) leaves it settled, and then the
      exposed tiles are exactly the old ones plus the whole zero region of s. */
  lemma SettledOutcome(mines: set<Cell>, width: nat, height: nat, s: Cell, start: set<Cell>, now: set<Cell>)
    requires start + {s} <= now
    requires CascadeClosed(mines, width, height, start, start)
    requires CascadeClosed(mines, width, height, {s} + (now - start), now)
    requires now - start <= ZeroReachable(mines, width, height, s)
    ensures CascadeClosed(mines, width, height, now, now)
    ensures now == start + ZeroReachable(mines, width, height, s)
  {
    assert ZeroClosed(mines, width, height, now);
    ZeroReachableIsLeast(mines, width, height, s, now);
  }

  /** The tile at row offset i, column offset j from c is a neighbour of c
      exactly when it is on the board and is not c itself. */
  lemma NeighbourAtOffset(width: nat, height: nat, x: int, y: int, i: int, j: int)
    requires -1 <= i <= 1 && -1 <= j <= 1
    ensures (x + j, y + i) in Neighbours(width, height, (x, y))
            <==> InBounds(width, height, (x + j, y + i)) && !(i == 0 && j == 0)
  {
    assert (x + j, y + i) in AllCells(width, height) <==> InBounds(width, height, (x + j, y + i));
  }

  /** Every neighbour of c lies at row and column offsets between -1 and 1. */
  lemma NeighbourOffsets(width: nat, height: nat, c: Cell, d: Cell)
    requires d in Neighbours(width, height, c)
    ensures InBounds(width, height, d) && d != c
    ensures -1 <= d.0 - c.0 <= 1 && -1 <= d.1 - c.1 <= 1
  {
  }

  /** A set holding exactly the tiles of column a, rows 0 to height - 1,
      has height elements. */
  lemma {:induction false} ColumnSize(a: int, height: nat, col: set<Cell>)
    requires forall c :: c in col <==> c.0 == a && 0 <= c.1 < height
    ensures |col| == height
  {
    if height > 0 {
      var above := col - {(a, height - 1)};
      ColumnSize(a, height - 1, above);
      assert col == above + {(a, height - 1)};
    } else {
      assert col == {};
    }
  }

  /** A set holding exactly the tiles of a width x height board has
      width * height elements. */
  lemma {:induction false} BoardSize(width: nat, height: nat, cells: set<Cell>)
    requires forall c :: c in cells <==> InBounds(width, height, c)
    ensures |cells| == width * height
  {
    if width > 0 {
      var left := set c | c in cells && c.0 < width - 1;
      var last := cells - left;
      BoardSize(width - 1, height, left);
      ColumnSize(width - 1, height, last);
      assert cells == left + last;
      assert width * height == (width - 1) * height + height;
    } else {
      assert cells == {};
    }
  }

  /** A width x height board has width * height tiles. */
  lemma AllCellsSize(width: nat, height: nat)
    ensures |AllCells(width, height)| == width * height
  {
    BoardSize(width, height, AllCells(width, height));
  }

  /** A subset is no larger than its superset. */
  lemma SubsetSize<T>(small: set<T>, large: set<T>)
    requires small <= large
    ensures |small| <= |large|
  {
    var rest := large - small;
    assert large == small + rest && small !! rest;
  }

  /** A subset that is as large as its superset is the superset. */
  lemma SubsetOfSameSize<T>(small: set<T>, large: set<T>)
    requires small <= large && |small| == |large|
    ensures small == large
  {
    var rest := large - small;
    assert large == small + rest && small !! rest;
    assert |rest| == 0;
  }

  /** Taking one element out of a set that holds it makes the set one smaller. */
  lemma RemoveOneSize<T>(s: set<T>, x: T)
    ensures |s - {x}| + (if x in s then 1 else 0) == |s|
  {
    if x in s {
      assert s == (s - {x}) + {x};
    } else {
      assert s - {x} == s;
    }
  }
}
