/** Random mine placement by rejection sampling. The random coordinates are
    an explicit sequence of draws: a draw that lands on a tile that already
    holds a mine is discarded, and drawing stops once enough mines are down. */
module Placement {
  import opened Grid

  /** The distinct tiles among the draws. */
  function Drawn(draws: seq<Cell>): set<Cell> {
    set d | d in draws
  }

  /** The distinct tiles among the draws from position k on. */
  function DrawnFrom(draws: seq<Cell>, k: nat): set<Cell> {
    if k < |draws| then Drawn(draws[k..]) else {}
  }

  /** The mines rejection sampling ends with, starting from the mines already
      placed and consuming the draws from position k on. */
  function PlaceFrom(placed: set<Cell>, draws: seq<Cell>, k: nat, mineCount: nat): (r: set<Cell>)
    ensures |placed| <= mineCount ==> |r| <= mineCount
    decreases |draws| - k
  {
    if |placed| >= mineCount || k >= |draws| then placed
    else if draws[k] in placed then PlaceFrom(placed, draws, k + 1, mineCount)
    else PlaceFrom(placed + {draws[k]}, draws, k + 1, mineCount)
  }

  /** The mines placed on an empty board: never more than mineCount. */
  function Place(draws: seq<Cell>, mineCount: nat): (r: set<Cell>)
    ensures |r| <= mineCount
  {
    PlaceFrom({}, draws, 0, mineCount)
  }

  /** The draws from position k on: draw k and those after it. */
  lemma DrawnFromStep(draws: seq<Cell>, k: nat)
    requires k < |draws|
    ensures DrawnFrom(draws, k) == {draws[k]} + DrawnFrom(draws, k + 1)
  {
    assert draws[k..] == [draws[k]] + draws[k + 1..];
    if k + 1 == |draws| {
      assert draws[k..] == [draws[k]];
    }
  }

  /** One draw of the sampling loop, while mines are still missing: the drawn
      tile holds a mine afterwards, whether it already held one or not. */
  lemma PlaceFromStep(placed: set<Cell>, draws: seq<Cell>, k: nat, mineCount: nat)
    requires |placed| < mineCount && k < |draws|
    ensures PlaceFrom(placed, draws, k, mineCount) == PlaceFrom(placed + {draws[k]}, draws, k + 1, mineCount)
  {
    if draws[k] in placed {
      assert placed + {draws[k]} == placed;
    }
  }

  /** Sampling keeps the mines already placed and adds only drawn tiles. */
  lemma {:induction false} PlaceFromWithinDraws(placed: set<Cell>, draws: seq<Cell>, k: nat, mineCount: nat)
    ensures placed <= PlaceFrom(placed, draws, k, mineCount) <= placed + DrawnFrom(draws, k)
    decreases |draws| - k
  {
    if |placed| < mineCount && k < |draws| {
      DrawnFromStep(draws, k);
      if draws[k] in placed {
        PlaceFromWithinDraws(placed, draws, k + 1, mineCount);
      } else {
        PlaceFromWithinDraws(placed + {draws[k]}, draws, k + 1, mineCount);
      }
    }
  }

  /** When the remaining draws hold enough new tiles, sampling stops at
      exactly mineCount mines. */
  lemma {:induction false} PlaceFromSize(placed: set<Cell>, draws: seq<Cell>, k: nat, mineCount: nat)
    requires |placed| <= mineCount <= |placed + DrawnFrom(draws, k)|
    ensures |PlaceFrom(placed, draws, k, mineCount)| == mineCount
    decreases |draws| - k
  {
    assert k >= |draws| ==> DrawnFrom(draws, k) == {};
    if |placed| < mineCount && k < |draws| {
      DrawnFromStep(draws, k);
      var next := if draws[k] in placed then placed else placed + {draws[k]};
      assert next + DrawnFrom(draws, k + 1) == placed + DrawnFrom(draws, k);
      PlaceFromSize(next, draws, k + 1, mineCount);
    }
  }

  /** On a fresh board, draws with at least mineCount distinct tiles give
      exactly mineCount mines, every one of them a drawn tile. */
  lemma PlaceExact(draws: seq<Cell>, mineCount: nat)
    requires mineCount <= |Drawn(draws)|
    ensures |Place(draws, mineCount)| == mineCount
    ensures Place(draws, mineCount) <= Drawn(draws)
  {
    assert draws[0..] == draws;
    PlaceFromSize({}, draws, 0, mineCount);
    PlaceFromWithinDraws({}, draws, 0, mineCount);
  }

  /** Draws that stay on the board and hold mineCount distinct tiles can exist
      only when the board has at least mineCount tiles. */
  lemma EnoughDrawsFitBoard(draws: seq<Cell>, width: nat, height: nat, mineCount: nat)
    requires forall d :: d in draws ==> InBounds(width, height, d)
    requires mineCount <= |Drawn(draws)|
    ensures mineCount <= width * height
  {
    assert Drawn(draws) <= AllCells(width, height);
    AllCellsSize(width, height);
    SubsetSize(Drawn(draws), AllCells(width, height));
  }
}
