/**
 * Screen layout of the photo puzzle: the fixed sizes, the toolbar buttons and
 * the photo area a mouse position is tested against, and the integer arithmetic
 * that turns a click into a grid cell and a tile into source and destination
 * pixel offsets. Positions are whole pixels.
 */
module Layout {

  const PhotoCount: int := 7
  const TileCount: int := 40
  const PhotoWidth: int := 960
  const PhotoHeight: int := 600
  const ScreenWidth: int := 960
  const TileSize: int := 120
  const TileColumns: int := 8
  /** Height of the toolbar strip above the photo. */
  const HeaderHeight: int := 50

  datatype Option<T> = None | Some(value: T)

  datatype Point = Point(x: int, y: int)

  datatype Button = NewPuzzle | SolvePuzzle | ResetPuzzle | Colorize

  /** Point-in-rectangle test: left and top edges inside, right and bottom outside. */
  predicate InRect(x: int, y: int, left: int, top: int, width: int, height: int)
  {
    left <= x < left + width && top <= y < top + height
  }

  /** The toolbar button under a position, tested in the order the program tests them. */
  function ButtonAt(x: int, y: int): (r: Option<Button>)
    ensures r == Some(NewPuzzle) <==> InRect(x, y, 10, 10, 150, 30)
    ensures r == Some(SolvePuzzle) <==> InRect(x, y, 170, 10, 150, 30)
    ensures r == Some(ResetPuzzle) <==> InRect(x, y, 330, 10, 150, 30)
    ensures r == Some(Colorize) <==> InRect(x, y, ScreenWidth - 160, 10, 150, 30)
  {
    if InRect(x, y, 10, 10, 150, 30) then Some(NewPuzzle)
    else if InRect(x, y, 170, 10, 150, 30) then Some(SolvePuzzle)
    else if InRect(x, y, 330, 10, 150, 30) then Some(ResetPuzzle)
    else if InRect(x, y, ScreenWidth - 160, 10, 150, 30) then Some(Colorize)
    else None
  }

  /** The photo area below the toolbar. */
  predicate InPhoto(x: int, y: int)
  {
    InRect(x, y, 0, HeaderHeight, PhotoWidth, PhotoHeight)
  }

  /** Where cell `i` is drawn on the screen (top-left corner); also the selection highlight. */
  function Destination(i: int): (r: Point)
    requires 0 <= i < TileCount
    ensures 0 <= r.x <= PhotoWidth - TileSize && r.x % TileSize == 0
    ensures HeaderHeight <= r.y <= HeaderHeight + PhotoHeight - TileSize && (r.y - HeaderHeight) % TileSize == 0
  {
    Point(i % TileColumns * TileSize, i / TileColumns * TileSize + HeaderHeight)
  }

  /**
   * Where the fragment of tile `t` is read from in the off-screen copy of the
   * photo, whose rows are stored bottom-up: the row is counted from the bottom.
   */
  function Source(t: int): (r: Point)
    requires 0 <= t < TileCount
    ensures 0 <= r.x <= PhotoWidth - TileSize
    ensures 0 <= r.y <= PhotoHeight - TileSize
  {
    Point(t % TileColumns * TileSize, PhotoHeight - TileSize - t / TileColumns * TileSize)
  }

  /**
   * The cell under a position in the photo area: the cell whose drawn square
   * contains the position.
   */
  function CellAt(x: int, y: int): (r: int)
    requires InPhoto(x, y)
    ensures 0 <= r < TileCount
    ensures Destination(r).x <= x < Destination(r).x + TileSize
    ensures Destination(r).y <= y < Destination(r).y + TileSize
  {
    x / TileSize + (y - HeaderHeight) / TileSize * TileColumns
  }

  /** Every pixel of cell `i`'s drawn square selects cell `i`. */
  lemma CellAtDestination(i: int, dx: int, dy: int)
    requires 0 <= i < TileCount && 0 <= dx < TileSize && 0 <= dy < TileSize
    ensures InPhoto(Destination(i).x + dx, Destination(i).y + dy)
    ensures CellAt(Destination(i).x + dx, Destination(i).y + dy) == i
  {
    var p := Destination(i);
    assert (p.x + dx) / TileSize == i % TileColumns;
    assert (p.y + dy - HeaderHeight) / TileSize == i / TileColumns;
  }

  /** Distinct cells are drawn at distinct places. */
  lemma DestinationInjective(i: int, j: int)
    requires 0 <= i < TileCount && 0 <= j < TileCount && i != j
    ensures Destination(i) != Destination(j)
  {
    CellAtDestination(i, 0, 0);
    CellAtDestination(j, 0, 0);
  }

  /**
   * Tile `t` is read from the place of cell `t`, mirrored top to bottom: in a
   * solved grid every cell shows its own part of the photo.
   */
  lemma SourceMirrorsDestination(t: int)
    requires 0 <= t < TileCount
    ensures Source(t).x == Destination(t).x
    ensures Source(t).y == PhotoHeight - TileSize - (Destination(t).y - HeaderHeight)
  {
  }

  /** Distinct tiles are read from distinct places. */
  lemma SourceInjective(s: int, t: int)
    requires 0 <= s < TileCount && 0 <= t < TileCount && s != t
    ensures Source(s) != Source(t)
  {
    SourceMirrorsDestination(s);
    SourceMirrorsDestination(t);
    DestinationInjective(s, t);
  }

  /** The photo shown next, cycling through the photos. */
  function NextPhoto(p: int): (r: int)
    requires 0 <= p < PhotoCount
    ensures 0 <= r < PhotoCount
    ensures r == if p == PhotoCount - 1 then 0 else p + 1
  {
    (p + 1) % PhotoCount
  }

  /** The photo shown after `k` presses of New Puzzle. */
  function AdvancePhoto(p: int, k: nat): (r: int)
    requires 0 <= p < PhotoCount
    ensures 0 <= r < PhotoCount
  {
    if k == 0 then p else NextPhoto(AdvancePhoto(p, k - 1))
  }

  /** After `k` presses the photo index has moved on `k` places, modulo the photo count. */
  lemma {:induction false} AdvancePhotoIsModular(p: int, k: nat)
    requires 0 <= p < PhotoCount
    ensures AdvancePhoto(p, k) == (p + k) % PhotoCount
  {
    if k > 0 {
      AdvancePhotoIsModular(p, k - 1);
    }
  }

  /** Every photo is shown again after PhotoCount presses, and not before. */
  lemma PhotoCycle(p: int, k: nat)
    requires 0 <= p < PhotoCount
    ensures AdvancePhoto(p, k) == p <==> k % PhotoCount == 0
  {
    AdvancePhotoIsModular(p, k);
  }

  /** The toolbar and the photo area never overlap. */
  lemma ButtonsAbovePhoto(x: int, y: int)
    requires InPhoto(x, y)
    ensures ButtonAt(x, y) == None
  {
  }
}
