/**
 * The game state of the photo puzzle and the operations the frame loop runs on
 * it: the tile grid in an array, the selected cell (-1 when none is picked up)
 * and the index of the photo on show. Random numbers come in as a sequence of
 * draws; the sound an event plays is returned as a value.
 */
module Game {
  import opened Arrangement
  import opened Layout

  datatype Sound = NoSound | ButtonSound | SelectTileSound | SwapTileSound | CompleteSound

  /** The grid, the selection and the sound after a click on a grid cell. */
  datatype ClickOutcome = ClickOutcome(tiles: seq<int>, selected: int, sound: Sound)

  /** What a shuffle can consume: one draw per tile, each a cell index. */
  predicate IsDrawSequence(draws: seq<int>)
  {
    |draws| == TileCount && ValidDraws(Identity(TileCount), draws)
  }

  /** The arrangement a scramble produces from the given draws. */
  function ScrambledBy(draws: seq<int>): (r: seq<int>)
    requires IsDrawSequence(draws)
    ensures |r| == TileCount && IsPermutation(r)
  {
    ShuffledIsPermutation(TileCount, draws);
    Shuffled(Identity(TileCount), draws)
  }

  /**
   * The two-click select and swap: with nothing picked up, a click picks up the
   * cell; otherwise it exchanges the picked-up cell with the clicked one and
   * drops the selection.
   */
  function AfterClick(tiles: seq<int>, selected: int, cell: int): (r: ClickOutcome)
    requires 0 <= cell < |tiles|
    requires selected == -1 || 0 <= selected < |tiles|
    ensures |r.tiles| == |tiles|
    ensures r.selected == -1 || 0 <= r.selected < |tiles|
    ensures selected == -1 ==>
      r.tiles == tiles && r.selected == cell && r.sound == SelectTileSound
    ensures selected != -1 ==>
      r.tiles[selected] == tiles[cell] && r.tiles[cell] == tiles[selected] &&
      (forall k :: 0 <= k < |tiles| && k != selected && k != cell ==> r.tiles[k] == tiles[k]) &&
      r.selected == -1 &&
      (r.sound == CompleteSound <==> Solved(r.tiles)) &&
      (r.sound == SwapTileSound <==> !Solved(r.tiles))
    ensures IsPermutation(tiles) ==> IsPermutation(r.tiles)
  {
    if selected == -1 then
      ClickOutcome(tiles, cell, SelectTileSound)
    else
      var t := Swap(tiles, selected, cell);
      ClickOutcome(t, -1, if Solved(t) then CompleteSound else SwapTileSound)
  }

  /** Clicking the same cell twice picks it up, puts it back and drops the selection. */
  lemma ClickSameCellTwice(tiles: seq<int>, cell: int)
    requires 0 <= cell < |tiles|
    ensures var first := AfterClick(tiles, -1, cell);
      var second := AfterClick(first.tiles, first.selected, cell);
      second.tiles == tiles && second.selected == -1
  {
  }

  /**
   * Two clicks from idle exchange exactly the two clicked cells and leave the
   * game idle again.
   */
  lemma ClickPairSwaps(tiles: seq<int>, a: int, b: int)
    requires 0 <= a < |tiles| && 0 <= b < |tiles|
    ensures var first := AfterClick(tiles, -1, a);
      var second := AfterClick(first.tiles, first.selected, b);
      second.tiles == Swap(tiles, a, b) && second.selected == -1
  {
  }

  class PhotoPuzzle {
    var tiles: array<int>
    var selected: int
    var photoIndex: int

    /** The invariant of the game state between frames. */
    ghost predicate Valid()
      reads this, tiles
    {
      tiles.Length == TileCount &&
      (selected == -1 || 0 <= selected < TileCount) &&
      0 <= photoIndex < PhotoCount &&
      IsPermutation(tiles[..])
    }

    /** Start-up: the first photo, nothing selected, a scrambled grid. */
    constructor (draws: seq<int>)
      requires IsDrawSequence(draws)
      ensures Valid() && fresh(tiles)
      ensures photoIndex == 0 && selected == -1
      ensures tiles[..] == ScrambledBy(draws)
    {
      tiles := new int[TileCount];
      photoIndex := 0;
      selected := -1;
      new;
      ScrambleTiles(draws);
    }

    /** Put every tile in its own cell. The selection is left as it is. */
    method ResetTiles()
      requires tiles.Length == TileCount
      modifies tiles
      ensures tiles[..] == Identity(TileCount)
      ensures Solved(tiles[..]) && IsPermutation(tiles[..])
    {
      for i := 0 to TileCount
        invariant forall k :: 0 <= k < i ==> tiles[k] == k
      {
        tiles[i] := i;
      }
      assert tiles[..] == Identity(TileCount);
      SolvedIsIdentity(tiles[..]);
    }

    /**
     * Reset the grid, then for each cell `i` in turn exchange it with cell
     * `draws[i]`. The selection is left as it is.
     */
    method ScrambleTiles(draws: seq<int>)
      requires tiles.Length == TileCount
      requires IsDrawSequence(draws)
      modifies tiles
      ensures tiles[..] == ScrambledBy(draws)
      ensures IsPermutation(tiles[..])
    {
      ResetTiles();
      ghost var start := tiles[..];
      for i := 0 to TileCount
        invariant ValidDraws(start, draws[..i])
        invariant tiles[..] == Shuffled(start, draws[..i])
      {
        ghost var before := tiles[..];
        var swapIndex := draws[i];
        var tileValue := tiles[i];
        tiles[i] := tiles[swapIndex];
        tiles[swapIndex] := tileValue;
        assert tiles[..] == Swap(before, i, swapIndex);
        ShuffledStep(start, draws, i);
      }
      assert draws[..TileCount] == draws;
    }

    /** Whether every cell holds its own tile. */
    method IsComplete() returns (complete: bool)
      requires tiles.Length == TileCount
      ensures complete <==> Solved(tiles[..])
      ensures complete <==> tiles[..] == Identity(TileCount)
    {
      SolvedIsIdentity(tiles[..]);
      for i := 0 to TileCount
        invariant forall k :: 0 <= k < i ==> tiles[k] == k
      {
        if tiles[i] != i {
          return false;
        }
      }
      return true;
    }

    /** A press on grid cell `cell`: pick it up, or swap it with the picked-up cell. */
    method Click(cell: int) returns (sound: Sound)
      requires Valid()
      requires 0 <= cell < TileCount
      modifies this`selected, tiles
      ensures Valid()
      ensures ClickOutcome(tiles[..], selected, sound) == AfterClick(old(tiles[..]), old(selected), cell)
    {
      if selected == -1 {
        selected := cell;
        sound := SelectTileSound;
      } else {
        ghost var before := tiles[..];
        var swapIndex := cell;
        var selectedValue := tiles[selected];
        tiles[selected] := tiles[swapIndex];
        tiles[swapIndex] := selectedValue;
        assert tiles[..] == Swap(before, old(selected), cell);
        SwapPreservesPermutation(before, old(selected), cell);
        selected := -1;
        var complete := IsComplete();
        sound := if complete then CompleteSound else SwapTileSound;
      }
    }

    /**
     * The mouse-button-pressed half of a frame: a press on a toolbar button
     * changes no game state; a press in the photo area is a click on the cell
     * under it; anything else is ignored.
     */
    method Press(x: int, y: int) returns (sound: Sound)
      requires Valid()
      modifies this`selected, tiles
      ensures Valid()
      ensures ButtonAt(x, y) == None && InPhoto(x, y) ==>
        ClickOutcome(tiles[..], selected, sound) == AfterClick(old(tiles[..]), old(selected), CellAt(x, y))
      ensures ButtonAt(x, y) != None || !InPhoto(x, y) ==>
        tiles[..] == old(tiles[..]) && selected == old(selected) && sound == NoSound
    {
      if ButtonAt(x, y) == None && InPhoto(x, y) {
        sound := Click(CellAt(x, y));
      } else {
        sound := NoSound;
      }
    }

    /**
     * The mouse-button-released half of a frame: New Puzzle shows the next
     * photo and scrambles, Solve Puzzle resets, Reset Puzzle scrambles,
     * Colorize does nothing but sound; the selection is never touched.
     */
    method Release(x: int, y: int, draws: seq<int>) returns (sound: Sound)
      requires Valid()
      requires IsDrawSequence(draws)
      modifies this`photoIndex, tiles
      ensures Valid() && selected == old(selected)
      ensures sound == if ButtonAt(x, y) == None then NoSound else ButtonSound
      ensures photoIndex == if ButtonAt(x, y) == Some(NewPuzzle) then NextPhoto(old(photoIndex)) else old(photoIndex)
      ensures tiles[..] == match ButtonAt(x, y)
        case Some(NewPuzzle) => ScrambledBy(draws)
        case Some(SolvePuzzle) => Identity(TileCount)
        case Some(ResetPuzzle) => ScrambledBy(draws)
        case _ => old(tiles[..])
    {
      match ButtonAt(x, y)
      case Some(NewPuzzle) =>
        photoIndex := NextPhoto(photoIndex);
        ScrambleTiles(draws);
        sound := ButtonSound;
      case Some(SolvePuzzle) =>
        ResetTiles();
        sound := ButtonSound;
      case Some(ResetPuzzle) =>
        ScrambleTiles(draws);
        sound := ButtonSound;
      case Some(Colorize) =>
        sound := ButtonSound;
      case None =>
        sound := NoSound;
    }
  }

  /** Solve Puzzle followed by the completion test always reports a complete grid. */
  method SolveThenCheck(game: PhotoPuzzle, x: int, y: int, draws: seq<int>) returns (complete: bool)
    requires game.Valid() && IsDrawSequence(draws)
    requires ButtonAt(x, y) == Some(SolvePuzzle)
    modifies game`photoIndex, game.tiles
    ensures complete
  {
    var _ := game.Release(x, y, draws);
    complete := game.IsComplete();
  }

  /** A scramble may leave the grid solved: the draws 0, 1, 2, ... swap every cell with itself. */
  lemma ScrambleCanBeSolved()
    ensures IsDrawSequence(Identity(TileCount))
    ensures Solved(ScrambledBy(Identity(TileCount)))
  {
    ShuffledBySelfDraws(Identity(TileCount), TileCount);
    SolvedIsIdentity(Identity(TileCount));
  }
}
