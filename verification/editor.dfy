/**
 * The editing state of the level editor in editor.py: the palette selection
 * driven by the mouse wheel, the mouse and keyboard flags, painting and
 * erasing on-grid tiles keyed by `"x;y"`, erasing off-grid tiles under the
 * cursor, and the scroll and cursor cell computed every frame.
 */
module EditorState {
  import opened Rects
  import opened Lists
  import opened GridKeys
  import opened Arith

  datatype Option<T> = None | Some(value: T)

  /** A placed tile `{'type', 'variant', 'pos'}`: a cell for on-grid tiles, a pixel position for off-grid ones. */
  datatype Tile = Tile(kind: string, variant: int, pos: Pos)

  /** The keys the editor reacts to; every other key is `OtherKey`. */
  datatype Key = KeyA | KeyD | KeyW | KeyS | KeyG | KeyO | KeyT | KeyLShift | OtherKey

  /** The pygame events the editor reacts to; every other event is `OtherEvent`. */
  datatype Event =
    | MouseButtonDown(button: int)
    | MouseButtonUp(button: int)
    | KeyDown(key: Key)
    | KeyUp(key: Key)
    | OtherEvent

  /** The tile the editor paints with: a tile group and a variant within that group. */
  datatype Selection = Selection(group: int, variant: int)

  /** `variants[g]` is the number of images of tile group `g`; there is a group, and every group has an image. */
  predicate ValidPalette(variants: seq<int>)
  {
    |variants| > 0 && forall g :: 0 <= g < |variants| ==> variants[g] > 0
  }

  predicate InPalette(s: Selection, variants: seq<int>)
  {
    0 <= s.group < |variants| && 0 <= s.variant < variants[s.group]
  }

  /**
   * The wheel part of `mouse_click`: with shift held, buttons 4 and 5 step
   * the variant backwards and forwards within the group, wrapping around;
   * without shift they step the group and reset the variant to 0. Every other
   * button leaves the selection alone.
   */
  function WheelSelect(s: Selection, button: int, shift: bool, variants: seq<int>): (r: Selection)
    requires ValidPalette(variants) && InPalette(s, variants)
    ensures InPalette(r, variants)
    ensures button != 4 && button != 5 ==> r == s
    ensures shift && button == 4 ==>
      r == Selection(s.group, if s.variant == 0 then variants[s.group] - 1 else s.variant - 1)
    ensures shift && button == 5 ==>
      r == Selection(s.group, if s.variant == variants[s.group] - 1 then 0 else s.variant + 1)
    ensures !shift && button == 4 ==>
      r == Selection(if s.group == 0 then |variants| - 1 else s.group - 1, 0)
    ensures !shift && button == 5 ==>
      r == Selection(if s.group == |variants| - 1 then 0 else s.group + 1, 0)
  {
    ModStepBack(s.variant, variants[s.group]);
    ModStepForward(s.variant, variants[s.group]);
    ModStepBack(s.group, |variants|);
    ModStepForward(s.group, |variants|);
    if shift then
      if button == 4 then Selection(s.group, (s.variant - 1) % variants[s.group])
      else if button == 5 then Selection(s.group, (s.variant + 1) % variants[s.group])
      else s
    else
      if button == 4 then Selection((s.group - 1) % |variants|, 0)
      else if button == 5 then Selection((s.group + 1) % |variants|, 0)
      else s
  }

  /**
   * Wheel down undoes wheel up and the other way round; without shift the
   * variant comes back as 0, since changing group resets it.
   */
  lemma WheelRoundTrip(s: Selection, shift: bool, variants: seq<int>)
    requires ValidPalette(variants) && InPalette(s, variants)
    ensures WheelSelect(WheelSelect(s, 4, shift, variants), 5, shift, variants) == if shift then s else Selection(s.group, 0)
    ensures WheelSelect(WheelSelect(s, 5, shift, variants), 4, shift, variants) == if shift then s else Selection(s.group, 0)
  {
  }

  /** `k` wheel clicks of the same button. */
  function WheelRepeat(s: Selection, button: int, shift: bool, variants: seq<int>, k: nat): (r: Selection)
    requires ValidPalette(variants) && InPalette(s, variants)
    ensures InPalette(r, variants)
  {
    if k == 0 then s else WheelSelect(WheelRepeat(s, button, shift, variants, k - 1), button, shift, variants)
  }

  /** With shift held, `k` clicks of button 5 advance the variant by `k` places around its group. */
  lemma {:induction false} ShiftWheelAdvances(s: Selection, variants: seq<int>, k: nat)
    requires ValidPalette(variants) && InPalette(s, variants)
    ensures WheelRepeat(s, 5, true, variants, k) == Selection(s.group, (s.variant + k) % variants[s.group])
  {
    var n := variants[s.group];
    if k > 0 {
      ShiftWheelAdvances(s, variants, k - 1);
      var x := s.variant + k - 1;
      var prev := WheelRepeat(s, 5, true, variants, k - 1);
      assert prev == Selection(s.group, x % n);
      ModStep(x, n);
      calc {
        WheelRepeat(s, 5, true, variants, k);
        WheelSelect(prev, 5, true, variants);
        Selection(s.group, if x % n == n - 1 then 0 else x % n + 1);
        Selection(s.group, (x + 1) % n);
      }
    }
  }

  /** With shift held, as many clicks of button 5 as the group has images bring the selection back. */
  lemma {:induction false} ShiftWheelFullTurn(s: Selection, variants: seq<int>)
    requires ValidPalette(variants) && InPalette(s, variants)
    ensures WheelRepeat(s, 5, true, variants, variants[s.group]) == s
  {
    var n := variants[s.group];
    ShiftWheelAdvances(s, variants, n);
    ModFullTurn(s.variant, n);
  }

  /** The on-grid tiles, `tilemap.tilemap`, keyed by `"x;y"`. */
  type Grid = map<string, Tile>

  /** The on-grid tile at `cell`, if there is one. */
  function Cell(grid: Grid, cell: Pos): Option<Tile>
  {
    if GridKey(cell) in grid then Some(grid[GridKey(cell)]) else None
  }

  /** Every tile of the grid sits under the key of its own cell. */
  ghost predicate WellKeyed(grid: Grid)
  {
    forall k :: k in grid ==> k == GridKey(grid[k].pos)
  }

  lemma DistinctKeys(cell: Pos)
    ensures forall c: Pos :: c != cell ==> GridKey(c) != GridKey(cell)
  {
    forall c: Pos | c != cell
      ensures GridKey(c) != GridKey(cell)
    {
      GridKeyInjective(c, cell);
    }
  }

  /** Painting a cell sets that cell's tile and no other. */
  function Paint(grid: Grid, cell: Pos, t: Tile): (r: Grid)
    ensures Cell(r, cell) == Some(t)
    ensures forall c :: c != cell ==> Cell(r, c) == Cell(grid, c)
  {
    DistinctKeys(cell);
    grid[GridKey(cell) := t]
  }

  /** Erasing a cell empties that cell and no other; an empty cell leaves the grid as it was. */
  function Erase(grid: Grid, cell: Pos): (r: Grid)
    ensures Cell(r, cell) == None
    ensures forall c :: c != cell ==> Cell(r, c) == Cell(grid, c)
    ensures Cell(grid, cell) == None ==> r == grid
  {
    DistinctKeys(cell);
    var key := GridKey(cell);
    if key in grid then grid - {key} else grid
  }

  /** Painting a tile into its own cell, and erasing, keep every tile under its own cell's key. */
  lemma EditsKeepWellKeyed(grid: Grid, cell: Pos, t: Tile)
    requires WellKeyed(grid)
    ensures t.pos == cell ==> WellKeyed(Paint(grid, cell, t))
    ensures WellKeyed(Erase(grid, cell))
  {
  }

  /** Erasing a freshly painted cell leaves the grid as erasing alone would. */
  lemma EraseUndoesPaint(grid: Grid, cell: Pos, t: Tile)
    ensures Erase(Paint(grid, cell, t), cell) == Erase(grid, cell)
    ensures Cell(grid, cell) == None ==> Erase(Paint(grid, cell, t), cell) == grid
  {
    var key := GridKey(cell);
    assert Erase(Paint(grid, cell, t), cell) == grid - {key};
  }

  /** The grid part of `grid_display`: paint first, then erase, each when its condition holds. */
  function EditGrid(grid: Grid, cell: Pos, t: Tile, paint: bool, erase: bool): (r: Grid)
    ensures Cell(r, cell) == if erase then None else if paint then Some(t) else Cell(grid, cell)
    ensures forall c :: c != cell ==> Cell(r, c) == Cell(grid, c)
    ensures !paint && Cell(grid, cell) == None ==> r == grid
  {
    var painted := if paint then Paint(grid, cell, t) else grid;
    if erase then Erase(painted, cell) else painted
  }

  /** The image of an off-grid tile, placed on screen, contains the cursor. */
  function Covers(t: Tile, mpos: Pos, scroll: Pos, imageSize: (string, int) -> (int, int)): (b: bool)
    // on screen or in the world: the cursor's world position lies on the tile's image
    ensures var size := imageSize(t.kind, t.variant);
      b <==> CollidePoint(Rect(t.pos.0, t.pos.1, size.0, size.1), (mpos.0 + scroll.0, mpos.1 + scroll.1))
  {
    var size := imageSize(t.kind, t.variant);
    CollidePoint(Rect(t.pos.0 - scroll.0, t.pos.1 - scroll.1, size.0, size.1), mpos)
  }

  /** The off-grid tiles a right click keeps: those whose image does not contain the cursor, in order. */
  function Uncovered(ts: seq<Tile>, mpos: Pos, scroll: Pos, imageSize: (string, int) -> (int, int)): (r: seq<Tile>)
    ensures |r| <= |ts|
  {
    if ts == [] then []
    else
      var t := ts[|ts| - 1];
      Uncovered(ts[..|ts| - 1], mpos, scroll, imageSize) + (if Covers(t, mpos, scroll, imageSize) then [] else [t])
  }

  /** A tile is kept exactly when it was there and does not contain the cursor. */
  lemma {:induction false} UncoveredMatch(ts: seq<Tile>, mpos: Pos, scroll: Pos, imageSize: (string, int) -> (int, int), t: Tile)
    ensures t in Uncovered(ts, mpos, scroll, imageSize) <==> t in ts && !Covers(t, mpos, scroll, imageSize)
  {
    if ts != [] {
      var init := ts[..|ts| - 1];
      UncoveredMatch(init, mpos, scroll, imageSize, t);
      assert ts == init + [ts[|ts| - 1]];
    }
  }

  /** Erasing keeps the order: it acts on two halves of the list separately. */
  lemma {:induction false} UncoveredAppend(a: seq<Tile>, b: seq<Tile>, mpos: Pos, scroll: Pos, imageSize: (string, int) -> (int, int))
    ensures Uncovered(a + b, mpos, scroll, imageSize) == Uncovered(a, mpos, scroll, imageSize) + Uncovered(b, mpos, scroll, imageSize)
  {
    if b != [] {
      var init := b[..|b| - 1];
      UncoveredAppend(a, init, mpos, scroll, imageSize);
      assert (a + b)[..|a + b| - 1] == a + init;
      assert (a + b)[|a + b| - 1] == b[|b| - 1];
    } else {
      assert a + b == a;
    }
  }

  /** Holding the right button without moving erases nothing more after the first frame. */
  lemma {:induction false} UncoveredIdempotent(ts: seq<Tile>, mpos: Pos, scroll: Pos, imageSize: (string, int) -> (int, int))
    ensures Uncovered(Uncovered(ts, mpos, scroll, imageSize), mpos, scroll, imageSize) == Uncovered(ts, mpos, scroll, imageSize)
  {
    if ts != [] {
      var init := ts[..|ts| - 1];
      var t := ts[|ts| - 1];
      var u := Uncovered(init, mpos, scroll, imageSize);
      var tail := if Covers(t, mpos, scroll, imageSize) then [] else [t];
      UncoveredIdempotent(init, mpos, scroll, imageSize);
      UncoveredAppend(u, tail, mpos, scroll, imageSize);
      if tail != [] {
        assert Uncovered(tail, mpos, scroll, imageSize) == Uncovered([], mpos, scroll, imageSize) + tail;
      }
    }
  }

  /**
   * One tile of the copy examined: a tile containing the cursor is removed
   * from the live list by `remove`, which finds this very tile because no
   * tile kept so far contains the cursor.
   */
  lemma EraseStep(ts: seq<Tile>, i: int, mpos: Pos, scroll: Pos, imageSize: (string, int) -> (int, int), list: seq<Tile>)
    requires 0 <= i < |ts| && list == Uncovered(ts[..i], mpos, scroll, imageSize) + ts[i..]
    ensures var t := ts[i];
      var next := Uncovered(ts[..i + 1], mpos, scroll, imageSize) + ts[i + 1..];
      && (!Covers(t, mpos, scroll, imageSize) ==> list == next)
      && (Covers(t, mpos, scroll, imageSize) ==> t in list && RemoveFirst(list, t) == next)
  {
    var t := ts[i];
    var done, rest := Uncovered(ts[..i], mpos, scroll, imageSize), ts[i + 1..];
    assert ts[..i + 1][..i] == ts[..i];
    assert ts[i..] == [t] + rest;
    assert list == done + [t] + rest;
    if Covers(t, mpos, scroll, imageSize) {
      UncoveredMatch(ts[..i], mpos, scroll, imageSize, t);
      RemoveFirstAfter(done, t, rest);
      assert Uncovered(ts[..i + 1], mpos, scroll, imageSize) == done;
    } else {
      assert Uncovered(ts[..i + 1], mpos, scroll, imageSize) == done + [t];
    }
  }

  /** The off-grid part of a right click: the loop over a copy of the list, removing by value. */
  method EraseOffgrid(offgrid: seq<Tile>, mpos: Pos, scroll: Pos, imageSize: (string, int) -> (int, int))
    returns (list: seq<Tile>)
    ensures list == Uncovered(offgrid, mpos, scroll, imageSize)
  {
    var ts := offgrid;  // the loop runs over a copy of the list
    list := offgrid;
    var i := 0;
    while i < |ts|
      invariant 0 <= i <= |ts|
      invariant list == Uncovered(ts[..i], mpos, scroll, imageSize) + ts[i..]
    {
      var t := ts[i];
      EraseStep(ts, i, mpos, scroll, imageSize, list);
      if Covers(t, mpos, scroll, imageSize) {
        list := RemoveFirst(list, t);
      }
      i := i + 1;
    }
    assert ts[..i] == ts;
  }

  /** The cell under the cursor: `(mpos + scroll) // tile_size` on each axis. */
  function CursorCell(mpos: Pos, scroll: Pos, tileSize: int): (c: Pos)
    requires tileSize > 0
    ensures c.0 * tileSize <= mpos.0 + scroll.0 < (c.0 + 1) * tileSize
    ensures c.1 * tileSize <= mpos.1 + scroll.1 < (c.1 + 1) * tileSize
  {
    FloorDiv(mpos.0 + scroll.0, tileSize);
    FloorDiv(mpos.1 + scroll.1, tileSize);
    ((mpos.0 + scroll.0) / tileSize, (mpos.1 + scroll.1) / tileSize)
  }

  /** The cursor cell is the one cell whose square, shifted by the scroll, contains the cursor. */
  lemma CursorCellUnique(mpos: Pos, scroll: Pos, tileSize: int, c: Pos)
    requires tileSize > 0
    ensures CollidePoint(Rect(c.0 * tileSize - scroll.0, c.1 * tileSize - scroll.1, tileSize, tileSize), mpos)
      <==> c == CursorCell(mpos, scroll, tileSize)
  {
    FloorUnique(mpos.0 + scroll.0, tileSize, c.0);
    FloorUnique(mpos.1 + scroll.1, tileSize, c.1);
  }

  /** Where the on-grid preview of the current tile is drawn: the cell's corner, minus the scroll. */
  function PreviewPos(cell: Pos, tileSize: int, scroll: Pos): (p: Pos)
    requires tileSize > 0
    ensures cell == CursorCell(p, scroll, tileSize)
  {
    var p := (cell.0 * tileSize - scroll.0, cell.1 * tileSize - scroll.1);
    CursorCellUnique(p, scroll, tileSize, cell);
    p
  }

  /** The on-grid preview covers the cursor it follows. */
  lemma PreviewUnderCursor(mpos: Pos, scroll: Pos, tileSize: int)
    requires tileSize > 0
    ensures var p := PreviewPos(CursorCell(mpos, scroll, tileSize), tileSize, scroll);
      CollidePoint(Rect(p.0, p.1, tileSize, tileSize), mpos)
  {
    CursorCellUnique(mpos, scroll, tileSize, CursorCell(mpos, scroll, tileSize));
  }

  /** The preview position as editor.py:123 writes it, with the horizontal scroll on both axes. */
  function PreviewPosAsWritten(cell: Pos, tileSize: int, scroll: Pos): (p: Pos)
    requires tileSize > 0
    ensures var q := PreviewPos(cell, tileSize, scroll);
      p == (q.0, q.1 + scroll.1 - scroll.0)
  {
    (cell.0 * tileSize - scroll.0, cell.1 * tileSize - scroll.0)
  }

  /** Concretely: scrolled 16 pixels down, the preview is drawn one tile below the cursor. */
  lemma PreviewAsWrittenMissesCursor()
    ensures var scroll, mpos := (0, 16), (0, 0);
      var p := PreviewPosAsWritten(CursorCell(mpos, scroll, 16), 16, scroll);
      p == (0, 16) && !CollidePoint(Rect(p.0, p.1, 16, 16), mpos)
  {
  }

  /** Whenever the two scroll components differ, some cursor position is not under the preview. */
  lemma PreviewAsWrittenMisses(scroll: Pos, tileSize: int)
    requires tileSize > 0 && scroll.0 != scroll.1
    ensures exists mpos: Pos ::
      var p := PreviewPosAsWritten(CursorCell(mpos, scroll, tileSize), tileSize, scroll);
      !CollidePoint(Rect(p.0, p.1, tileSize, tileSize), mpos)
  {
    // the cursor at the top edge of a cell when the preview is pushed down, at its bottom edge otherwise
    var y := if scroll.1 > scroll.0 then -scroll.1 else tileSize - 1 - scroll.1;
    var mpos := (0, y);
    var c := CursorCell(mpos, scroll, tileSize);
    FloorUnique(y + scroll.1, tileSize, 0);
    assert c.1 == 0;
    var p := PreviewPosAsWritten(c, tileSize, scroll);
    assert !CollidePoint(Rect(p.0, p.1, tileSize, tileSize), mpos);
  }

  /** `True - False`: the sign of one scroll axis from its two movement flags. */
  function Axis(back: bool, forth: bool): int
  {
    (if forth then 1 else 0) - (if back then 1 else 0)
  }

  /** Which slot of `movement` a key drives, 4 for none. */
  function MoveSlot(k: Key): nat
  {
    match k
    case KeyA => 0
    case KeyD => 1
    case KeyW => 2
    case KeyS => 3
    case _ => 4
  }

  class Editor {
    /** `list(self.assets)`: the tile group names, in order. */
    const tileList: seq<string>
    /** The number of images of each tile group. */
    const variants: seq<int>
    /** Width and height of the image of a tile kind and variant. */
    const imageSize: (string, int) -> (int, int)
    /** What `tilemap.autotile()` does to the on-grid tiles. */
    const autotile: Grid -> Grid
    const tileSize: int
    var movement: seq<bool>
    var scroll: Pos
    var tileGroup: int
    var tileVariant: int
    var leftClicking: bool
    var rightClicking: bool
    var shift: bool
    var ongrid: bool
    var mpos: Pos
    var grid: Grid
    var offgrid: seq<Tile>

    ghost predicate Valid()
      reads this
    {
      && |tileList| == |variants| && ValidPalette(variants)
      && InPalette(Selection(tileGroup, tileVariant), variants)
      && |movement| == 4 && tileSize > 0
    }

    function Selected(): Selection
      reads this
    {
      Selection(tileGroup, tileVariant)
    }

    /** A fresh editor over the tiles loaded from `map.json` (empty when there is no such file). */
    constructor(tileList: seq<string>, variants: seq<int>, imageSize: (string, int) -> (int, int),
                autotile: Grid -> Grid, grid: Grid, offgrid: seq<Tile>)
      requires |tileList| == |variants| && ValidPalette(variants)
      ensures Valid()
      ensures this.tileList == tileList && this.variants == variants
      ensures this.imageSize == imageSize && this.autotile == autotile
      ensures this.grid == grid && this.offgrid == offgrid && tileSize == 16
      ensures movement == [false, false, false, false] && scroll == (0, 0) && Selected() == Selection(0, 0)
      ensures !leftClicking && !rightClicking && !shift && !ongrid && mpos == (0, 0)
    {
      this.tileList := tileList;
      this.variants := variants;
      this.imageSize := imageSize;
      this.autotile := autotile;
      this.tileSize := 16;
      this.grid := grid;
      this.offgrid := offgrid;
      this.movement := [false, false, false, false];
      this.scroll := (0, 0);
      this.tileGroup := 0;
      this.tileVariant := 0;
      this.leftClicking := false;
      this.rightClicking := false;
      this.shift := false;
      this.ongrid := false;
      this.mpos := (0, 0);
    }

    /**
     * `mouse_click`: buttons 1 and 3 set and clear the clicking flags, a left
     * press off the grid drops the current tile at the cursor's world
     * position, and the wheel changes the selection.
     */
    method MouseClick(e: Event)
      requires Valid()
      modifies this`leftClicking, this`rightClicking, this`offgrid, this`tileGroup, this`tileVariant
      ensures Valid()
      ensures leftClicking == if e == MouseButtonDown(1) then true else if e == MouseButtonUp(1) then false else old(leftClicking)
      ensures rightClicking == if e == MouseButtonDown(3) then true else if e == MouseButtonUp(3) then false else old(rightClicking)
      ensures offgrid == if e == MouseButtonDown(1) && !ongrid
        then old(offgrid) + [Tile(tileList[old(tileGroup)], old(tileVariant), (mpos.0 + scroll.0, mpos.1 + scroll.1))]
        else old(offgrid)
      ensures Selected() == if e.MouseButtonDown? then WheelSelect(old(Selected()), e.button, shift, variants) else old(Selected())
    {
      if e.MouseButtonDown? {
        if e.button == 1 {
          leftClicking := true;
          if !ongrid {
            offgrid := offgrid + [Tile(tileList[tileGroup], tileVariant, (mpos.0 + scroll.0, mpos.1 + scroll.1))];
          }
        }
        if e.button == 3 {
          rightClicking := true;
        }
        if shift {
          if e.button == 4 {
            tileVariant := (tileVariant - 1) % variants[tileGroup];
          }
          if e.button == 5 {
            tileVariant := (tileVariant + 1) % variants[tileGroup];
          }
        } else {
          if e.button == 4 {
            tileGroup := (tileGroup - 1) % |tileList|;
            tileVariant := 0;
          }
          if e.button == 5 {
            tileGroup := (tileGroup + 1) % |tileList|;
            tileVariant := 0;
          }
        }
      }
      if e.MouseButtonUp? {
        if e.button == 1 {
          leftClicking := false;
        }
        if e.button == 3 {
          rightClicking := false;
        }
      }
    }

    /**
     * `keyboard_clicks`: A, D, W and S hold the four movement flags while
     * pressed, G toggles snapping to the grid, T runs the autotiler and left
     * shift is held in `shift`.
     */
    method KeyboardClicks(e: Event)
      requires Valid()
      modifies this`movement, this`ongrid, this`grid, this`shift
      ensures Valid()
      ensures movement == if (e.KeyDown? || e.KeyUp?) && MoveSlot(e.key) < 4
        then old(movement)[MoveSlot(e.key) := e.KeyDown?]
        else old(movement)
      ensures ongrid == if e == KeyDown(KeyG) then !old(ongrid) else old(ongrid)
      ensures grid == if e == KeyDown(KeyT) then autotile(old(grid)) else old(grid)
      ensures shift == if e == KeyDown(KeyLShift) then true else if e == KeyUp(KeyLShift) then false else old(shift)
    {
      if e.KeyDown? {
        if e.key == KeyA {
          movement := movement[0 := true];
        }
        if e.key == KeyD {
          movement := movement[1 := true];
        }
        if e.key == KeyW {
          movement := movement[2 := true];
        }
        if e.key == KeyS {
          movement := movement[3 := true];
        }
        if e.key == KeyG {
          ongrid := !ongrid;
        }
        if e.key == KeyT {
          grid := autotile(grid);
        }
        if e.key == KeyLShift {
          shift := true;
        }
      }
      if e.KeyUp? {
        if e.key == KeyA {
          movement := movement[0 := false];
        }
        if e.key == KeyD {
          movement := movement[1 := false];
        }
        if e.key == KeyW {
          movement := movement[2 := false];
        }
        if e.key == KeyS {
          movement := movement[3 := false];
        }
        if e.key == KeyLShift {
          shift := false;
        }
      }
    }

    /**
     * `grid_display`: where the current tile's preview is drawn (in grid
     * mode at the position as the source computes it), then painting
     * the cell under the cursor on a left click in grid mode and, on a right
     * click, erasing that cell and every off-grid tile under the cursor.
     */
    method GridDisplay(tilePos: Pos) returns (preview: Pos)
      requires Valid()
      modifies this`grid, this`offgrid
      ensures Valid()
      ensures preview == if ongrid then PreviewPosAsWritten(tilePos, tileSize, scroll) else mpos
      ensures grid == EditGrid(old(grid), tilePos, Tile(tileList[tileGroup], tileVariant, tilePos), leftClicking && ongrid, rightClicking)
      ensures offgrid == if rightClicking then Uncovered(old(offgrid), mpos, scroll, imageSize) else old(offgrid)
    {
      preview := if ongrid then PreviewPosAsWritten(tilePos, tileSize, scroll) else mpos;
      var t := Tile(tileList[tileGroup], tileVariant, tilePos);
      var g := grid;
      if leftClicking && ongrid {
        g := Paint(g, tilePos, t);
      }
      if rightClicking {
        g := Erase(g, tilePos);
        offgrid := EraseOffgrid(offgrid, mpos, scroll, imageSize);
      }
      grid := g;
    }

    /**
     * The editing part of `image_displays`: scroll two pixels per frame along
     * each held direction, read the cursor, and edit the cell under it.
     * `mouse` is the cursor in display coordinates, already divided by the
     * render scale.
     */
    method ImageDisplays(mouse: Pos) returns (preview: Pos)
      requires Valid()
      modifies this`scroll, this`mpos, this`grid, this`offgrid
      ensures Valid()
      ensures scroll == (old(scroll).0 + Axis(movement[0], movement[1]) * 2, old(scroll).1 + Axis(movement[2], movement[3]) * 2)
      ensures mpos == mouse
      ensures ongrid ==> preview == PreviewPosAsWritten(CursorCell(mouse, scroll, tileSize), tileSize, scroll)
      ensures ongrid && scroll.0 == scroll.1 ==> CollidePoint(Rect(preview.0, preview.1, tileSize, tileSize), mouse)
      ensures !ongrid ==> preview == mouse
      ensures var cell := CursorCell(mouse, scroll, tileSize);
        && grid == EditGrid(old(grid), cell, Tile(tileList[tileGroup], tileVariant, cell), leftClicking && ongrid, rightClicking)
        && offgrid == if rightClicking then Uncovered(old(offgrid), mouse, scroll, imageSize) else old(offgrid)
    {
      scroll := (scroll.0 + Axis(movement[0], movement[1]) * 2, scroll.1 + Axis(movement[2], movement[3]) * 2);
      mpos := mouse;
      var tilePos := CursorCell(mpos, scroll, tileSize);
      PreviewUnderCursor(mpos, scroll, tileSize);
      ghost var g0, o0 := grid, offgrid;
      preview := GridDisplay(tilePos);
      assert grid == EditGrid(g0, tilePos, Tile(tileList[tileGroup], tileVariant, tilePos), leftClicking && ongrid, rightClicking);
    }
  }
}
