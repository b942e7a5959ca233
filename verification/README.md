# Ninja platformer and level editor: state logic in Dafny

This project models the integer state logic of a small 2D platformer and its
level editor, and proves properties of it. Three parts of the program are
covered.

- **`Animation`** (scripts/utilites.py). A list of images, each shown for
  `img_dur` frames. It plays either in a loop or once; a one-shot animation
  stops on its last frame and latches `done`. It is modelled as the class
  `Utilities.Animation`, with the pure step function `Utilities.Tick` as its
  specification.
- **`Game`** (game.py). It is modelled as the class `GameState.Game`, with
  four pieces of state logic:
  - the level-transition and death counters driven by `game_transition`;
  - the reset and spawner dispatch of `load_level`, where marker variant 0
    places the player and every other marker spawns an enemy;
  - aging and removal of projectiles in `bullet_movement`. A projectile
    leaves the list when it hits solid terrain, when it is older than 360
    frames, or when it hits a player who is not dashing; a hit counts a
    death and raises the screenshake;
  - the screenshake decay.
- **`Editor`** (editor.py). It is modelled as the class
  `EditorState.Editor`, with these parts:
  - the tile palette selected with the mouse wheel (shift changes the
    variant, no shift changes the group);
  - the clicking, shift, movement and grid-mode flags;
  - painting and erasing on-grid tiles, which are stored in a dictionary
    keyed by the string `"x;y"`;
  - erasing the off-grid tiles under the cursor;
  - the per-frame scroll, and the cell under the cursor.

The supporting modules are:
- `Rects`: `Rect.collidepoint` of the graphics library, as a half-open
  rectangle.
- `Lists`: Python's `list.remove`, which deletes the first equal element.
- `GridKeys`: `str` on integers and the `"x;y"` grid key, proved injective.
- `Arith`: Python's `abs`, `min` and `max`, and floor division and remainder facts. For a positive divisor,
  Python's `//` and `%` agree with Dafny's `/` and `%`.

Each loop that removes elements from a list while iterating over a copy of
it is written as that loop. Its proof shows that the list ends up equal to a
filter of the original: `Survivors` for projectiles, `Uncovered` for off-grid
tiles.

## Model

| member | source | states |
|---|---|---|
| Utilities.Tick | scripts/utilites.py:30-37 | A looping update advances the frame by one and wraps from the last frame to 0, within `[0, period)`, leaving `done` alone. A one-shot update advances by one and saturates at the last frame. `done` becomes true exactly when the last frame is reached, and stays true. |
| Utilities.TickNAdd | scripts/utilites.py:30-37 | `a + b` updates are `a` updates followed by `b` updates. |
| Utilities.LoopAdvances | scripts/utilites.py:32-33 | Before it wraps, a looping animation is at `frame + k` after `k` updates. |
| Utilities.LoopStaysInRange | scripts/utilites.py:32-33 | A looping animation stays in `[0, period)` and never changes `done`, for any number of updates. |
| Utilities.LoopPeriodic | scripts/utilites.py:32-33 | After exactly `img_duration * len(images)` updates, a looping animation is back at its starting state. |
| Utilities.OneShotProgress | scripts/utilites.py:34-37 | After `k` updates, a one-shot animation is at `min(frame + k, period - 1)`. It is done if and only if it was already done or some update reached the last frame. |
| Utilities.OneShotMonotone | scripts/utilites.py:34-37 | One-shot frames never go backwards, and `done` never reverts. |
| Utilities.TruncDiv | scripts/utilites.py:40 | `int(a / b)` truncates toward zero: for a positive divisor it rounds a non-negative quotient down and a non-positive one up. |
| Utilities.ImageIndex | scripts/utilites.py:39-40 | `int(frame / img_duration)` is a valid image index `i` with `i * img_duration <= frame < (i + 1) * img_duration`. |
| Utilities.ImageSpan | scripts/utilites.py:39-40 | Image `i` is shown on exactly the frames `[i * img_duration, (i + 1) * img_duration)` (both directions). |
| Utilities.Animation.constructor | scripts/utilites.py:20-25 | A new animation keeps its images, duration and mode, and starts at frame 0, not done. |
| Utilities.Animation.Copy | scripts/utilites.py:27-28 | The copy is a fresh object with the same images, duration and mode, rewound to frame 0 and not done. |
| Utilities.Animation.Update | scripts/utilites.py:30-37 | The new frame and `done` are `Tick` of the old ones. The class invariant is kept: the frame is in range, and `done` only for a one-shot animation on its last frame. |
| Utilities.Animation.Img | scripts/utilites.py:39-40 | The image returned is the one whose span of `img_duration` frames contains the current frame. |
| GameState.Enemies | game.py:81-87 | The dispatch spawns at most one enemy per marker. |
| GameState.PlayerStart | game.py:82-85 | The player ends either where it was or on the position of some variant-0 marker. |
| GameState.EnemiesMatchMarkers | game.py:81-87 | An enemy is spawned at a position exactly when some marker there has a variant other than 0 (both directions). |
| GameState.EnemyCount | game.py:82-87 | The number of enemies spawned is the number of markers minus the number of player markers. |
| GameState.NoPlayerMarkerKeepsStart | game.py:82-85 | With no variant-0 marker, the player keeps its position. |
| GameState.PlayerStartIsLastMarker | game.py:82-85 | With player markers, the player ends on the last one, since later markers overwrite earlier ones. |
| GameState.TransitionStep | game.py:160-177 | One `game_transition` call, stated as facts. The level stays in range, and moves on only after the fade-out, by one and clamped to the last map. A reload happens if and only if the fade-out completes or the death count reaches 40; it resets the death count to 0, and `transition` to -29 after the fade-out (the reload's -30 plus the `< 0` step) or to -30 after a death restart. The death count rises by one per call while it runs; from its tenth count on, `transition` also rises by one more after the fade-in step, capped at 30. A death restart keeps the level and sets `transition` to -30. `transition` stays within `[-30, 30]`. |
| GameState.Run | game.py:160-177 | Over any number of frames, the level stays a valid map index, the death count stays non-negative and `transition` stays within `[-30, 30]`. |
| GameState.DeathCountdown | game.py:172-177 | While enemies remain, a death at count `d` counts up one per frame on the same level. Exactly `41 - d` frames later the level restarts with `transition` at -30 and the death count at 0. |
| GameState.FadeOut | game.py:163-169 | With no enemy left and no death, `transition` rises by one per frame from `t >= 0`. Exactly `31 - t` frames later the next level (clamped) is loaded and the fade-in is at -29. |
| GameState.Moved | game.py:115-116 | A projectile moves by its direction along x, keeps its y and direction, and ages by one frame. |
| GameState.FateOf | game.py:119-127 | The removal checks in order, as an exclusive classification: terrain first; then age over 360; then a hit on a player who is not dashing; otherwise the projectile flies on. |
| GameState.Survivors | game.py:114-127 | The moved projectiles kept this frame, never more than there were. |
| GameState.PlayerHits | game.py:125-128 | The number of projectiles that hit the player this frame, at most the number of projectiles. |
| GameState.SurvivorsFlying | game.py:119-127 | Every projectile left in the list hit no terrain, is at most 360 frames old and did not hit the player. |
| GameState.SurvivorsMatch | game.py:114-127 | A projectile is in the new list exactly when it is the moved copy of an old one that hit nothing (both directions). |
| GameState.HitsAreRemovals | game.py:119-128 | Player hits plus survivors never exceed the projectiles there were. A dashing player (`abs(dashing) >= 50`) is never hit. |
| GameState.AgeProjectiles | game.py:113-130 | The loop over a copy of the list, with removal by value, leaves exactly the surviving moved projectiles in order. It adds one death per player hit, and the screenshake becomes `max(16, screenshake)` when any hit happened. |
| GameState.ShakeAfter | game.py:200 | After `n` frames without a hit, the screenshake is `max(0, shake - n)`. |
| GameState.Game.constructor | game.py:63-72 | The game starts on level 0 with its markers dispatched, `transition` at -30, no death, no projectile and no screenshake. |
| GameState.Game.LoadLevel | game.py:75-90 | The enemies are those of the map's markers. The player is placed on the last player marker, with air time 0, else left alone. The death count is reset to 0 and `transition` to -30. |
| GameState.Game.GameTransition | game.py:160-177 | The counters move as `TransitionStep` says, and the class invariant is kept. Enemies and player are reloaded from the current map exactly when a reload happens. |
| GameState.Remaining | game.py:185-189 | The enemies left after the enemy pass, in order, never more than there were. |
| GameState.RemainingMatch | game.py:185-189 | An enemy stays exactly when it was in the list and its update did not kill it. |
| GameState.RemainingEmpty | game.py:185-189 | No enemy is left, so `game_transition` (game.py:163) starts the fade-out, exactly when every enemy is killed. |
| GameState.KillEnemies | game.py:185-189 | The loop over a copy of the enemy list, removing each killed enemy by value, leaves exactly `Remaining`. |
| GameState.Game.RemoveEnemies | game.py:185-189 | The enemy list becomes `Remaining` of the old one; nothing else changes and the class invariant is kept. |
| GameState.Game.DecayScreenshake | game.py:200 | The screenshake drops by one per frame, never below 0. |
| GameState.Game.BulletMovement | game.py:113-130 | The projectiles, death count and screenshake become what `AgeProjectiles` computes, and the class invariant is kept. |
| Rects.CollidePoint | game.py:126 | `Rect.collidepoint`: the point's offset from the corner lies within the width and the height; an empty rectangle contains no point. |
| GridKeys.IntToString | editor.py:128 | `str(n)` is non-empty, starts with `-` exactly for negative numbers, and contains no `;`. |
| GridKeys.GridKey | editor.py:128-130 | The key `str(x) + ";" + str(y)` contains the separator `;`. |
| GridKeys.GridKeyDecodes | editor.py:128-130 | The key of `(x, y)` splits at its first `;` into `str(x)` and `str(y)`. |
| GridKeys.GridKeyInjective | editor.py:128-132 | Two cells have the same `"x;y"` key only if they are the same cell. |
| Lists.RemoveFirst | game.py:120 | `list.remove(x)` on a list holding `x` removes exactly one element. |
| Lists.RemoveFirstAfter | editor.py:133-137 | `remove(x)` deletes exactly the occurrence of `x` that no earlier element equals, and keeps the rest in order. |
| EditorState.WheelSelect | editor.py:58-69 | With shift, buttons 4 and 5 step the variant back and forward, wrapping around within the group. Without shift, they step the group, wrapping around, and reset the variant to 0. Other buttons change nothing, and the selection stays valid. |
| EditorState.WheelRoundTrip | editor.py:58-69 | Wheel up then down, or down then up, restores the selection. Without shift, the variant comes back as 0. |
| EditorState.ShiftWheelAdvances | editor.py:59-62 | With shift, `k` clicks of button 5 move the variant `k` places around its group. |
| EditorState.ShiftWheelFullTurn | editor.py:59-62 | With shift, as many clicks as the group has images bring the selection back. |
| EditorState.Paint | editor.py:127-128 | Painting puts the tile in its cell and changes no other cell. |
| EditorState.Erase | editor.py:129-132 | Erasing empties the cell and changes no other cell. Erasing an empty cell changes nothing. |
| EditorState.EditsKeepWellKeyed | editor.py:127-132 | Painting a tile into its own cell, and erasing, keep every grid tile stored under its own cell's key. |
| EditorState.EraseUndoesPaint | editor.py:127-132 | Erasing a freshly painted cell gives the same grid as erasing alone. On a cell that was empty, it gives the grid as it was. |
| EditorState.EditGrid | editor.py:127-132 | After a frame's edits, the cell under the cursor is empty after a right click, holds the current tile after a left click in grid mode, and is otherwise unchanged. Every other cell is unchanged. |
| EditorState.Covers | editor.py:134-136 | The image rectangle, shifted by the scroll, contains the cursor exactly when the cursor's world position lies on the tile's image. |
| EditorState.Uncovered | editor.py:133-137 | The off-grid tiles kept by a right click, never more than there were. |
| EditorState.UncoveredMatch | editor.py:133-137 | An off-grid tile is kept exactly when it was there and its image does not contain the cursor (both directions). |
| EditorState.UncoveredAppend | editor.py:133-137 | Off-grid erasing preserves order: it acts on each part of the list separately. |
| EditorState.UncoveredIdempotent | editor.py:133-137 | Holding the right button without moving the cursor or the scroll erases nothing more after the first frame. |
| EditorState.EraseOffgrid | editor.py:133-137 | The loop over a copy of the off-grid list, with removal by value, leaves exactly the tiles whose image does not contain the cursor, in order. |
| EditorState.CursorCell | editor.py:154-155 | The cell under the cursor is `(mpos + scroll) // tile_size` on each axis: its span contains the cursor's world position. |
| EditorState.CursorCellUnique | editor.py:154-155 | That cell is the only one whose on-screen square contains the cursor (both directions). |
| EditorState.PreviewPos | editor.py:122-123 | The corrected preview position: the cell's corner minus the scroll. The cursor cell of that position is the cell itself. |
| EditorState.PreviewUnderCursor | editor.py:122-123 | The corrected on-grid preview always covers the cursor. |
| EditorState.PreviewPosAsWritten | editor.py:123 | The preview position as written: the corrected position shifted down by `scroll[1] - scroll[0]`. |
| EditorState.PreviewAsWrittenMissesCursor | editor.py:123 | With scroll `(0, 16)`, cursor `(0, 0)` and tile size 16, the preview as written is drawn at `(0, 16)`, one tile below the cursor. |
| EditorState.PreviewAsWrittenMisses | editor.py:123 | Whenever the two scroll components differ, there is a cursor position that the preview as written does not cover. |
| EditorState.Editor.constructor | editor.py:27-46 | The editor starts with no movement, zero scroll, group 0 and variant 0, no clicking, no shift, and grid mode off, over the loaded tiles. |
| EditorState.Editor.MouseClick | editor.py:48-74 | Buttons 1 and 3 set and clear the clicking flags. A left press off the grid appends the current tile at the cursor's world position. The wheel changes the selection as `WheelSelect` says; nothing else changes. |
| EditorState.Editor.KeyboardClicks | editor.py:76-106 | A, D, W and S set movement slots 0-3 on press and clear them on release. G toggles grid mode, T applies the autotiler and left shift is tracked in `shift`; nothing else changes. |
| EditorState.Editor.GridDisplay | editor.py:120-137 | The preview is drawn at the cursor, or in grid mode where editor.py:123 draws it (`PreviewPosAsWritten`). The grid becomes `EditGrid` of the old grid: paint on a left click in grid mode, then erase on a right click. A right click also leaves exactly the uncovered off-grid tiles. |
| EditorState.Editor.ImageDisplays | editor.py:140-157 | The scroll moves 2 pixels per frame along each held direction, and the cursor is recorded. In grid mode, the preview is at the position as written, and it covers the cursor when the two scroll components are equal. The cell under the cursor is edited as `GridDisplay` says. |

## Left out

- Utilities.Animation.constructor: requires a positive duration and at least one image, so the degenerate animations of the source are not modelled. For a looping animation with zero images or a zero duration, `update` raises `ZeroDivisionError`. A one-shot animation instead sets its frame to -1 and `done` to true. `img` then raises `ZeroDivisionError` for a zero duration and `IndexError` for no images.
- EditorState.WheelSelect: requires every tile group to have at least one image (`ValidPalette`, also required by `EditorState.Editor.constructor`). An empty asset directory makes the wheel at editor.py:60-62 raise `ZeroDivisionError`, which is not modelled.
- Utilities.ImageIndex: `int(frame / img_duration)` divides in floating point and truncates. The model uses exact integer division, which agrees for every frame count a game reaches.
- Image loading (`load_image`, `load_images`) is file I/O. Images are an opaque type parameter of `Animation`.
- scripts/tiles.py is not part of this model. `TileMap` loading, `extract`, `solid_rock`, `autotile`, `save` and `render` are inputs:
  - each map is the list of its spawner markers, in `extract` order;
  - solid terrain is a predicate in `World`;
  - the autotiler is a function on the grid.
- The number of map files (`os.listdir('data/maps')`) is the length of the list of maps.
- GameState.Game.LoadLevel: does not model the leaf spawners of large trees (game.py:77-79), which only feed particles. The reset of the camera scroll, which is a float, is also out.
- The camera's smoothed scroll (game.py:205-208) is floating point and is left out.
- scripts/entities.py is not part of this model. Player and enemy physics are out. The player's rectangle and dash counter are inputs (`World`), and each enemy's kill verdict (`enemy.update`) is the `kill` argument of `GameState.Game.RemoveEnemies`.
- GameState.KillEnemies: the kill verdict is a function of the enemy's value (its position), so two enemies on the same spot share it. The source's `remove` works on distinct objects.
- Positions are integers. The source holds projectile, off-grid tile and cursor positions as floats.
- Drawing, sparks, particles, sound, the clock, randomness and `pygame.QUIT` / `sys.exit` are left out.
- GameState.DeathCountdown and GameState.FadeOut: they describe frames in which `game_transition` is the only change to the death count, so no projectile hit adds a death meanwhile.
- The game's `events` (game.py:92-111) are left out. They set the movement flags and call `player.jump()` and `player.dash()` in scripts/entities.py.
- The game's `run` loop and the rest of `image_displays` are left out: the cloud and player updates of `player_enemy_cloud` and all of `spark_particle` (sparks, particles, drawing). Of `image_displays`, the model covers the screenshake decay, `game_transition`, the enemy pass and `bullet_movement`, each as its own method.
- The editor's `events` dispatch and `run` loop are left out: apart from `pygame.QUIT` and drawing, they only call the modelled handlers `mouse_click`, `keyboard_clicks` and `image_displays`.
- EditorState.Editor.ImageDisplays: takes the cursor already divided by the render scale 2.0, as an integer. The source keeps it as a float.
- EditorState.Editor.constructor: sets the cursor to `(0, 0)`. The source first sets it in `image_displays`, which `run` calls before any event is handled.
- EditorState.Editor.KeyboardClicks: the O key saves `map.json`, which is file I/O with no modelled state change.
- Image sizes of off-grid tiles are a function parameter. A missing asset, which is a `KeyError` in the source, is not modelled.

## Findings

| source | as written | input that shows it | evidently intended | confidence | as-written member | corrected member |
|---|---|---|---|---|---|---|
| editor.py:123 | The grid-mode preview's vertical position subtracts the horizontal scroll `scroll[0]`. | scroll `(0, 16)`, cursor `(0, 0)`, tile size 16: the cursor cell is `(0, 1)` and the preview is drawn at `(0, 16)`, one tile below the cursor. | Subtract `scroll[1]` on the vertical axis, so that the preview sits on the cell under the cursor. | high (not executed) | EditorState.PreviewAsWrittenMisses | EditorState.PreviewPos |
