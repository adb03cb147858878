# typescript-snake: the snake engine and its helpers, in Dafny

This project models the core of a browser snake game written in TypeScript.
The game keeps its state in a 32 x 16 grid of byte cells. A renderer draws
that grid, and screens decide when to move on.

- **Fields** (`field.dfy`): the grid, a flat row-major buffer of 512 bytes.
  Its constructor writes four test cells. Its `update` always asks for a
  redraw. It also has in-range `GetCell`/`SetCell`, which the engine calls.
- **GameRules** (`game_rules.dfy`) describes the engine as values: the four
  directions and the reverse each one blocks, one movement step, a turn
  request, draining the input queue, the border walls and the start-position
  search. All the engine's properties are proved here.
- **SnakeGame** (`game.dfy`): the engine as the class the TypeScript code has. The
  class holds the field, the body, the direction, the target length and the
  input queue, and its methods update them in place. Each method that
  changes the game is proved to leave the state a rule in GameRules
  computes: `SetWalls` gives `Walled`, `FindSnakeStart` gives the first
  draw that `Attempt` accepts (with the direction `FirstClear` picks),
  `SnakeStep` gives `Step`, `TurnSnake` gives `Turn` and `Update` gives
  `ApplyQueue` of the queued requests. `PlayerInput` only appends to the
  queue.
- **Screens** (`screen.dfy`): the base screen's closing protocol.
- **ScoreScreens** (`score_screen.dfy`): the score's decimal digits, the
  digit glyph table, and where the score screen pastes each glyph.
- **Render** (`renderer.ts`'s integer arithmetic, in `renderer.dfy`):
  - rounding a stride up to a multiple of 4;
  - fitting the canvas to the grid;
  - cycling colour schemes;
  - rotating the dither offset.
- **Elements** (`elements.dfy`): the shared cell-tag table. The engine keeps
  its own copy, and the field's private table stores walls as 0xc0
  instead of 0xd0. `GameRules.TagTables` states both facts.

Things worth knowing about this version of the engine:

- The engine has no fruit, no collision, no game over, no scoring and no
  automatic stepping. A step only moves the snake.
- Nothing stops the head from leaving the grid. So `SnakeStep`, `TurnSnake`
  and `Update` require that the moves they make stay on the grid.
- The random draws of the start search are a parameter `rolls`: a finite
  sequence of on-grid coordinates. The search's endless retry loop is
  modelled by requiring that some draw in `rolls` is accepted.
- On a new game's grid, a draw is accepted exactly when it is an interior
  cell (`GameRules.StartAttempt`). The snake then heads left when x >= 5 and
  right otherwise.
- The field's four test cells all lie in row 0, so the border walls cover
  them. A new game's grid is walls on the border and Empty inside.
- The constructor does not write the start cell into the field. The snake
  first shows on the field after its first step.

## Model

| member | source | states |
|---|---|---|
| `Elements.ValueInjective` | src/game-elements.ts:1-11 | distinct elements are stored as distinct bytes |
| `Fields.IndexBijection` | src/renderer.ts:323-326 | row-major addressing y*32+x is a bijection between the 32 x 16 grid and buffer positions 0..511 |
| `Fields.Field.constructor` | src/field.ts:18-26 | the buffer has 32*16 = 512 cells: index 4 holds 0x20, 5 holds 0x40, 16 holds 0xc0, 17 holds 0x80, every other cell 0 |
| `Fields.Field.Update` | src/field.ts:33-36 | always returns true; it has no modifies clause, so the buffer is unchanged |
| `Fields.Field.SetCell` | src/renderer.ts:324-326 | writes exactly the cell at row-major index y*32+x, in the layout the texture upload reads; all other cells keep their values |
| `Fields.FieldTagsDistinct` | src/field.ts:8-14 | background, snake body, snake head, fruit and wall of the field's table are pairwise distinct |
| `GameRules.TagTables` | src/game.ts:35-41 | the engine's five tags are distinct and equal the shared table's; the field's wall byte 0xc0 differs from the engine's 0xd0 and from every shared element |
| `GameRules.BlockedIsReverse` | src/game.ts:20-31 | each direction blocks exactly one direction, its geometric reverse (opposite vector) |
| `GameRules.TrimTail` | src/game.ts:123-126 | popping tail cells until the body fits always ends with 1 <= body length <= snakeLength |
| `GameRules.TrimTailBody` | src/game.ts:123-126 | the trim keeps the first min(length, snakeLength) body cells, in order |
| `GameRules.TrimTailCells` | src/game.ts:123-126 | the trim sets every popped cell to Empty and no other cell changes |
| `GameRules.Step` | src/game.ts:115-127 | a step keeps the state's shape: body nonempty, on the grid, no longer than snakeLength |
| `GameRules.StepBody` | src/game.ts:115-127 | after a step the head is the old head plus the direction vector, the body is [new head] + old body cut to min(old length + 1, snakeLength), and direction and target length are unchanged |
| `GameRules.StepCells` | src/game.ts:121-126 | field writes in order: old head to 0x20, new head to 0x40, popped tail cells to 0 (a later write wins); no other cell changes |
| `GameRules.StepShows` | src/game.ts:115-127 | if the grown body has no repeated cell (the step does not check self-collision), the field after a step holds 0x40 at the head and 0x20 on every other body cell |
| `GameRules.StepVacates` | src/game.ts:123-126 | a step pops a cell only when the body was already at snakeLength, and then exactly the old last cell |
| `GameRules.Turn` | src/game.ts:129-136 | a turn request keeps the state's shape |
| `GameRules.TurnSpec` | src/game.ts:129-136 | a reversing request leaves direction, body and field unchanged; any other request, including the current direction, sets the direction and performs exactly one step; no turn ever reverses the direction |
| `GameRules.ApplyQueue` | src/game.ts:143-149 | applying the queued requests one by one keeps the state's shape |
| `GameRules.ApplyQueueAppend` | src/game.ts:144-147 | requests are applied in arrival order: draining p then q equals draining p + q |
| `GameRules.ApplyQueueLength` | src/game.ts:143-149 | draining the queue keeps snakeLength, never shortens the body and never lets it exceed snakeLength |
| `GameRules.WalledAt` | src/game.ts:64-75 | after walling, border cells hold 0xd0 and interior cells keep their values |
| `GameRules.WalledIsWalledIn` | src/game.ts:64-75 | after walling, no border cell is empty |
| `GameRules.StepFromEmptyStaysInside` | src/game.ts:98-106 | with the border walled, an empty cell is interior, so a probe one step further never leaves the grid |
| `GameRules.FirstClearSpec` | src/game.ts:98-111 | the search picks direction d exactly when d has reqSpace empty cells ahead and every direction listed before it does not; it picks none exactly when no listed direction does |
| `GameRules.WalkLine` | src/game.ts:99-103 | k repeated coordinate increments move one coordinate by k |
| `GameRules.StartCellsAt` | src/game.ts:49-50 | a new game's grid holds walls on the border and Empty inside, because the field's test cells all lie in row 0 |
| `GameRules.StartClear` | src/game.ts:51-52 | on that grid an interior cell has 4 clear cells to the left iff x >= 5, and to the right iff x <= 26 |
| `GameRules.StartAttempt` | src/game.ts:51-52 | on that grid a draw is accepted iff it is interior, heading left if x >= 5 and right otherwise (left is tried first) |
| `SnakeGame.Game.constructor` | src/game.ts:43-55 | walls a fresh field; the snake is the one cell of the first interior draw; the direction is left or right as StartAttempt says; snakeLength is 5 and the queue is empty |
| `SnakeGame.Game.PlayerInput` | src/game.ts:57-59 | appends the request to the input queue |
| `SnakeGame.Game.SetWalls` | src/game.ts:64-75 | the field becomes Walled of its old contents |
| `SnakeGame.Game.FindSnakeStart` | src/game.ts:86-113 | returns the first draw the search accepts and the first listed direction with reqSpace clear cells; every earlier draw was rejected, and no probe leaves the grid |
| `SnakeGame.Game.SnakeStep` | src/game.ts:115-127 | the new state is GameRules.Step of the old one |
| `SnakeGame.Game.TurnSnake` | src/game.ts:129-136 | the new state is GameRules.Turn of the old one and the request |
| `SnakeGame.Game.Update` | src/game.ts:143-149 | applies the queued requests in arrival order (GameRules.ApplyQueue), leaves the queue empty and returns true |
| `Screens.BaseScreen.constructor` | src/screen.ts:14-16 | a new screen owns a fresh field and is not closing |
| `Screens.BaseScreen.Input` | src/screen.ts:18-23 | closing becomes true exactly when the key is a space, and any other key leaves it unchanged; it is never reset; only a space is consumed |
| `Screens.BaseScreen.Update` | src/screen.ts:30-35 | returns a close message exactly while closing, with no data, and nothing otherwise; changes no state and ignores delta |
| `ScoreScreens.GlyphTable` | src/score-screen.ts:4-86 | the table holds a glyph for each digit 0..9, each 5 rows of 3 characters from '.' and '#', all of which the mapping turns into 0 or 0x32 |
| `ScoreScreens.DecimalString` | src/score-screen.ts:92 | the text of a score is nonempty and made of digit characters |
| `ScoreScreens.DecimalRoundTrip` | src/score-screen.ts:92 | the digits of the text, read left to right, give back the score |
| `ScoreScreens.DecimalNoLeadingZero` | src/score-screen.ts:92 | the text starts with '0' only for the score 0 |
| `ScoreScreens.DecimalLength` | src/score-screen.ts:92-93 | a score has at most k digits iff it is below 10^k |
| `ScoreScreens.ScoreLayout` | src/score-screen.ts:90-102 | one paste per digit, in order; digit i is pasted at x = floor((32 - 4*count)/2) + 4*i and y = 5; the pasted digits reproduce the score |
| `ScoreScreens.GlyphPlacement` | src/score-screen.ts:94-100 | consecutive glyphs leave exactly one blank column; the row of 4-wide slots has equal margins; every glyph lies inside the 32 x 16 grid iff there are at most 8 digits |
| `Render.ToMultipleOfFour` | src/renderer.ts:7-11 | as written, for every n the result is a multiple of 4 and at least n, but only below n + 8 |
| `Render.ToMultipleOfFourSmallest` | src/renderer.ts:3-11 | for n > -1 the result is a multiple of 4, at least n and below n + 4, so it is the smallest one |
| `Render.ToMultipleOfFourIdempotent` | src/renderer.ts:9-10 | a multiple of 4 is returned unchanged |
| `Render.ToMultipleOfFourOvershoots` | src/renderer.ts:7-11 | for -1 the function as written returns 4, while the smallest multiple of 4 at or above -1 is 0 |
| `Render.ToMultipleOfFourExtent` | src/renderer.ts:7-11 | for every n the as-written result equals the documented rounding, plus 4 exactly when Ceil(n) is negative and not a multiple of 4 |
| `Render.RoundUpToMultipleOfFour` | src/renderer.ts:3-6 | for every n: a multiple of 4, at least n and below n + 4 |
| `Render.BestFit` | src/renderer.ts:155-167 | scale is the least index whose break point is at least the pixels per cell (1..4 for any real canvas); with no whole pixel per cell the result is [NaN, NaN, 0]; otherwise the cell size is a multiple of scale, at most the pixels per cell and within scale of it, and the canvas [32*cell, 16*cell] fits the available space |
| `Render.Renderer.constructor` | src/renderer.ts:142-148 | scheme index 0, dither timer 0, offset 0; 48/12 = 4 colour schemes |
| `Render.Renderer.NextColorScheme` | src/renderer.ts:311-314 | the index stays in [0, 4) and cycles 0 -> 1 -> 2 -> 3 -> 0 |
| `Render.Renderer.DitherRotate` | src/renderer.ts:299-306 | when the timer drops below 0 it is reset to 0.3 and the offset becomes (offset + 45) % 256; otherwise the timer drops by delta and the offset is unchanged; the offset stays in [0, 256) |

## Left out

- WebGL in src/renderer.ts is not modelled: the renderer's GPU constructor, shaders, `loadShader`, `initShaderProgram`, texture uploads, `update`, `drawFrame`, `updateSize` and `generateNoiseTexture` (which also draws from `Math.random`). These are calls into the browser. `Render.Renderer.constructor` only sets the scheme and dither fields.
- src/splash.ts (a floating-point light animation), src/index.ts (DOM events, frame scheduling, canvas sizing) and src/levels.ts (level text with no logic) are not part of this model.
- src/field.ts at this version defines no `paste`, so what a paste writes is not part of this model. `ScoreScreens.ScoreLayout` gives the paste calls the score screen makes (glyph, x, y), but not the cells they write.
- src/field.ts at this version defines no `getCell`/`setCell`. game.ts calls them, and they are modelled from those calls as in-range, row-major accesses, without wrap-around.
- The `displayData` getters return the field's buffer itself, shared with the renderer. The model reads `field.data` directly instead.
- `SnakeGame.Game.SnakeStep`, `SnakeGame.Game.TurnSnake`, `SnakeGame.Game.Update`: they require the moves to keep the head on the grid, because the engine has no collision test or wrap-around, and src/field.ts defines no `setCell`, so what an off-grid write would do is unknown.
- `SnakeGame.Game.FindSnakeStart`: the random draws are a parameter, and the unbounded retry loop becomes a loop over the finite sequence `rolls` that requires some draw to be accepted. It also requires the border to be occupied, as it is after `setWalls`, its only caller's preceding step.
- `SnakeGame.Game.constructor`: the first argument of the search is the direction list `[left, right]`. It is not shuffled, just as in the TypeScript code. The placeholder value of `snakeDirection` before the search has no TypeScript counterpart, where the field is still unset at that point.
- `Screens.BaseScreen.Input`: the key event is modelled as its key string. The call to `preventDefault` is modelled as the returned flag.
- `ScoreScreens.ScoreLayout`: it requires the score to be at most 2^53 - 1. Beyond that a JavaScript number no longer holds every integer, and from 10^21 on `"" + score` uses exponent notation. `ScoreScreen` adds only this constructor to `BaseScreen`, so its input and update are those of `Screens.BaseScreen`.
- `Render.BestFit`: it takes integer canvas sizes, as canvases have, and computes with exact integers. JavaScript number rounding above 2^53 is not modelled.
- `Render.Renderer.DitherRotate`: the timer is an exact real. Floating-point rounding of the countdown is not modelled.
- `Render.ToMultipleOfFourSmallest`: it is stated for n > -1 only, because when Ceil(n) < 0 and is not a multiple of 4 the code as written returns a result 4 too large (see Findings and `Render.ToMultipleOfFourExtent`).

## Findings

| source | as written | input that shows it | evidently intended | confidence | as-written member | corrected member |
|---|---|---|---|---|---|---|
| src/renderer.ts:7-11 | `n + 4 - r` with JavaScript's truncating `%`, whose remainder is negative for a negative dividend | n = -1: r = -1, result 4 | the smallest multiple of 4 at or above n, as the function's comment says (0 for -1) | not executed; the one caller passes non-negative widths | `Render.ToMultipleOfFour` | `Render.RoundUpToMultipleOfFour` |
