# Spectrom home page widgets, modelled in Dafny

This project models the state-transition logic behind the widgets of a small
fan site. All of it is written as pure functions over immutable values.

- **Worm** (`worm.dfy`, `worm_space.dfy`): a snake game on a fixed 20 x 20
  grid. The snake is a head-first list of cells, with one food cell, a
  heading `dir`, the last accepted key heading `lastDir`, a score and a
  `running` flag. It covers `resetGame`, `placeFood`, `tick`, `gameOver`,
  `startGame`, `pauseGame` and the keydown guard. `WormSpace` proves when
  `placeFood` can find a free cell at all.
- **Likes** (`likes.dfy`): the like button's count and liked flag, with the
  clamp at zero.
- **Calculator** (`calculator.dfy`): the key handler (AC, DEL, `=`, append)
  and the character whitelist of `safeEval`. The evaluation is an abstract
  function parameter.
- **Bills** (`bills.dfy`): add (with validation), remove-by-index through
  `splice`, clear, the sample bills, the total and the disposable income.
- **Escape** (`escape.dfy`): `escapeHtml` as its five sequential `replaceAll`
  passes. It is proved equal to a one-pass character mapping and shown to be
  undone by an entity decoder.
- **Lore** (`lore.dfy`): `toggleSection` over a list of (id, hidden) sections.
- **ImageManifest** (`manifest.dfy`): the extension filter and `images/`
  path mapping of the manifest script.
- `text.dfy` holds the ECMAScript whitespace set, shared by `\s` and `trim`,
  plus ASCII lower-casing. `wrappers.dfy` holds `Option`.

Some points of the Worm code as written, which the model follows:

- The initial snake is a single cell at (10, 10).
- There is no demo/autoplay mode, resizing or swipe input.
- The reversal guard compares a request with `lastDir` (the last accepted
  key), not with the heading implied by the first two body cells.
- `resetGame` does not reset `lastDir`.

## Model

| member | source | states |
|---|---|---|
| Worm.PlaceFood | main.js:119-128 | the chosen food cell is inside the grid and on no snake cell; a free cell must exist, since the sampling loop only ends on one |
| Worm.ResetGame | main.js:130-140 | one-cell snake at (10,10), heading right, score 0, not running, food on a free cell, `lastDir` kept; the result is well-formed when `lastDir` is a unit heading |
| Worm.InitWorm | main.js:111-117 | the declared start state (with `lastDir` = right from line 212) followed by the reset of line 234 is well-formed and idle |
| Worm.Tick | main.js:144-167 | a next head off the grid or on any body cell (tail included) is game over: only `running` changes, to false; otherwise the head is prepended, the old body minus its last cell follows (same length, score and food) unless the head is the food, where the whole old body follows and length and score grow by one with new food on a free cell; well-formedness is preserved and the heading never points back into the neck after a move |
| Worm.Pause | main.js:205-209 | `running` becomes false and nothing else changes; `gameOver` (main.js:164-167) has the same effect on the state |
| Worm.Start | main.js:199-203 | afterwards the game is running and nothing else changed, so a running game is left as it is |
| Worm.StartPauseCycle | main.js:199-209 | pause is idempotent, start is idempotent and a no-op on a running game, and pausing after a start equals pausing |
| Worm.KeyDirection | main.js:214-221 | after lower-casing, "arrowup"/"w" give up, "arrowdown"/"s" down, "arrowleft"/"a" left and "arrowright"/"d" right; every other key gives nothing |
| Worm.KeyDown | main.js:221-227 | an unbound key or a request equal to the negation of `lastDir` leaves the state unchanged; any other bound request becomes both `dir` and `lastDir`, nothing else changes, and well-formedness is kept |
| Worm.KeyGuardBypass | main.js:221-227 | moving right with a three-cell body, "w" then "a" passes the guard and turns the heading into the neck, so the next tick collides |
| Worm.KeyGuardBypassAny | main.js:221-227 | for any heading and any body whose neck lies behind the head, a sideways key then the reverse key both pass the guard, the heading becomes the reverse and the next tick runs into the neck |
| Worm.KeyDownByMotion | main.js:223-226 | corrected guard: a request that would put the head onto the second body cell is ignored, others are taken; keeps the heading off the neck and keeps well-formedness |
| Worm.NoReversalByMotion | main.js:223-226 | under the corrected guard no sequence of key presses between two ticks turns the heading into the neck |
| WormSpace.FreeCellIff | main.js:119-127 | for a body of distinct in-grid cells, a free cell exists if and only if the body has fewer than 400 cells |
| WormSpace.RoomToGrow | main.js:153-156 | a well-formed game with at most 398 cells can always place new food after eating |
| WormSpace.FullBoardStalls | main.js:119-127 | eating with 399 cells leaves no free cell, so the food loop could never return |
| Likes.Click | main.js:37-44 | the liked flag flips, the count stays non-negative, a like gives the clamped count plus one, an unlike takes one off a positive count and leaves 0 otherwise |
| Likes.LikeThenUnlike | main.js:38-43 | from a non-negative count, like then unlike restores the state |
| Likes.UnlikeThenLike | main.js:38-43 | unlike then like restores the state exactly when the count was at least 1; from 0 it ends at 1 |
| Calculator.SafeEval | main.js:64-75 | empty input or any character outside digits, `+-*/().` and JavaScript whitespace gives null; whitelisted input gets the evaluator's answer |
| Calculator.Press | main.js:78-93 | empty key: no change; AC: empty; DEL: exactly the last character dropped (none from empty); `=`: "Err" when `safeEval` fails, else the evaluator's result on whitelisted text; any other key: appended, after discarding a standing "Err" |
| Calculator.DelUndoesAppend | main.js:82-91 | DEL after a one-character key other than `=` gives back the expression, or the empty one if it was "Err" |
| Bills.BillName | main.js:294 | the trimmed name, or "Bill" when the input is blank or whitespace only |
| Bills.AddBill | main.js:293-305 | a NaN or non-positive amount leaves the list unchanged; otherwise exactly one bill with the trimmed name and the amount is appended and the total rises by the amount |
| Bills.RemoveAt | main.js:284-291 | `splice(idx, 1)`: a valid index removes exactly that bill, a negative one counts from the end, one past the end removes nothing; no bill is invented |
| Bills.RemoveLowersTotal | main.js:274-287 | removing the bill at a valid index lowers the total by exactly its amount |
| Bills.Clear | main.js:309 | the list is emptied and its total is 0 |
| Bills.AddSamples | main.js:311-317 | the list is kept as a prefix, Rent 760, Internet 40 and Electric 65 are appended in that order, and the total rises by 865 |
| Bills.TotalConcat | main.js:275 | the total of two lists joined is the sum of their totals |
| Bills.TotalIsSum | main.js:275 | the left fold of `reduce` equals the sum taken from the front |
| Bills.DisposableBounded | main.js:274-280 | with positive amounts the total is non-negative (positive when non-empty), so disposable income is at most the salary, monthly and yearly |
| Escape.EscapeHtmlIsEach | main.js:323-330 | the five sequential passes equal replacing each character by its own entity in one pass |
| Escape.EscapeHtmlIsEscaped | main.js:323-330 | the output has no `<`, `>`, `"` or `'`, and each `&` in it begins one of the five entities |
| Escape.EscapeHtmlIdentity | main.js:323-330 | the output equals the input if and only if the input has none of the five special characters |
| Escape.UnescapeEscapeHtml | main.js:323-330 | decoding the five entities gives the original text back, so nothing is escaped twice |
| Lore.ToggleSection | lore.js:1-11 | number, order and ids of the sections are kept; a section with the clicked id has its flag flipped, every other section is hidden |
| Lore.ToggleLeavesOneOpen | lore.js:4-10 | with distinct ids at most one section is visible afterwards, and one is visible exactly when it has the id and was hidden |
| Lore.ToggleTwice | lore.js:4-10 | two clicks on the same id restore the target's flag and leave every other section hidden |
| Lore.ToggleUnknownHidesAll | lore.js:7-9 | an id no section has hides every section |
| ImageManifest.Manifest | scripts/generate-image-manifest.js:11-12 | the manifest is no longer than the listing |
| ImageManifest.ManifestEntries | scripts/generate-image-manifest.js:11-12 | every entry is `images/` followed by a listed name with an image extension |
| ImageManifest.ManifestConcat | scripts/generate-image-manifest.js:11-12 | order is kept: the manifest of joined listings is the join of their manifests |
| ImageManifest.ManifestCounts | scripts/generate-image-manifest.js:11-12 | `images/<name>` occurs as often as `name` is listed when it ends in `.png`, `.jpg`, `.jpeg`, `.gif`, `.webp` or `.svg` in any ASCII case, and never otherwise |
| ImageManifest.ManifestMembership | scripts/generate-image-manifest.js:11 | `images/<name>` is in the manifest if and only if `name` is listed and has an image extension |
| Text.Trim | main.js:294 | empty exactly when the input is all whitespace; otherwise the slice between the leading and trailing whitespace, starting and ending on a non-whitespace character |

## Left out

- Drawing is left out: the canvas, the score label, the `animate` flashes, CSS classes, `aria-pressed` and element text (`draw`, `updateScore`, `updateLikeUI`, `render`).
- Timers are left out. `setInterval`/`clearInterval` are replaced by the `running` flag, and a tick is an explicit step that the model does not restrict to running games.
- `Math.random` is left out. `PlaceFood` picks any free cell and requires one to exist. The source would loop forever on a full board: see `WormSpace.FullBoardStalls`. `Worm.Tick` therefore requires a free cell when it eats.
- Persistence is left out: `localStorage`, `JSON.parse`/`stringify`, `parseInt`/`parseFloat`. So are their defaults (128 likes) and a stored count that parses to NaN.
- `safeEval`'s `Function(...)` evaluation and `Number.isFinite` are not modelled. They are foreign code over IEEE doubles and become the `evaluate` parameter.
- Bills use exact `real` amounts. `toFixed(2)` formatting, double rounding, and `Number(b.amount || 0)` turning a stored NaN into 0 are not modelled. The amount box arrives already parsed (`None` for NaN); so does the salary box.
- Bills.RemoveAt: takes an integer index. A NaN or fractional `dataset.index` never occurs, because the index is always written from the rendered position.
- Worm.KeyDirection: lower-cases ASCII letters only, where `toLowerCase` is full Unicode. No character outside A-Z lower-cases to a string that turns a non-matching key into a bound key name, so which keys are bound is unaffected.
- Worm.KeyDirection: an inherited object property such as `constructor` is never a keyboard key name, so it cannot reach the lookup.
- Calculator.Press: a DEL drops one character, whereas `slice(0, -1)` drops one UTF-16 code unit. The two differ only for characters outside the Basic Multilingual Plane, which no calculator key produces.
- `escapeHtml`'s `String(str)` conversion is left out: the input is already a string.
- The manifest script's file-system calls (`existsSync`, `readdirSync`, `writeFileSync`, `process.exit`) and its console output are left out.
- ImageManifest.Manifest: `path.posix.join('images', f)` is modelled as `"images/" + f`. This is exact for the slash-free names a directory listing returns.
- `starfield.ts` (a floating-point animation), `router.ts` and `pages/*.ts` (constant templates behind one hash comparison) are not part of this model.

## Findings

| source | as written | input that shows it | evidently intended | confidence | as-written member | corrected member |
|---|---|---|---|---|---|---|
| main.js:221-227 | a key is refused only when it is the negation of `lastDir`, the last accepted key, not of the step the snake last took | moving right with body (5,5),(4,5),(3,5), press "w" then "a" before the next tick: the heading becomes left and the tick hits (4,5), ending the game | refuse any key that would send the head onto the second body cell ("prevent immediate reverse") | medium, not executed | Worm.KeyGuardBypass | Worm.KeyDownByMotion |
