# SmartScanPuzzle game logic in Dafny

A model of the client-side game logic of a grid-discovery puzzle. The player
reveals the cells of an n x n board one at a time. Each reveal is sent to a
simulation engine as a move, and the engine reports an accuracy percentage.
When the engine says the game is complete and the accuracy beats the level's
score to beat, the level is recorded as completed in the browser's storage.

The model has three files:

- `levels.dfy` (module `Levels`) models `src/app/components/levels.tsx`. It
  holds the fixed table of five levels and the persisted save record
  `{active, completed}`. A `Store` object holds both the shared `levels` array,
  whose completion flags are written in place, and the stored record, with
  `None` for "nothing saved". JSON encoding is taken as the identity. Its
  operations are `saveGame`, `createSaveData`, `updateActiveLvl`,
  `updateLvlStatus`, `loadData` and `getLevel`. Two of them throw before
  writing anything. `updateActiveLvl` throws when no record is stored.
  `updateLvlStatus` throws when no record is stored or the level is outside
  the table. `getLevel` outside the table gives undefined (`None`), and
  `loadData` with no record does nothing.
- `game_manager.dfy` (module `GameManager`) models the game state of
  `src/app/game_manager.tsx`. The revealed matrix is an `array2<bool>`. A click
  copies it, reveals one cell and replaces it. The module also models the
  1-based move index, the last clicked cell, the accuracy readout (`None` is
  "--") and the unlocking of the active level. The simulation engine is not
  part of this model. Everything it answers is an input (`Answers` for a
  click, the value map for a start). So every contract holds for any answer,
  including a `makeMove` or `getCurrentIslandMap` call that throws.
- `wrappers.dfy` holds the `Option` type.

Some behaviour of the code that a reader might not expect, modelled as written:

- `startGame` does not reset the accuracy readout. Only `resetGrid` does.
- `loadData` does not validate the record.
- `updateLvlStatus` writes the shared level table directly.
- A click reveals its cell whatever the engine answers. The value map and the
  accuracy are refreshed only after a successful move.

## Model

| member | source | states |
|---|---|---|
| `Levels.Catalog` | src/app/components/levels.tsx:87-93 | five levels: entry i is numbered i+1 and not completed, every size is in 3..10, every score is in 0..100, and scores to beat strictly increase with the level number |
| `Levels.GetLevel` | src/app/components/levels.tsx:83-85 | a lookup succeeds exactly for 1..length, and returns an entry of the table. In a numbered table it is the entry whose number is the one asked for |
| `Levels.FlagsOf` | src/app/components/levels.tsx:45-48 | the stored flags have one entry per level, copied index by index from the table |
| `Levels.WithFlags` | src/app/components/levels.tsx:76-79 | loading keeps every level's definition and sets flag i to the stored flag i. A missing entry reads as false |
| `Levels.SaveAfterLoad` | src/app/components/levels.tsx:72-81 | after loading flags of the table's length, saving them yields exactly those flags |
| `Levels.LoadAfterSave` | src/app/components/levels.tsx:44-51 | loading the flags a table was saved with gives back the same table |
| `Levels.SetFlag` | src/app/components/levels.tsx:65-66 | marking index i makes it true and leaves every other stored flag unchanged. No flag is ever cleared, and the length is kept when i is in range |
| `Levels.SetFlagIdempotent` | src/app/components/levels.tsx:66 | marking the same index twice gives the same flags as marking it once, and marking a flag already true leaves the flags as they are |
| `Levels.MarkTwiceIsMarkOnce` | src/app/components/levels.tsx:67 | the table write of a second `updateLvlStatus` on one level changes nothing, and marking an entry already completed leaves the table as it is |
| `Levels.Store.constructor` | src/app/components/levels.tsx:87-93 | the table starts as the catalog, and the record is whatever was stored before |
| `Levels.Store.SaveGame` | src/app/components/levels.tsx:34-42 | with no record, it creates one holding the table's flags. With a record, it only replaces the active level. Either way the active level is the argument |
| `Levels.Store.CreateSaveData` | src/app/components/levels.tsx:44-51 | writes a record with the given active level and the table's flags, one per level |
| `Levels.Store.UpdateActiveLvl` | src/app/components/levels.tsx:53-59 | with no record it fails and changes nothing. Otherwise it rewrites the record with the new active level and the same flags, so a record with one flag per level keeps one |
| `Levels.Store.UpdateLvlStatus` | src/app/components/levels.tsx:61-70 | with no record, or a level outside the table, it fails and changes nothing. Otherwise it sets flag level-1 in both the record and the table, keeps the active level and keeps every other entry. A level already marked in both is left as it is, so a second call is a no-op. A record with one flag per level keeps one |
| `Levels.Store.LoadData` | src/app/components/levels.tsx:72-81 | with no record the table is unchanged. Otherwise every table flag becomes the stored flag at its index, and the levels stay defined as before |
| `GameManager.IndexInRange` | src/app/game_manager.tsx:182 | the index `CellIndex(n, row, col) = row*n + col + 1` of a board cell lies in 1..n*n |
| `GameManager.IndexInjective` | src/app/game_manager.tsx:182 | distinct cells get distinct indices |
| `GameManager.IndexDecodes` | src/app/game_manager.tsx:182 | an index decodes back to its cell |
| `GameManager.IndexCovers` | src/app/game_manager.tsx:182 | every index in 1..n*n is the index of a board cell |
| `GameManager.Unrevealed` | src/app/game_manager.tsx:58-62 | `initializeGrid(n)` is an n x n matrix with no cell revealed |
| `GameManager.InitializeGrid` | src/app/game_manager.tsx:58-62 | allocates a fresh n x n array equal to `Unrevealed(n)` |
| `GameManager.CopyGrid` | src/app/game_manager.tsx:205 | the deep copy is a fresh array with the same cells |
| `GameManager.Reveal` | src/app/game_manager.tsx:204-208 | the copied matrix has its shape kept, the clicked cell true, and every other cell as before |
| `GameManager.RevealIdempotent` | src/app/game_manager.tsx:204-208 | revealing a cell twice is revealing it once |
| `GameManager.RevealRevealedIsIdentity` | src/app/game_manager.tsx:186-189 | revealing an already revealed cell would leave the matrix as it is, so the guard loses no reveal |
| `GameManager.RevealCovers` | src/app/game_manager.tsx:204-208 | a reveal never hides a cell |
| `GameManager.MonotoneAcrossClicks` | src/app/game_manager.tsx:204-208 | over a session of clicks, every cell revealed earlier is still revealed at the end |
| `GameManager.Game.constructor` | src/app/game_manager.tsx:79-97 | first render: no session, an empty value map, accuracy "--", no last cell and a size x size unrevealed matrix |
| `GameManager.Game.StartGame` | src/app/game_manager.tsx:98-125 | a session is active and accuracy is unchanged. When the new session's value map is obtained, it becomes the map, the matrix is fresh and unrevealed, and there is no last cell. When fetching the map throws, the map, matrix and last cell stay as they were |
| `GameManager.Game.ResetGrid` | src/app/game_manager.tsx:156-177 | accuracy goes back to "--", then the same as a start, including when fetching the map throws |
| `GameManager.Game.HandleTileClick` | src/app/game_manager.tsx:179-232 | with no session, or with the cell already revealed, the engine is not called and nothing changes. Otherwise the engine gets the cell's index (`CellIndex`) and exactly that cell is revealed, whatever the engine answers. The value map, accuracy and last cell change only on a successful move whose value map was fetched (`Refreshed`). The level is marked completed exactly when the handler did not stop at a throwing map fetch and the game is complete with an accuracy strictly above the score to beat (`Beats`: equality does not unlock) |
| `GameManager.ActiveLevelAsWritten` | src/app/game_manager.tsx:71-77 | the mount code as written: it reaches a level exactly when a record was stored before mounting and names a level in the table, and then it is the level carrying that number |
| `GameManager.FreshStoreFailsAsWritten` | src/app/game_manager.tsx:71-77 | on a fresh store the code as written fails, though the record it has just saved names level 1 |
| `GameManager.Open` | src/app/game_manager.tsx:71-77 | as intended: a fresh store is saved with level 1 and the table's flags, and the game opens on level 1. Otherwise the game opens on the stored active level if it is in the catalog |
| `GameManager.FirstLevelScenario` | src/app/game_manager.tsx:222-228 | a first game reached through the level-select screen (load, save level 1, mount as written): a click that completes level 1 records it as completed exactly when the final accuracy is above 5. Exactly 5 does not unlock |

## Findings

| source | as written | input that shows it | evidently intended | confidence | as-written member | corrected member |
|---|---|---|---|---|---|---|
| src/app/game_manager.tsx:71-77 | reads the stored record, calls `saveGame(1)` when it is missing, then parses the value read BEFORE saving: `JSON.parse(null)` is null and `.active` throws | a first visit, when nothing has been stored | re-read the record after `saveGame(1)` and open level 1 | high, not executed | `GameManager.ActiveLevelAsWritten` (shown by `GameManager.FreshStoreFailsAsWritten`) | `GameManager.Open` |

## Left out

- Rendering is left out: `GridTile`, the JSX of the play screen, the `Level` button component, the level-select page (`src/app/levels/page.tsx`), and the `isLoading` and `hidden` flags, which only drive the display.
- Router navigation is left out. It changes no game state.
- `temperatureToColor`, `clamp`, `calculateDistance` and the animation timing are left out. They are floating-point presentation arithmetic (`Math.sqrt`, `Math.round`).
- The simulation engine (`./engine`) is not part of this model. Its answers are inputs to the handlers.
- The accuracy helper's `(acc * 100).toFixed(2)` string is left out. An accuracy is the percentage that `parseFloat` of that string gives, supplied with the answers.
- Console logging of messages and errors is left out.
- `async`/`await` interleavings are left out: a stale session's answers arriving after a reset, and clicks made while a move is in flight. Each handler is one atomic step.
- The size check in `startGame` only raises an alert and does not stop the start, so it is not modelled.
- `localStorage` and JSON are left out. The stored record is an `Option<SaveData>` field, and a stored record is assumed to have the `{active, completed}` shape.
- Levels.SetFlag: a JavaScript array written past its end leaves holes that are stored as null. The model stores them as false, the value every reader takes them for.
- Levels.WithFlags: a flag missing from a short stored array becomes `undefined` on the table. The model writes false, which every reader treats alike.
- GameManager.Game.HandleTileClick: requires the clicked position to lie on the revealed matrix. Clicks only come from the cells of the rendered board, whose side is the level's size.
- GameManager.Game: `activeLevel` is the same object as the table entry, so `updateLvlStatus` also flips its `completed` flag. The game keeps a copy whose flag it never reads, so that aliasing is not modelled.
- An `isGameComplete` call that throws is modelled as "not complete". Either way the handler stops with no further effect.
