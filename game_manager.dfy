/**
 * The game state behind the play screen of src/app/game_manager.tsx: the
 * revealed-cells matrix, the last revealed cell, the accuracy readout and the
 * unlocking of the active level. Rendering is not modelled.
 *
 * The simulation engine is not modelled either: every answer it gives is an
 * input (see `Answers`), so each handler holds for whatever it answers.
 */
module GameManager {
  import opened Wrappers
  import opened Levels

  /** A board position, zero-based. */
  datatype Cell = Cell(row: int, col: int)

  /* ---------- the linear index sent to the engine ---------- */

  /** The 1-based linear index the engine expects for (row, col) on a board n cells wide. */
  function CellIndex(n: int, row: int, col: int): (index: int) {
    row * n + col + 1
  }

  /** The cell an index in 1..n*n denotes: the inverse of `CellIndex`. */
  function CellOf(n: int, index: int): (c: Cell)
    requires n > 0
  {
    Cell((index - 1) / n, (index - 1) % n)
  }

  lemma MulMonotone(a: int, b: int, n: int)
    requires 0 <= a <= b && 0 <= n
    ensures a * n <= b * n
  {
    assert b * n == a * n + (b - a) * n;
  }

  /** Every cell of an n x n board gets an index in 1..n*n. */
  lemma IndexInRange(n: int, row: int, col: int)
    requires 0 <= row < n && 0 <= col < n
    ensures 1 <= CellIndex(n, row, col) <= n * n
  {
    MulMonotone(row, n - 1, n);
    assert (n - 1) * n == n * n - n;
  }

  /** Distinct cells get distinct indices. */
  lemma IndexInjective(n: int, r1: int, c1: int, r2: int, c2: int)
    requires 0 <= r1 < n && 0 <= c1 < n && 0 <= r2 < n && 0 <= c2 < n
    requires CellIndex(n, r1, c1) == CellIndex(n, r2, c2)
    ensures r1 == r2 && c1 == c2
  {
    IndexDecodes(n, r1, c1);
    IndexDecodes(n, r2, c2);
  }

  /** Decoding the index of a cell gives back the cell. */
  lemma IndexDecodes(n: int, row: int, col: int)
    requires 0 <= row < n && 0 <= col < n
    ensures CellOf(n, CellIndex(n, row, col)) == Cell(row, col)
  {
    var k := row * n + col;
    DivModUnique(k, n, row, col);
  }

  /** Every index in 1..n*n is the index of the cell it decodes to. */
  lemma IndexCovers(n: int, index: int)
    requires n > 0 && 1 <= index <= n * n
    ensures 0 <= CellOf(n, index).row < n && 0 <= CellOf(n, index).col < n
    ensures CellIndex(n, CellOf(n, index).row, CellOf(n, index).col) == index
  {
    var k := index - 1;
    var q, m := k / n, k % n;
    assert k == q * n + m;
    if q >= n {
      MulMonotone(n, q, n);
      assert false;
    }
  }

  lemma DivModUnique(k: int, n: int, q: int, m: int)
    requires 0 <= m < n && 0 <= q && k == q * n + m
    ensures k / n == q && k % n == m
  {
    var q', m' := k / n, k % n;
    assert k == q' * n + m';
    if q' < q {
      assert (q' + 1) * n == q' * n + n;
      MulMonotone(q' + 1, q, n);
      assert false;
    } else if q < q' {
      assert (q + 1) * n == q * n + n;
      MulMonotone(q + 1, q', n);
      assert false;
    }
  }

  /* ---------- the revealed matrix as a value ---------- */

  /** g is an n x n matrix. */
  ghost predicate IsBoard(g: seq<seq<bool>>, n: int) {
    |g| == n && forall i :: 0 <= i < |g| ==> |g[i]| == n
  }

  /** What `initializeGrid(n)` builds: n rows of n cells, none revealed. */
  function Unrevealed(n: nat): (g: seq<seq<bool>>)
    ensures IsBoard(g, n)
    ensures forall i, j :: 0 <= i < n && 0 <= j < n ==> !g[i][j]
  {
    seq(n, _ => seq(n, _ => false))
  }

  /** The matrix after `newGrid[row][col] = true` on a copy of g. */
  function Reveal(g: seq<seq<bool>>, row: int, col: int): (r: seq<seq<bool>>)
    requires 0 <= row < |g| && 0 <= col < |g[row]|
    ensures |r| == |g| && forall i :: 0 <= i < |g| ==> |r[i]| == |g[i]|
    ensures r[row][col]
    ensures forall i, j :: 0 <= i < |g| && 0 <= j < |g[i]| && (i != row || j != col) ==> r[i][j] == g[i][j]
  {
    g[row := g[row][col := true]]
  }

  /** Every cell revealed in a is revealed in b, and both have the same shape. */
  ghost predicate Covers(a: seq<seq<bool>>, b: seq<seq<bool>>) {
    |a| == |b| &&
    forall i :: 0 <= i < |a| ==> |a[i]| == |b[i]| && forall j :: 0 <= j < |a[i]| && a[i][j] ==> b[i][j]
  }

  /** Revealing a cell twice is revealing it once. */
  lemma RevealIdempotent(g: seq<seq<bool>>, row: int, col: int)
    requires 0 <= row < |g| && 0 <= col < |g[row]|
    ensures Reveal(Reveal(g, row, col), row, col) == Reveal(g, row, col)
  {
    var once := Reveal(g, row, col);
    assert once[row][col := true] == once[row];
  }

  /** Revealing an already revealed cell changes nothing: the click guard loses no reveal. */
  lemma RevealRevealedIsIdentity(g: seq<seq<bool>>, row: int, col: int)
    requires 0 <= row < |g| && 0 <= col < |g[row]| && g[row][col]
    ensures Reveal(g, row, col) == g
  {
    assert g[row][col := true] == g[row];
  }

  /** A reveal never hides a cell. */
  lemma RevealCovers(g: seq<seq<bool>>, row: int, col: int)
    requires 0 <= row < |g| && 0 <= col < |g[row]|
    ensures Covers(g, Reveal(g, row, col))
  {
  }

  /**
   * Within a session the revealed matrix only grows: if each click's matrix
   * covers the one before it, the last covers the first.
   */
  lemma {:induction false} MonotoneAcrossClicks(history: seq<seq<seq<bool>>>)
    requires |history| > 0
    requires forall k :: 0 <= k < |history| - 1 ==> Covers(history[k], history[k + 1])
    ensures Covers(history[0], history[|history| - 1])
  {
    if |history| > 1 {
      var front := history[..|history| - 1];
      MonotoneAcrossClicks(front);
      assert Covers(history[0], history[|history| - 2]);
      assert Covers(history[|history| - 2], history[|history| - 1]);
    }
  }

  /* ---------- the revealed matrix as an array ---------- */

  /** The rows of a matrix array, as a value. */
  ghost function BoardOf(a: array2<bool>): (g: seq<seq<bool>>)
    reads a
  {
    seq(a.Length0, i requires 0 <= i < a.Length0 reads a =>
      seq(a.Length1, j requires 0 <= j < a.Length1 reads a => a[i, j]))
  }

  /** `initializeGrid(n)`. */
  method InitializeGrid(n: nat) returns (g: array2<bool>)
    ensures fresh(g) && g.Length0 == n && g.Length1 == n
    ensures BoardOf(g) == Unrevealed(n)
  {
    g := new bool[n, n]((_, _) => false);
    assert forall i :: 0 <= i < n ==> BoardOf(g)[i] == Unrevealed(n)[i];
  }

  /** `prevGrid.map((row) => [...row])`: a deep copy. */
  method CopyGrid(a: array2<bool>) returns (c: array2<bool>)
    ensures fresh(c) && c.Length0 == a.Length0 && c.Length1 == a.Length1
    ensures BoardOf(c) == BoardOf(a)
  {
    c := new bool[a.Length0, a.Length1]((i, j) reads a requires 0 <= i < a.Length0 && 0 <= j < a.Length1 => a[i, j]);
    assert forall i :: 0 <= i < a.Length0 ==> BoardOf(c)[i] == BoardOf(a)[i];
  }

  /* ---------- the play screen ---------- */

  /** How the engine's `makeMove` call ended. */
  datatype Reply =
    | Threw                     // the call raised; `fetchData` logs it and yields undefined
    | Answered(success: bool)   // `{success, message}`; the message is only logged

  /**
   * What the engine answers to the calls one click can make: `makeMove`;
   * then, after a successful move, `getCurrentIslandMap` and the accuracy
   * helper; then `isGameComplete` and, if complete, the accuracy helper again.
   * A value map is `None` when `getCurrentIslandMap` threw: no `try` guards
   * that call, so the handler stops there. An accuracy is the percentage the
   * helper reports (`None` when the engine threw, shown as "--"). An
   * `isGameComplete` that throws ends the handler with no further effect, as
   * `complete == false` does.
   */
  datatype Answers = Answers(
    move: Reply,
    islandMap: Option<seq<seq<real>>>,
    moveAccuracy: Option<real>,
    complete: bool,
    finalAccuracy: Option<real>)

  /** The move succeeded and the handler went on to refresh the view from the engine. */
  predicate Refreshed(answers: Answers) {
    answers.move == Answered(true) && answers.islandMap.Some?
  }

  /** The handler reached the completion check: it did not stop at a throwing `getCurrentIslandMap`. */
  predicate ReachesCompletionCheck(answers: Answers) {
    !(answers.move == Answered(true) && answers.islandMap.None?)
  }

  /** The strict scoring rule: a complete game unlocks its level only above the score to beat. */
  predicate Beats(complete: bool, finalAccuracy: Option<real>, reqScore: int) {
    complete && finalAccuracy.Some? && finalAccuracy.value > reqScore as real
  }

  /** The state of the play screen for the active level. */
  class Game {
    const store: Store
    const level: Level                 // `activeLevel`
    var simActive: bool                // `simulationRef.current != null`
    var grid: seq<seq<real>>           // the engine's value map last fetched
    var accuracy: Option<real>         // `None` is the readout "--"
    var clicked: array2<bool>
    var lastClicked: Option<Cell>

    ghost predicate Valid()
      reads this, store, store.levels
    {
      && store.Valid()
      && store.saved.Some?
      && 1 <= level.number <= |Catalog()|
      && SameDefinition(level, Catalog()[level.number - 1])
      && clicked.Length0 == level.size && clicked.Length1 == level.size
    }

    /** The revealed matrix, as a value. */
    ghost function Board(): seq<seq<bool>>
      reads this, clicked
    {
      BoardOf(clicked)
    }

    /** The component's first render: no session yet, nothing revealed, accuracy "--". */
    constructor (store: Store, level: Level)
      requires store.Valid() && store.saved.Some?
      requires 1 <= level.number <= |Catalog()| && SameDefinition(level, Catalog()[level.number - 1])
      ensures Valid() && fresh(clicked)
      ensures this.store == store && this.level == level
      ensures !simActive && grid == [] && accuracy == None && lastClicked == None
      ensures Board() == Unrevealed(level.size)
    {
      this.store := store;
      this.level := level;
      simActive := false;
      grid := [];
      accuracy := None;
      lastClicked := None;
      new;
      clicked := InitializeGrid(level.size);
    }

    /**
     * `startGame` (and the identical automatic start on mount): a new engine
     * session, its value map, a fresh unrevealed matrix and no last cell. The
     * accuracy readout is left as it was. A failing `init` is only logged, so
     * the map is whatever the new session returns. When `getCurrentIslandMap`
     * throws (`None`), the new session is already installed and nothing after
     * it happens.
     */
    method StartGame(islandMap: Option<seq<seq<real>>>)
      requires Valid()
      modifies this
      ensures Valid() && simActive && accuracy == old(accuracy)
      ensures islandMap.Some? ==>
        && grid == islandMap.value && lastClicked == None
        && fresh(clicked) && Board() == Unrevealed(level.size)
      ensures islandMap.None? ==>
        && grid == old(grid) && lastClicked == old(lastClicked)
        && clicked == old(clicked) && Board() == old(Board())
    {
      simActive := true;
      if islandMap.None? {
        return;
      }
      grid := islandMap.value;
      var board := InitializeGrid(level.size);
      clicked := board;
      lastClicked := None;
    }

    /**
     * `resetGrid`: the accuracy readout goes back to "--", then as
     * `StartGame`.
     */
    method ResetGrid(islandMap: Option<seq<seq<real>>>)
      requires Valid()
      modifies this
      ensures Valid() && simActive && accuracy == None
      ensures islandMap.Some? ==>
        && grid == islandMap.value && lastClicked == None
        && fresh(clicked) && Board() == Unrevealed(level.size)
      ensures islandMap.None? ==>
        && grid == old(grid) && lastClicked == old(lastClicked)
        && clicked == old(clicked) && Board() == old(Board())
    {
      accuracy := None;
      StartGame(islandMap);
    }

    /**
     * `handleTileClick(row, col)`. `sent` is the index passed to `makeMove`
     * (`None`: the engine was not called); `unlocked` tells whether the level
     * was marked completed.
     */
    method HandleTileClick(row: int, col: int, answers: Answers) returns (sent: Option<int>, unlocked: bool)
      requires Valid()
      requires 0 <= row < clicked.Length0 && 0 <= col < clicked.Length1
      modifies this, store, store.levels
      ensures Valid()
      // no session, or the cell is already revealed: nothing happens
      ensures !old(simActive) || old(clicked[row, col]) ==>
        && sent == None && !unlocked
        && unchanged(this) && unchanged(clicked) && unchanged(store, store.levels)
      // otherwise the engine is asked to play the cell's index
      ensures old(simActive) && !old(clicked[row, col]) ==>
        && sent == Some(CellIndex(|old(grid)|, row, col))
        && simActive
        && fresh(clicked)
        && Board() == Reveal(old(Board()), row, col)
        && (if Refreshed(answers)
            then grid == answers.islandMap.value && accuracy == answers.moveAccuracy
                 && lastClicked == Some(Cell(row, col))
            else grid == old(grid) && accuracy == old(accuracy) && lastClicked == old(lastClicked))
        && (unlocked <==>
              ReachesCompletionCheck(answers) && Beats(answers.complete, answers.finalAccuracy, level.reqScore))
        && store.saved.value.active == old(store.saved.value.active)
        && (if unlocked
            then store.saved.value.completed == SetFlag(old(store.saved.value.completed), level.number - 1)
                 && store.levels[..] == old(store.levels[..])[level.number - 1 := old(store.levels[level.number - 1]).(completed := true)]
            else unchanged(store, store.levels))
    {
      var index := CellIndex(|grid|, row, col);
      if !simActive || clicked[row, col] {
        return None, false;
      }
      sent := Some(index);
      ghost var before := Board();
      var board := CopyGrid(clicked);
      board[row, col] := true;
      clicked := board;
      assert forall i :: 0 <= i < |before| ==> Board()[i] == Reveal(before, row, col)[i];
      if Refreshed(answers) {
        grid := answers.islandMap.value;
        accuracy := answers.moveAccuracy;
        lastClicked := Some(Cell(row, col));
      }
      // a throwing `getCurrentIslandMap` ends the handler before the completion check
      unlocked := false;
      if ReachesCompletionCheck(answers) && answers.complete && answers.finalAccuracy.Some? {
        if answers.finalAccuracy.value > level.reqScore as real {
          var outcome := store.UpdateLvlStatus(level.number);
          unlocked := true;
        }
      }
    }
  }

  /**
   * The mount code as written: it parses the record it read BEFORE
   * `saveGame(1)`, so on a fresh store it parses null and reading `.active`
   * throws (`None`); otherwise it looks the active level up.
   */
  function ActiveLevelAsWritten(before: Option<SaveData>, levels: seq<Level>): (r: Option<Level>)
    ensures r.Some? <==> before.Some? && 1 <= before.value.active <= |levels|
    ensures Numbered(levels) && r.Some? ==> r.value.number == before.value.active && r.value in levels
  {
    if before.None? then None else GetLevel(levels, before.value.active)
  }

  /** On a fresh store the mount code as written never reaches a level, though the record it just saved names level 1. */
  lemma FreshStoreFailsAsWritten()
    ensures ActiveLevelAsWritten(None, Catalog()) == None
    ensures GetLevel(Catalog(), SaveData(1, FlagsOf(Catalog())).active) == Some(Catalog()[0])
  {
  }

  /**
   * The mount code as intended: save level 1 when nothing is stored, then
   * read the record back and open the game on its active level (`None` if
   * that number is outside the catalog).
   */
  method Open(store: Store) returns (game: Option<Game>)
    requires store.Valid()
    modifies store
    ensures game.Some? ==> fresh(game.value) && game.value.Valid() && game.value.store == store
    ensures old(store.saved).None? ==>
      store.saved == Some(SaveData(1, FlagsOf(store.levels[..]))) &&
      game.Some? && game.value.level.number == 1
    ensures old(store.saved).Some? ==>
      store.saved == old(store.saved) &&
      (game.Some? <==> 1 <= old(store.saved).value.active <= |Catalog()|) &&
      (game.Some? ==> game.value.level.number == old(store.saved).value.active)
  {
    if store.saved.None? {
      store.SaveGame(1);
    }
    var active := GetLevel(store.levels[..], store.saved.value.active);
    if active.None? {
      return None;
    }
    var g := new Game(store, active.value);
    game := Some(g);
  }

  /**
   * A first game reached from the level-select screen, the route the code as
   * written survives: nothing stored, the screen loads the (absent) record,
   * the level 1 button saves level 1, the play screen mounts on it (score to
   * beat 5), a session starts and one click ends the game with the given
   * final accuracy. Level 1 is then recorded as completed exactly when that
   * accuracy is above 5; meeting it exactly does not unlock.
   */
  method FirstLevelScenario(finalAccuracy: real) returns (completed: bool)
    ensures completed <==> finalAccuracy > 5.0
  {
    var store := new Store(None);
    store.LoadData();
    store.SaveGame(1);
    var active := ActiveLevelAsWritten(store.saved, store.levels[..]);
    var g := new Game(store, active.value);
    assert g.level.reqScore == 5;
    assert !store.saved.value.completed[0];
    var values: seq<seq<real>> := seq(3, _ => seq(3, _ => 0.0));
    g.StartGame(Some(values));
    assert !g.Board()[0][0];
    var answers := Answers(Answered(true), Some(values), Some(finalAccuracy), true, Some(finalAccuracy));
    var sent, unlocked := g.HandleTileClick(0, 0, answers);
    completed := store.saved.value.completed[0];
  }
}
