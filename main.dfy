/** The application shell: which screen is showing, the running game, the
    score table, the main menu and the name typed for a new high score.
    Events and frame updates are dispatched by screen. */
module App {
  import opened Constants
  import opened Scores
  import Arena
  import E = Engine
  import M = Menus

  datatype Screen = MenuScreen | GameScreen | HighScoresScreen | NameInputScreen

  /** The keys the shell and what it forwards distinguish. */
  datatype AppKey = EscapeKey | ReturnKey | BackspaceKey | UpKey | DownKey | SpaceKey | RKey | OtherAppKey

  /** A pygame event: the window's QUIT, a key press with the text it
      types (`event.unicode`), or anything else. */
  datatype AppEvent = QuitEvent | KeyPress(key: AppKey, text: string) | OtherInput

  /** The options `_setup_menu` adds, in order. */
  const MENU_ACTIONS: seq<M.MenuAction> := [M.StartGame, M.ShowHighScores, M.QuitGame]

  // ---------------------------------------------------------------------
  // The name buffer
  // ---------------------------------------------------------------------

  predicate IsAlnum(c: char)
  {
    ('a' <= c <= 'z') || ('A' <= c <= 'Z') || ('0' <= c <= '9')
  }

  /** `text.isalnum() or text == ' '`: a non-empty run of letters and
      digits, or one space. */
  predicate Typable(text: string)
  {
    (|text| > 0 && forall k :: 0 <= k < |text| ==> IsAlnum(text[k])) || text == " "
  }

  /** A key that is not RETURN or ESCAPE, on the name being typed:
      BACKSPACE drops the last character (nothing on an empty name), typable
      text is appended while the name is shorter than the cap. */
  function EditName(name: string, key: AppKey, text: string): string
  {
    if key == BackspaceKey then (if name == [] then [] else name[..|name| - 1])
    else if Typable(text) && |name| < MAX_NAME_LENGTH then name + text
    else name
  }

  /** What an edit does: BACKSPACE removes exactly the last character;
      otherwise the name grows by the text or stays, and it only grows by
      typable text on a name under the cap. */
  lemma EditNameSpec(name: string, key: AppKey, text: string)
    ensures var r := EditName(name, key, text);
      (key == BackspaceKey ==> (name == [] ==> r == []) && (name != [] ==> r + [name[|name| - 1]] == name)) &&
      (key != BackspaceKey ==> r == name || (r == name + text && Typable(text) && |name| < MAX_NAME_LENGTH))
  {
  }

  /** Typing at most one character at a time, the name never exceeds the
      cap. */
  lemma EditNameCapped(name: string, key: AppKey, text: string)
    requires |name| <= MAX_NAME_LENGTH && |text| <= 1
    ensures |EditName(name, key, text)| <= MAX_NAME_LENGTH
  {
  }

  /** Only letters, digits and spaces ever enter the name. */
  lemma EditNameCharacters(name: string, key: AppKey, text: string)
    requires forall k :: 0 <= k < |name| ==> IsAlnum(name[k]) || name[k] == ' '
    ensures var r := EditName(name, key, text);
      forall k :: 0 <= k < |r| ==> IsAlnum(r[k]) || r[k] == ' '
  {
    var r := EditName(name, key, text);
    if key != BackspaceKey && r != name {
      forall k | 0 <= k < |r| ensures IsAlnum(r[k]) || r[k] == ' ' {
        if k >= |name| {
          assert r[k] == text[k - |name|];
        }
      }
    }
  }

  // ---------------------------------------------------------------------
  // The shell as a state machine
  // ---------------------------------------------------------------------

  /** Every field of `BombermanApp` that the transitions read or write;
      `engine` is None where `game_engine` is None. */
  datatype AppState = AppState(
    running: bool, screen: Screen, engine: Option<E.EngineState>,
    scores: seq<ScoreEntry>, menuSelection: int, playerName: string, isEnteringName: bool)

  /** What every reachable shell state satisfies: a game or name entry
      always has an engine, the name-entry flag is on exactly on the name
      screen, and the menu cursor is on an option. */
  ghost predicate Inv(a: AppState)
  {
    ((a.screen == GameScreen || a.screen == NameInputScreen) ==> a.engine.Some?) &&
    (a.engine.Some? ==> a.engine.value.grid.WellFormed()) &&
    (a.isEnteringName <==> a.screen == NameInputScreen) &&
    0 <= a.menuSelection < |MENU_ACTIONS|
  }

  /** `__init__` over a score file holding `stored`. */
  function Initial(stored: seq<ScoreEntry>): AppState
  {
    AppState(true, MenuScreen, None, stored, 0, [], false)
  }

  /** `_back_to_menu`: the engine is kept. */
  function BackToMenuState(a: AppState): AppState
  {
    a.(screen := MenuScreen, isEnteringName := false, playerName := [])
  }

  function ToMenuEvent(ev: AppEvent): M.MenuEvent
  {
    match ev
    case KeyPress(UpKey, _) => M.KeyDown(M.Up)
    case KeyPress(DownKey, _) => M.KeyDown(M.Down)
    case KeyPress(ReturnKey, _) => M.KeyDown(M.Return)
    case KeyPress(_, _) => M.KeyDown(M.OtherKey)
    case _ => M.OtherEvent
  }

  function ToEngineEvent(ev: AppEvent): E.EngineEvent
  {
    match ev
    case KeyPress(SpaceKey, _) => E.KeyDown(E.Space)
    case KeyPress(RKey, _) => E.KeyDown(E.KeyR)
    case KeyPress(_, _) => E.KeyDown(E.OtherKey)
    case _ => E.OtherEvent
  }

  /** One event of `handle_events`: QUIT on every screen, otherwise the
      current screen's handler; a new game takes the clock reading and the
      random draws as inputs. */
  ghost function OnEvent(a: AppState, ev: AppEvent, now: int, draws: E.GameDraws): AppState
    requires Inv(a)
  {
    if ev == QuitEvent then a.(running := false)
    else match a.screen
      case MenuScreen => OnMenuEvent(a, ev, now, draws)
      case GameScreen => OnGameEvent(a, ev, now, draws)
      case HighScoresScreen => OnHighScoresEvent(a, ev)
      case NameInputScreen => OnNameEvent(a, ev)
  }

  /** `_handle_menu_events`: ESCAPE quits, anything else goes to the menu,
      whose selected callback then runs. */
  function OnMenuEvent(a: AppState, ev: AppEvent, now: int, draws: E.GameDraws): AppState
    requires 0 <= a.menuSelection < |MENU_ACTIONS|
  {
    if ev.KeyPress? && ev.key == EscapeKey then a.(running := false)
    else
      var (sel, out) := M.Step(MENU_ACTIONS, a.menuSelection, ToMenuEvent(ev));
      MenuCallback(a.(menuSelection := sel), out, now, draws)
  }

  /** A menu event other than ESCAPE is the menu's step followed by the
      callback it chose. */
  lemma MenuEventRuns(a: AppState, ev: AppEvent, sel: int, out: M.Outcome, now: int, draws: E.GameDraws)
    requires 0 <= a.menuSelection < |MENU_ACTIONS| && !(ev.KeyPress? && ev.key == EscapeKey)
    requires (sel, out) == M.Step(MENU_ACTIONS, a.menuSelection, ToMenuEvent(ev))
    ensures OnMenuEvent(a, ev, now, draws) == MenuCallback(a.(menuSelection := sel), out, now, draws)
  {
  }

  /** The callbacks `_setup_menu` installs: `_start_game`, `_show_high_scores`
      and `_quit_game`. */
  function MenuCallback(a: AppState, out: M.Outcome, now: int, draws: E.GameDraws): AppState
  {
    if out == M.Invoke(M.StartGame) then a.(screen := GameScreen, engine := Some(E.NewGame(draws, now, 0)))
    else if out == M.Invoke(M.ShowHighScores) then a.(screen := HighScoresScreen)
    else if out == M.Invoke(M.QuitGame) then a.(running := false)
    else a
  }

  /** `_handle_game_events`: ESCAPE drops the game, anything else goes to
      the engine. */
  function OnGameEvent(a: AppState, ev: AppEvent, now: int, draws: E.GameDraws): AppState
    requires a.engine.Some? && a.engine.value.grid.WellFormed()
  {
    if ev.KeyPress? && ev.key == EscapeKey then a.(screen := MenuScreen, engine := None)
    else a.(engine := Some(E.OnEvent(a.engine.value, ToEngineEvent(ev), now, draws)))
  }

  /** `_handle_high_scores_events`. */
  function OnHighScoresEvent(a: AppState, ev: AppEvent): AppState
  {
    if ev.KeyPress? && ev.key == EscapeKey then BackToMenuState(a) else a
  }

  /** `_handle_name_input_events`: RETURN records a non-blank name with the
      game's score, ESCAPE abandons it, other keys edit it. */
  function OnNameEvent(a: AppState, ev: AppEvent): AppState
    requires a.engine.Some?
  {
    if !ev.KeyPress? then a
    else if ev.key == ReturnKey then
      if IsBlank(a.playerName) then a
      else BackToMenuState(a.(scores := Added(a.scores, a.playerName, a.engine.value.score)))
    else if ev.key == EscapeKey then BackToMenuState(a)
    else a.(playerName := EditName(a.playerName, ev.key, ev.text))
  }

  /** `update`: a running game ticks; once it is over or won, a qualifying
      score opens name entry, otherwise the game is dropped. */
  ghost function OnUpdate(a: AppState, i: E.TickInput): AppState
    requires Inv(a)
  {
    if a.screen == GameScreen && a.engine.Some? then GameEndCheck(a.(engine := Some(E.Tick(a.engine.value, i))))
    else a
  }

  /** The check `update` makes after the tick, on the ticked engine. */
  function GameEndCheck(a: AppState): AppState
    requires a.engine.Some?
  {
    var e := a.engine.value;
    if e.gameOver || e.victory then
      if Qualifies(a.scores, e.score) then a.(screen := NameInputScreen, isEnteringName := true)
      else a.(screen := MenuScreen, engine := None)
    else a
  }

  /** A batch of events handled in order. */
  ghost function OnEvents(a: AppState, evs: seq<AppEvent>, now: int, draws: E.GameDraws): (r: AppState)
    requires Inv(a)
    ensures Inv(r)
  {
    if evs == [] then a
    else
      var b := OnEvents(a, evs[..|evs| - 1], now, draws);
      OnEventKeepsInv(b, evs[|evs| - 1], now, draws);
      OnEvent(b, evs[|evs| - 1], now, draws)
  }

  // ---------------------------------------------------------------------
  // Properties of the transitions
  // ---------------------------------------------------------------------

  /** Every event keeps the shell invariant. */
  lemma OnEventKeepsInv(a: AppState, ev: AppEvent, now: int, draws: E.GameDraws)
    requires Inv(a)
    ensures Inv(OnEvent(a, ev, now, draws))
  {
    if ev != QuitEvent && a.screen == MenuScreen {
      MenuEventKeepsInv(a, ev, now, draws);
    }
  }

  lemma MenuEventKeepsInv(a: AppState, ev: AppEvent, now: int, draws: E.GameDraws)
    requires Inv(a) && a.screen == MenuScreen
    ensures Inv(OnMenuEvent(a, ev, now, draws))
  {
    if !(ev.KeyPress? && ev.key == EscapeKey) {
      M.StepSpec(MENU_ACTIONS, a.menuSelection, ToMenuEvent(ev));
      var (sel, out) := M.Step(MENU_ACTIONS, a.menuSelection, ToMenuEvent(ev));
      MenuCallbackKeepsInv(a.(menuSelection := sel), out, now, draws);
    }
  }

  lemma MenuCallbackKeepsInv(a: AppState, out: M.Outcome, now: int, draws: E.GameDraws)
    requires Inv(a) && a.screen == MenuScreen
    ensures Inv(MenuCallback(a, out, now, draws))
  {
    Arena.GenerateEstablishesInv(draws.fill);
  }

  /** Typing one character at a time, the name stays within the cap on
      every event and every update. */
  lemma NameStaysCapped(a: AppState, ev: AppEvent, now: int, draws: E.GameDraws, i: E.TickInput)
    requires Inv(a) && |a.playerName| <= MAX_NAME_LENGTH
    requires ev.KeyPress? ==> |ev.text| <= 1
    ensures |OnEvent(a, ev, now, draws).playerName| <= MAX_NAME_LENGTH
    ensures |OnUpdate(a, i).playerName| <= MAX_NAME_LENGTH
  {
    if ev != QuitEvent && a.screen == NameInputScreen && ev.KeyPress? {
      EditNameCapped(a.playerName, ev.key, ev.text);
    }
  }

  /** Ticking the engine keeps the shell invariant. */
  lemma TickKeepsInv(a: AppState, i: E.TickInput)
    requires Inv(a) && a.engine.Some?
    ensures Inv(a.(engine := Some(E.Tick(a.engine.value, i))))
  {
  }

  /** Every frame update keeps the shell invariant. */
  lemma OnUpdateKeepsInv(a: AppState, i: E.TickInput)
    requires Inv(a)
    ensures Inv(OnUpdate(a, i))
  {
  }

  /** QUIT stops the application on every screen and changes nothing else. */
  lemma QuitStops(a: AppState, now: int, draws: E.GameDraws)
    requires Inv(a)
    ensures OnEvent(a, QuitEvent, now, draws) == a.(running := false)
  {
  }

  /** ESCAPE in a game returns to the menu and drops the game. */
  lemma EscapeLeavesGame(a: AppState, text: string, now: int, draws: E.GameDraws)
    requires Inv(a) && a.screen == GameScreen
    ensures var b := OnEvent(a, KeyPress(EscapeKey, text), now, draws);
      b.screen == MenuScreen && b.engine == None && b.scores == a.scores && b.running
      == a.running
  {
  }

  /** On the name screen, RETURN with a blank name changes nothing; with a
      non-blank one it records the engine's score under the stripped name
      and returns to the menu with the buffer cleared; ESCAPE returns
      without recording. */
  lemma NameEntryEnds(a: AppState, text: string, now: int, draws: E.GameDraws)
    requires Inv(a) && a.screen == NameInputScreen
    ensures var b := OnEvent(a, KeyPress(ReturnKey, text), now, draws);
      (IsBlank(a.playerName) ==> b == a) &&
      (!IsBlank(a.playerName) ==>
         b.screen == MenuScreen && !b.isEnteringName && b.playerName == [] &&
         b.scores == Added(a.scores, a.playerName, a.engine.value.score))
    ensures var b := OnEvent(a, KeyPress(EscapeKey, text), now, draws);
      b.screen == MenuScreen && !b.isEnteringName && b.playerName == [] && b.scores == a.scores
  {
  }

  /** A name recorded from the name screen is stored stripped, with the
      game's score, and the table stays sorted and at most ten long. */
  lemma RecordedEntry(a: AppState, text: string, now: int, draws: E.GameDraws)
    requires Inv(a) && a.screen == NameInputScreen && !IsBlank(a.playerName)
    requires SortedDesc(a.scores) && |a.scores| <= MAX_SCORES
    requires Qualifies(a.scores, a.engine.value.score)
    ensures var b := OnEvent(a, KeyPress(ReturnKey, text), now, draws);
      var e := ScoreEntry(Strip(a.playerName), a.engine.value.score);
      SortedDesc(b.scores) && |b.scores| <= MAX_SCORES &&
      multiset(b.scores)[e] == multiset(a.scores)[e] + 1
  {
    AddedKeepsTable(a.scores, a.playerName, a.engine.value.score);
    QualifiesIff(a.scores, a.playerName, a.engine.value.score);
  }

  /** The update that sees the game end leaves the game screen: to name
      entry when the score qualifies, else to the menu without an engine. */
  lemma GameEndLeavesGame(a: AppState, i: E.TickInput)
    requires Inv(a) && a.screen == GameScreen
    ensures var e := E.Tick(a.engine.value, i);
      var b := OnUpdate(a, i);
      (e.gameOver || e.victory ==>
         if Qualifies(a.scores, e.score)
         then b.screen == NameInputScreen && b.isEnteringName && b.engine == Some(e)
         else b.screen == MenuScreen && b.engine == None) &&
      (!(e.gameOver || e.victory) ==> b.screen == GameScreen && b.engine == Some(e))
  {
  }

  /** The menu options, selected with RETURN, start a new game, open the
      high-score table, or stop the application. */
  lemma MenuChoices(a: AppState, text: string, now: int, draws: E.GameDraws)
    requires Inv(a) && a.screen == MenuScreen
    ensures var b := OnEvent(a, KeyPress(ReturnKey, text), now, draws);
      b.menuSelection == a.menuSelection &&
      (a.menuSelection == 0 ==> b.screen == GameScreen && b.engine == Some(E.NewGame(draws, now, 0))) &&
      (a.menuSelection == 1 ==> b.screen == HighScoresScreen && b.engine == a.engine) &&
      (a.menuSelection == 2 ==> !b.running && b.screen == MenuScreen)
  {
  }

  // ---------------------------------------------------------------------
  // The application object
  // ---------------------------------------------------------------------

  class BombermanApp {
    var running: bool
    var currentState: Screen
    var gameEngine: E.GameEngine?
    var scoreManager: ScoreManager
    var menu: M.Menu
    var playerName: string
    var isEnteringName: bool

    /** The objects the shell owns: itself, the score manager, the menu and
        the running game's objects. */
    ghost var Repr: set<object>

    ghost function Owned(): set<object>
      reads this, gameEngine
    {
      {this, scoreManager, menu} + (if gameEngine == null then {} else gameEngine.Repr())
    }

    ghost function Abs(): AppState
      reads this, scoreManager, menu, gameEngine, if gameEngine == null then {} else gameEngine.Repr()
    {
      AppState(running, currentState,
               if gameEngine == null then None else Some(gameEngine.Abs()),
               scoreManager.scores, menu.selectedOption, playerName, isEnteringName)
    }

    /** The object graph holds shell state s when each part does. */
    lemma IsApp(s: AppState)
      requires running == s.running && currentState == s.screen && scoreManager.scores == s.scores
      requires menu.selectedOption == s.menuSelection && playerName == s.playerName
      requires isEnteringName == s.isEnteringName
      requires if gameEngine == null then s.engine == None else s.engine == Some(gameEngine.Abs())
      ensures Abs() == s
    {
    }

    ghost predicate Valid()
      reads this, scoreManager, menu, gameEngine, if gameEngine == null then {} else gameEngine.Repr()
    {
      Owned() <= Repr &&
      menu.Valid() && menu.actions == MENU_ACTIONS &&
      (gameEngine != null ==> gameEngine.Valid()) &&
      Inv(Abs())
    }

    /** `__init__` and `_setup_menu`, over a score file holding `stored`. */
    constructor (stored: seq<ScoreEntry>)
      ensures Valid() && Abs() == Initial(stored) && fresh(Repr)
    {
      running, currentState, gameEngine := true, MenuScreen, null;
      scoreManager := new ScoreManager(stored);
      var m := new M.Menu();
      m.AddOption("Start Game", M.StartGame);
      m.AddOption("High Scores", M.ShowHighScores);
      m.AddOption("Quit", M.QuitGame);
      menu := m;
      playerName, isEnteringName := [], false;
      Repr := {this, scoreManager, menu};
    }

    /** `_start_game`. */
    method StartGame(draws: E.GameDraws, now: int)
      modifies this`currentState, this`gameEngine, this`Repr
      ensures currentState == GameScreen && gameEngine != null && fresh(gameEngine.Repr())
      ensures gameEngine.Valid() && gameEngine.Abs() == E.NewGame(draws, now, 0)
      ensures Repr == old(Repr) + gameEngine.Repr()
    {
      currentState := GameScreen;
      gameEngine := new E.GameEngine(draws, now);
      Repr := Repr + gameEngine.Repr();
    }

    /** `_back_to_menu`. */
    method BackToMenu()
      modifies this`currentState, this`isEnteringName, this`playerName
      ensures currentState == MenuScreen && !isEnteringName && playerName == []
    {
      currentState, isEnteringName, playerName := MenuScreen, false, [];
    }

    /** One event of the `handle_events` loop. */
    method HandleEvent(ev: AppEvent, now: int, draws: E.GameDraws)
      requires Valid()
      modifies Repr
      ensures Valid() && Abs() == OnEvent(old(Abs()), ev, now, draws)
      ensures fresh(Repr - old(Repr))
    {
      ghost var a := Abs();
      OnEventKeepsInv(a, ev, now, draws);
      if ev == QuitEvent {
        running := false;
      } else if currentState == MenuScreen {
        HandleMenuEvent(ev, now, draws);
      } else if currentState == GameScreen {
        HandleGameEvent(ev, now, draws);
      } else if currentState == HighScoresScreen {
        if ev.KeyPress? && ev.key == EscapeKey {
          BackToMenu();
        }
      } else {
        HandleNameInputEvent(ev);
      }
    }

    /** `_handle_menu_events`, with the selected option's callback run here. */
    method HandleMenuEvent(ev: AppEvent, now: int, draws: E.GameDraws)
      requires Valid() && currentState == MenuScreen && ev != QuitEvent
      modifies this, menu`selectedOption
      ensures Valid() && Abs() == OnMenuEvent(old(Abs()), ev, now, draws)
      ensures fresh(Repr - old(Repr))
    {
      if ev.KeyPress? && ev.key == EscapeKey {
        running := false;
        return;
      }
      ghost var a := Abs();
      var out := menu.HandleEvent(ToMenuEvent(ev));
      assert Repr == old(Repr);
      MenuEventRuns(a, ev, menu.selectedOption, out, now, draws);
      IsApp(a.(menuSelection := menu.selectedOption));
      RunMenuAction(out, now, draws);
    }

    /** The callback the menu chose, run. */
    method RunMenuAction(out: M.Outcome, now: int, draws: E.GameDraws)
      requires Valid() && currentState == MenuScreen
      modifies this
      ensures Valid() && Abs() == MenuCallback(old(Abs()), out, now, draws)
      ensures fresh(Repr - old(Repr))
    {
      ghost var target := MenuCallback(Abs(), out, now, draws);
      MenuCallbackKeepsInv(Abs(), out, now, draws);
      if out == M.Invoke(M.StartGame) {
        StartGame(draws, now);
      } else if out == M.Invoke(M.ShowHighScores) {
        currentState := HighScoresScreen;
      } else if out == M.Invoke(M.QuitGame) {
        running := false;
      }
      IsApp(target);
    }

    /** `_handle_game_events`. */
    method HandleGameEvent(ev: AppEvent, now: int, draws: E.GameDraws)
      requires Valid() && currentState == GameScreen && ev != QuitEvent
      modifies this, if gameEngine == null then {} else gameEngine.Repr()
      ensures Valid() && Abs() == OnGameEvent(old(Abs()), ev, now, draws)
      ensures fresh(Repr - old(Repr))
    {
      ghost var a := Abs();
      ghost var target := OnGameEvent(a, ev, now, draws);
      if ev.KeyPress? && ev.key == EscapeKey {
        currentState, gameEngine := MenuScreen, null;
      } else {
        gameEngine.HandleEvent(ToEngineEvent(ev), now, draws);
        Repr := Repr + gameEngine.Repr();
      }
      IsApp(target);
    }

    /** `_handle_name_input_events`. */
    method HandleNameInputEvent(ev: AppEvent)
      requires Valid() && currentState == NameInputScreen && ev != QuitEvent
      modifies this, scoreManager
      ensures Valid() && Abs() == OnNameEvent(old(Abs()), ev)
      ensures Repr == old(Repr)
    {
      ghost var target := OnNameEvent(Abs(), ev);
      if !ev.KeyPress? {
        return;
      }
      if ev.key == ReturnKey {
        if !IsBlank(playerName) {
          var _ := scoreManager.AddScore(playerName, gameEngine.score);
          BackToMenu();
        }
      } else if ev.key == EscapeKey {
        BackToMenu();
      } else {
        playerName := EditName(playerName, ev.key, ev.text);
      }
      IsApp(target);
    }

    /** The `handle_events` loop over the events of one frame. */
    method HandleEvents(events: seq<AppEvent>, now: int, draws: E.GameDraws)
      requires Valid()
      modifies Repr
      ensures Valid() && Abs() == OnEvents(old(Abs()), events, now, draws)
      ensures fresh(Repr - old(Repr))
    {
      var k := 0;
      while k < |events|
        invariant 0 <= k <= |events| && Valid()
        invariant Abs() == OnEvents(old(Abs()), events[..k], now, draws)
        invariant fresh(Repr - old(Repr))
      {
        assert events[..k + 1][..k] == events[..k];
        HandleEvent(events[k], now, draws);
        k := k + 1;
      }
      assert events[..k] == events;
    }

    /** `update`. */
    method Update(i: E.TickInput)
      requires Valid()
      modifies Repr
      ensures Valid() && Abs() == OnUpdate(old(Abs()), i)
      ensures fresh(Repr - old(Repr))
    {
      if currentState == GameScreen && gameEngine != null {
        ghost var a := Abs();
        ghost var b := a.(engine := Some(E.Tick(a.engine.value, i)));
        TickKeepsInv(a, i);
        gameEngine.Update(i);
        IsApp(b);
        CheckGameEnd();
      }
    }

    /** The end-of-game branch of `update`. */
    method CheckGameEnd()
      requires Valid() && currentState == GameScreen && gameEngine != null
      modifies this
      ensures Valid() && Abs() == GameEndCheck(old(Abs()))
      ensures Repr == old(Repr)
    {
      ghost var target := GameEndCheck(Abs());
      if gameEngine.gameOver || gameEngine.victory {
        var high := scoreManager.IsHighScore(gameEngine.score);
        if high {
          currentState, isEnteringName := NameInputScreen, true;
        } else {
          currentState, gameEngine := MenuScreen, null;
        }
      }
      IsApp(target);
    }
  }
}
