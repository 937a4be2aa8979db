/** The main menu's cursor: a list of option labels with one action each,
    and a selection that UP and DOWN move with wrap-around. */
module Menus {

  /** The callbacks the menu can hold, as tags; `NoAction` stands for a
      falsy entry, which RETURN skips. */
  datatype MenuAction = StartGame | ShowHighScores | QuitGame | NoAction

  datatype MenuKey = Up | Down | Return | OtherKey

  /** The pygame events the menu looks at: key presses, and everything
      else. */
  datatype MenuEvent = KeyDown(key: MenuKey) | OtherEvent

  /** What `handle_events` does besides moving the cursor: calls one
      action, calls nothing, or raises (`%` by zero on UP or DOWN, an index
      error on RETURN, both with no options). */
  datatype Outcome = Invoke(action: MenuAction) | NoCall | Raises

  /** A selection the cursor can hold: in range, or the initial 0 of an
      empty menu. */
  predicate InRange(sel: int, n: nat)
  {
    0 <= sel && (sel < n || sel == 0)
  }

  /** One event on a menu with the given actions and selection: the new
      selection and the outcome. */
  function Step(actions: seq<MenuAction>, sel: int, ev: MenuEvent): (r: (int, Outcome))
    requires InRange(sel, |actions|)
  {
    match ev
    case OtherEvent => (sel, NoCall)
    case KeyDown(key) =>
      var n := |actions|;
      match key
      case Up => if n == 0 then (sel, Raises) else ((sel - 1) % n, NoCall)
      case Down => if n == 0 then (sel, Raises) else ((sel + 1) % n, NoCall)
      case Return =>
        if n == 0 then (sel, Raises)
        else if actions[sel] == NoAction then (sel, NoCall)
        else (sel, Invoke(actions[sel]))
      case OtherKey => (sel, NoCall)
  }

  /** Every step keeps the selection in range, moves it only on UP or
      DOWN, and raises exactly on a key press into an empty menu. */
  lemma StepSpec(actions: seq<MenuAction>, sel: int, ev: MenuEvent)
    requires InRange(sel, |actions|)
    ensures var (sel', out) := Step(actions, sel, ev);
      InRange(sel', |actions|) &&
      (out == Raises <==> |actions| == 0 && ev.KeyDown? && ev.key != OtherKey) &&
      (ev != KeyDown(Up) && ev != KeyDown(Down) ==> sel' == sel) &&
      (out.Invoke? ==> ev == KeyDown(Return) && out.action == actions[sel] != NoAction)
  {
  }

  /** UP from the first option selects the last, DOWN from the last
      selects the first. */
  lemma Wraps(actions: seq<MenuAction>)
    requires |actions| > 0
    ensures Step(actions, 0, KeyDown(Up)).0 == |actions| - 1
    ensures Step(actions, |actions| - 1, KeyDown(Down)).0 == 0
  {
  }

  /** DOWN undoes UP and UP undoes DOWN on an in-range selection. */
  lemma UpDownInverse(actions: seq<MenuAction>, sel: int)
    requires 0 <= sel < |actions|
    ensures Step(actions, Step(actions, sel, KeyDown(Up)).0, KeyDown(Down)).0 == sel
    ensures Step(actions, Step(actions, sel, KeyDown(Down)).0, KeyDown(Up)).0 == sel
  {
    var n := |actions|;
    var u := Step(actions, sel, KeyDown(Up)).0;
    var d := Step(actions, sel, KeyDown(Down)).0;
    assert u == PrevOf(sel, n) by { ModStep(sel - 1, n); }
    assert d == NextOf(sel, n) by { ModStep(sel + 1, n); }
    ModStep(u + 1, n);
    ModStep(d - 1, n);
  }

  function PrevOf(sel: int, n: int): int
  {
    if sel == 0 then n - 1 else sel - 1
  }

  function NextOf(sel: int, n: int): int
  {
    if sel == n - 1 then 0 else sel + 1
  }

  /** `%` by n on the values a single step can reach. */
  lemma ModStep(a: int, n: int)
    requires n > 0 && -1 <= a <= n
    ensures a == -1 ==> a % n == n - 1
    ensures a == n ==> a % n == 0
    ensures 0 <= a < n ==> a % n == a
  {
    if a == -1 {
      assert -1 == n * (-1) + (n - 1);
    } else if a == n {
      assert n == n * 1 + 0;
    }
  }

  /** RETURN reports the selected action when there is one, and never
      moves the cursor; other events never call anything. */
  lemma ReturnSelects(actions: seq<MenuAction>, sel: int, ev: MenuEvent)
    requires 0 <= sel < |actions|
    ensures ev == KeyDown(Return) ==>
      Step(actions, sel, ev) == (sel, if actions[sel] == NoAction then NoCall else Invoke(actions[sel]))
    ensures ev != KeyDown(Return) ==> Step(actions, sel, ev).1 == NoCall
  {
  }

  class Menu {
    var options: seq<string>
    var actions: seq<MenuAction>
    var selectedOption: int

    ghost predicate Valid()
      reads this
    {
      |options| == |actions| && InRange(selectedOption, |actions|)
    }

    /** A menu with no options and the cursor at 0; the screen size and
        fonts are not modelled. */
    constructor ()
      ensures Valid() && options == [] && actions == [] && selectedOption == 0
    {
      options, actions, selectedOption := [], [], 0;
    }

    /** `add_option`: label and action go to the same index. */
    method AddOption(text: string, action: MenuAction)
      requires Valid()
      modifies this
      ensures Valid()
      ensures options == old(options) + [text] && actions == old(actions) + [action]
      ensures selectedOption == old(selectedOption)
    {
      options := options + [text];
      actions := actions + [action];
    }

    /** `handle_events`, with the chosen action reported to the caller
        instead of called. */
    method HandleEvent(ev: MenuEvent) returns (out: Outcome)
      requires Valid()
      modifies this`selectedOption
      ensures Valid() && (selectedOption, out) == Step(actions, old(selectedOption), ev)
    {
      out := NoCall;
      if ev.KeyDown? {
        var n := |options|;
        match ev.key
        case Up =>
          if n == 0 {
            return Raises;
          }
          selectedOption := (selectedOption - 1) % n;
        case Down =>
          if n == 0 {
            return Raises;
          }
          selectedOption := (selectedOption + 1) % n;
        case Return =>
          if n == 0 {
            return Raises;
          }
          if actions[selectedOption] != NoAction {
            out := Invoke(actions[selectedOption]);
          }
        case OtherKey =>
      }
    }
  }
}
