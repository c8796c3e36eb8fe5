// Mobile-menu toggle of assets/js/navbar.js: three class flags, `header-show`
// on the header and `bi-list` / `bi-x` on the toggle button, changed by a
// click on the toggle button and by a click on any navigation link.
module Toggle {

  /** The three class flags. */
  datatype MenuState = MenuState(headerShow: bool, biList: bool, biX: bool)

  /** As rendered: the toggle button carries `bi-list`, nothing else is set. */
  const Closed := MenuState(false, true, false)

  const Open := MenuState(true, false, true)

  /** The menu is open exactly when the close glyph shows instead of the list glyph. */
  predicate Consistent(s: MenuState) {
    s.headerShow == s.biX && s.biX == !s.biList
  }

  /** Click on the toggle button: each of the three classes is toggled. */
  function ToggleClick(s: MenuState): MenuState {
    MenuState(!s.headerShow, !s.biList, !s.biX)
  }

  /** Click on a navigation link: when some element shows the menu, the header
      loses `header-show` and the button gets `bi-list` back and loses `bi-x`. */
  function LinkClick(s: MenuState): MenuState {
    if s.headerShow then s.(headerShow := false, biList := true, biX := false) else s
  }

  datatype Event = ToggleClicked | LinkClicked

  function Step(s: MenuState, e: Event): MenuState {
    match e
    case ToggleClicked => ToggleClick(s)
    case LinkClicked => LinkClick(s)
  }

  /** The state after handling the events in order, each to completion. */
  function Run(s: MenuState, events: seq<Event>): MenuState
    decreases |events|
  {
    if |events| == 0 then s else Run(Step(s, events[0]), events[1..])
  }

  /** The consistent states are exactly the closed and the open menu. */
  lemma ConsistentStates(s: MenuState)
    ensures Consistent(s) <==> s == Closed || s == Open
  {
  }

  /** Two toggle clicks restore any state. */
  lemma ToggleTwiceRestores(s: MenuState)
    ensures ToggleClick(ToggleClick(s)) == s
  {
  }

  /** A toggle click opens a closed menu and closes an open one. */
  lemma ToggleSwitches()
    ensures ToggleClick(Closed) == Open && ToggleClick(Open) == Closed
  {
  }

  /** A link click closes an open menu and leaves a closed one alone. */
  lemma LinkClickCloses(s: MenuState)
    ensures s.headerShow ==> LinkClick(s) == Closed
    ensures !s.headerShow ==> LinkClick(s) == s
    ensures LinkClick(LinkClick(s)) == LinkClick(s)
  {
  }

  /** Each event keeps the flags consistent. */
  lemma StepConsistent(s: MenuState, e: Event)
    requires Consistent(s)
    ensures Consistent(Step(s, e))
  {
  }

  /** From a consistent state, every event sequence ends consistent. */
  lemma {:induction false} RunConsistent(s: MenuState, events: seq<Event>)
    requires Consistent(s)
    ensures Consistent(Run(s, events))
    decreases |events|
  {
    if |events| > 0 {
      StepConsistent(s, events[0]);
      RunConsistent(Step(s, events[0]), events[1..]);
    }
  }

  /** Handling events one after another is handling their concatenation. */
  lemma {:induction false} RunConcat(s: MenuState, a: seq<Event>, b: seq<Event>)
    ensures Run(s, a + b) == Run(Run(s, a), b)
    decreases |a|
  {
    if |a| == 0 {
      assert a + b == b;
    } else {
      assert (a + b)[1..] == a[1..] + b;
      RunConcat(Step(s, a[0]), a[1..], b);
    }
  }

  /** A link click after any events started from the rendered state leaves the menu closed. */
  lemma RunThenLinkClickCloses(events: seq<Event>)
    ensures Run(Closed, events + [LinkClicked]) == Closed
  {
    RunConcat(Closed, events, [LinkClicked]);
    RunConsistent(Closed, events);
    assert Run(Run(Closed, events), [LinkClicked]) == LinkClick(Run(Closed, events));
  }

  /** The header and the toggle button, and their click handlers. */
  class Menu {
    var headerShow: bool
    var biList: bool
    var biX: bool

    function State(): MenuState
      reads this
    {
      MenuState(headerShow, biList, biX)
    }

    /** The markup as rendered. */
    constructor ()
      ensures State() == Closed
    {
      headerShow, biList, biX := false, true, false;
    }

    /** The toggle button's click handler. */
    method OnToggleClick()
      modifies this
      ensures State() == ToggleClick(old(State()))
      ensures Consistent(old(State())) ==> Consistent(State())
    {
      headerShow := !headerShow;
      biList := !biList;
      biX := !biX;
    }

    /** A navigation link's click handler. */
    method OnLinkClick()
      modifies this
      ensures State() == LinkClick(old(State()))
      ensures Consistent(old(State())) ==> State() == Closed
    {
      if headerShow {
        headerShow := false;
        biList := true;
        biX := false;
      }
    }
  }
}
