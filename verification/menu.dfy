/**
  The mobile navigation menu: the `active` class on the hamburger button
  (`mobile-menu`) and on the link list (`nav-menu`), changed by a click on the button,
  a click on any navigation link, and the Escape key.
 */
module MobileMenu {

  datatype MenuState = MenuState(mobileActive: bool, navActive: bool)

  datatype MenuEvent = ButtonClick | LinkClick | EscapeKey

  const Closed := MenuState(false, false)

  /** Button and list agree: both marked (menu open) or both unmarked (menu closed). */
  predicate InSync(s: MenuState) {
    s.mobileActive == s.navActive
  }

  /**
    The effect of one event: the button click toggles each class on its own, a link
    click removes both, and Escape removes both only when the list is marked.
   */
  function Step(s: MenuState, e: MenuEvent): MenuState {
    match e
    case ButtonClick => MenuState(!s.mobileActive, !s.navActive)
    case LinkClick => Closed
    case EscapeKey => if s.navActive then Closed else s
  }

  function Apply(s: MenuState, events: seq<MenuEvent>): MenuState
    decreases |events|
  {
    if events == [] then s else Apply(Step(s, events[0]), events[1..])
  }

  /** Every event keeps button and list in agreement. */
  lemma StepKeepsSync(s: MenuState, e: MenuEvent)
    requires InSync(s)
    ensures InSync(Step(s, e))
  {
  }

  /** Starting closed, no sequence of events can separate the two marks. */
  lemma {:induction false} ApplyKeepsSync(s: MenuState, events: seq<MenuEvent>)
    requires InSync(s)
    ensures InSync(Apply(s, events))
    decreases |events|
  {
    if events != [] {
      StepKeepsSync(s, events[0]);
      ApplyKeepsSync(Step(s, events[0]), events[1..]);
    }
  }

  /**
    Index of the last link click or Escape in `events`, or -1 when there is none; only
    button clicks follow it.
   */
  function LastClose(events: seq<MenuEvent>): (r: int)
    ensures -1 <= r < |events|
    ensures r >= 0 ==> events[r] != ButtonClick
    ensures forall j :: r < j < |events| ==> events[j] == ButtonClick
    decreases |events|
  {
    if events == [] then -1
    else if events[|events| - 1] != ButtonClick then |events| - 1
    else LastClose(events[..|events| - 1])
  }

  /** Reference: from a closed menu, it is open iff an odd number of button clicks follow the last close. */
  predicate OpenAfter(events: seq<MenuEvent>) {
    (|events| - 1 - LastClose(events)) % 2 == 1
  }

  lemma {:induction false} ApplySnoc(s: MenuState, events: seq<MenuEvent>, e: MenuEvent)
    ensures Apply(s, events + [e]) == Step(Apply(s, events), e)
    decreases |events|
  {
    if events != [] {
      assert (events + [e])[1..] == events[1..] + [e];
      ApplySnoc(Step(s, events[0]), events[1..], e);
    }
  }

  /** The menu the handlers leave behind, read off the event history alone. */
  lemma {:induction false} ApplyFromClosed(events: seq<MenuEvent>)
    ensures Apply(Closed, events) == MenuState(OpenAfter(events), OpenAfter(events))
    decreases |events|
  {
    if events != [] {
      var init := events[..|events| - 1];
      var e := events[|events| - 1];
      assert init + [e] == events;
      ApplyFromClosed(init);
      ApplySnoc(Closed, init, e);
      if e == ButtonClick {
        assert LastClose(events) == LastClose(init);
      }
    }
  }

  /** A link click or Escape closes a menu whose marks agree, whatever its state. */
  lemma CloseEventsClose(s: MenuState, e: MenuEvent)
    requires InSync(s) && e != ButtonClick
    ensures Step(s, e) == Closed
  {
  }

  /**
    Escape looks only at the list: a button marked on its own (which the toggle alone
    never produces from agreeing marks) stays marked.
   */
  lemma EscapeIgnoresStrayButtonMark(s: MenuState)
    requires s.mobileActive && !s.navActive
    ensures Step(s, EscapeKey) == s && !InSync(Step(s, ButtonClick))
  {
  }

  /** Two button clicks in a row leave the menu as it was. */
  lemma ToggleTwiceRestores(s: MenuState)
    ensures Apply(s, [ButtonClick, ButtonClick]) == s
  {
    assert [ButtonClick, ButtonClick][1..] == [ButtonClick];
  }

  /** The two class flags, changed in place by the three handlers. */
  class Menu {
    var mobileActive: bool
    var navActive: bool

    function State(): MenuState
      reads this
    {
      MenuState(mobileActive, navActive)
    }

    constructor ()
      ensures State() == Closed
    {
      mobileActive := false;
      navActive := false;
    }

    /** The hamburger button's click handler. */
    method OnButtonClick()
      modifies this
      ensures State() == Step(old(State()), ButtonClick)
      ensures InSync(old(State())) ==> InSync(State())
    {
      mobileActive := !mobileActive;
      navActive := !navActive;
    }

    /** The click handler every navigation link gets. */
    method OnLinkClick()
      modifies this
      ensures State() == Step(old(State()), LinkClick)
      ensures State() == Closed
    {
      mobileActive := false;
      navActive := false;
    }

    /** The Escape branch of the document's keydown handler. */
    method OnEscape()
      modifies this
      ensures State() == Step(old(State()), EscapeKey)
      ensures InSync(old(State())) ==> State() == Closed
    {
      if navActive {
        mobileActive := false;
        navActive := false;
      }
    }
  }
}
