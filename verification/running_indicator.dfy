/** The running-app indicator under a dock icon (`RunningIndicator`): its
    state, and what it displays for it: up to three dots, a "+k" label for
    the windows beyond three, and the CSS classes of its container. The
    widgets are modelled as the container's class set and its list of
    children. */
module RunningIndicator {
  import opened Text

  type U8 = x: nat | x < 256

  datatype RunningState = Stopped | Running(windowCount: U8) | Focused(windowCount: U8)

  /** A child of the container: a dot, or the overflow label with its classes. */
  datatype Child = Dot(focused: bool) | CountLabel(text: string, classes: set<string>)

  const MaxDots: nat := 3

  function Min(a: nat, b: nat): nat { if a < b then a else b }

  /** The dots: none when stopped, otherwise one per window up to three;
      when focused, the first dot is the focused one. */
  function Dots(state: RunningState): seq<Child> {
    match state
    case Stopped => []
    case Running(n) => seq(Min(n, MaxDots), i => Dot(false))
    case Focused(n) => seq(Min(n, MaxDots), i => Dot(i == 0))
  }

  /** The overflow label, "+k" for the k windows beyond three. */
  function Overflow(state: RunningState): seq<Child> {
    match state
    case Stopped => []
    case Running(n) => if n > MaxDots then [CountLabel("+" + NatToString(n - MaxDots), {"window-count-badge"})] else []
    case Focused(n) => if n > MaxDots then [CountLabel("+" + NatToString(n - MaxDots), {"window-count-badge", "focused"})] else []
  }

  /** What `update_display` leaves in the container. */
  function Display(state: RunningState): seq<Child> {
    Dots(state) + Overflow(state)
  }

  /** The container's classes after `update_display`: exactly one of
      "stopped" and "running", and "focused" only when focused; other
      classes are kept. */
  function ClassesFor(classes: set<string>, state: RunningState): set<string> {
    match state
    case Stopped => classes + {"stopped"} - {"running", "focused"}
    case Running(_) => classes - {"stopped"} + {"running"} - {"focused"}
    case Focused(_) => classes - {"stopped"} + {"running", "focused"}
  }

  /** Stopped shows nothing; otherwise min(windows, 3) dots, then a "+k"
      label exactly when there are more than three windows. */
  lemma DisplayShape(state: RunningState)
    ensures state.Stopped? ==> Display(state) == []
    ensures !state.Stopped? ==>
      var n := state.windowCount;
      |Display(state)| == Min(n, MaxDots) + (if n > MaxDots then 1 else 0)
      && (forall i :: 0 <= i < Min(n, MaxDots) ==> Display(state)[i].Dot?)
      && (n > MaxDots ==> Display(state)[MaxDots] == CountLabel("+" + NatToString(n - MaxDots),
                            if state.Focused? then {"window-count-badge", "focused"} else {"window-count-badge"}))
  {
  }

  /** Only the first dot of a focused app is marked, and no dot of an
      unfocused one. */
  lemma FocusedDot(state: RunningState, i: nat)
    requires i < |Dots(state)|
    ensures Dots(state)[i].Dot?
    ensures Dots(state)[i].focused <==> state.Focused? && i == 0
  {
  }

  /** The state classes are exactly those of the state; the others stay. */
  lemma StateClasses(classes: set<string>, state: RunningState, c: string)
    ensures "stopped" in ClassesFor(classes, state) <==> state.Stopped?
    ensures "running" in ClassesFor(classes, state) <==> !state.Stopped?
    ensures "focused" in ClassesFor(classes, state) <==> state.Focused?
    ensures c !in {"stopped", "running", "focused"} ==> (c in ClassesFor(classes, state) <==> c in classes)
  {
  }

  class RunningIndicator {
    var state: RunningState
    var classes: set<string>
    var children: seq<Child>

    /** `new`: stopped, with the base class only; the display is not
        updated until the state first changes. */
    constructor ()
      ensures state == Stopped && classes == {"running-indicator"} && children == []
    {
      state := Stopped;
      classes := {"running-indicator"};
      children := [];
    }

    /** `set_state`: nothing happens when the state is unchanged. */
    method SetState(newState: RunningState)
      modifies this
      ensures state == newState
      ensures old(state) == newState ==> classes == old(classes) && children == old(children)
      ensures old(state) != newState ==> classes == ClassesFor(old(classes), newState) && children == Display(newState)
    {
      if state == newState {
        return;
      }
      state := newState;
      UpdateDisplay();
    }

    /** `update_display`: remove every child, set the classes, append the
        dots and the overflow label. */
    method UpdateDisplay()
      modifies this
      ensures state == old(state)
      ensures classes == ClassesFor(old(classes), state) && children == Display(state)
    {
      while children != []
        invariant state == old(state) && classes == old(classes)
        decreases |children|
      {
        children := children[1..];
      }
      match state
      case Stopped =>
        classes := classes + {"stopped"} - {"running"} - {"focused"};
      case Running(n) =>
        classes := classes - {"stopped"} + {"running"} - {"focused"};
        var visible := Min(n, MaxDots);
        for i := 0 to visible
          invariant state == old(state) && classes == ClassesFor(old(classes), state)
          invariant children == seq(i, k => Dot(false))
        {
          children := children + [Dot(false)];
        }
        if n > MaxDots {
          children := children + [CountLabel("+" + NatToString(n - MaxDots), {"window-count-badge"})];
        }
      case Focused(n) =>
        classes := classes - {"stopped"} + {"running"} + {"focused"};
        var visible := Min(n, MaxDots);
        for i := 0 to visible
          invariant state == old(state) && classes == ClassesFor(old(classes), state)
          invariant children == seq(i, k => Dot(k == 0))
        {
          children := children + [Dot(i == 0)];
        }
        if n > MaxDots {
          children := children + [CountLabel("+" + NatToString(n - MaxDots), {"window-count-badge", "focused"})];
        }
    }
  }
}
