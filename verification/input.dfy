/**
  The viewer's keyboard and scroll-wheel state (`InputManager`).

  Raw window events are folded into three sets of logical inputs (held,
  pressed this frame, released this frame), an accumulated zoom delta and a
  sticky request to quit; the render loop reads them once per frame and then
  clears the per-frame parts.
 */
module Inputs {

  datatype Option<T> = None | Some(value: T)

  /** The logical inputs the viewer reacts to. */
  datatype InputKind =
    | ArrowUp | ArrowDown | ArrowLeft | ArrowRight
    | DirForward | DirRight | DirLeft | DirBack | DirDown | DirUp
    | CamSwitch

  /**
    The window system's virtual key codes: the thirteen the viewer looks at,
    and every other key as `OtherKey`.
   */
  datatype KeyCode =
    | Up | Down | Left | Right
    | W | D | S | A
    | LShift | RShift | Space | C | Escape
    | OtherKey(id: nat)

  datatype ElementState = Pressed | Released

  /** A keyboard event; the virtual key code may be absent. */
  datatype KeyboardInput = KeyboardInput(state: ElementState, virtualKeycode: Option<KeyCode>)

  /** A scroll event, in lines or in pixels. */
  datatype ScrollDelta = LineDelta(columns: real, lines: real) | PixelDelta(x: real, y: real)

  datatype InputManager = InputManager(
    pressed: set<InputKind>,
    justPressed: set<InputKind>,
    justReleased: set<InputKind>,
    zoom: real,
    escapeRequested: bool)

  /** `InputManager::new()`: everything empty, zero zoom, no quit request. */
  const Fresh: InputManager := InputManager({}, {}, {}, 0.0, false)

  // ----- Queries -----

  predicate IsPressed(m: InputManager, key: InputKind)
  {
    key in m.pressed
  }

  predicate IsJustPressed(m: InputManager, key: InputKind)
  {
    key in m.justPressed
  }

  predicate IsJustReleased(m: InputManager, key: InputKind)
  {
    key in m.justReleased
  }

  // ----- Key mapping -----

  /** The logical input a key drives; Escape and unlisted keys drive none. */
  function KindOf(code: KeyCode): Option<InputKind>
  {
    match code
    case Up => Some(ArrowUp)
    case Down => Some(ArrowDown)
    case Left => Some(ArrowLeft)
    case Right => Some(ArrowRight)
    case W => Some(DirForward)
    case D => Some(DirRight)
    case S => Some(DirBack)
    case A => Some(DirLeft)
    case LShift => Some(DirDown)
    case RShift => Some(DirDown)
    case Space => Some(DirUp)
    case C => Some(CamSwitch)
    case Escape => None
    case OtherKey(_) => None
  }

  /** A key that drives each logical input (the left shift for `DirDown`). */
  function KeyFor(kind: InputKind): (code: KeyCode)
    ensures KindOf(code) == Some(kind)
  {
    match kind
    case ArrowUp => Up
    case ArrowDown => Down
    case ArrowLeft => Left
    case ArrowRight => Right
    case DirForward => W
    case DirRight => D
    case DirLeft => A
    case DirBack => S
    case DirDown => LShift
    case DirUp => Space
    case CamSwitch => C
  }

  /**
    Both shift keys drive `DirDown`; apart from that pair, two different
    keys never drive the same input, so `KeyFor` is the only key for every
    other input.
   */
  lemma KindOfInjective(a: KeyCode, b: KeyCode)
    requires a != b && KindOf(a).Some? && KindOf(a) == KindOf(b)
    ensures KindOf(a) == Some(DirDown)
    ensures {a, b} == {LShift, RShift}
  {
  }

  /** Every key that drives an input other than `DirDown` is that input's `KeyFor`. */
  lemma KeyForIsOnlyKey(code: KeyCode, kind: InputKind)
    requires KindOf(code) == Some(kind) && kind != DirDown
    ensures code == KeyFor(kind)
  {
    if code != KeyFor(kind) {
      KindOfInjective(code, KeyFor(kind));
    }
  }

  // ----- Events -----

  /**
    `key_event`: a missing key code and an unlisted key change nothing;
    Escape only raises the quit request; a press adds the input to the held
    and just-pressed sets; a release removes it from the held set (if there)
    and adds it to the just-released set.
   */
  function KeyEvent(m: InputManager, e: KeyboardInput): (r: InputManager)
    ensures r.zoom == m.zoom
    ensures r.escapeRequested == (m.escapeRequested || e.virtualKeycode == Some(Escape))
    ensures forall key: InputKind ::
              (IsPressed(r, key) == if Touches(e, key) then e.state == Pressed else IsPressed(m, key))
    ensures forall key: InputKind ::
              (IsJustPressed(r, key) == (IsJustPressed(m, key) || (Touches(e, key) && e.state == Pressed)))
    ensures forall key: InputKind ::
              (IsJustReleased(r, key) == (IsJustReleased(m, key) || (Touches(e, key) && e.state == Released)))
  {
    match e.virtualKeycode
    case None => m
    case Some(code) =>
      if code == Escape then m.(escapeRequested := true)
      else
        match KindOf(code)
        case None => m
        case Some(kind) =>
          match e.state
          case Pressed => m.(pressed := m.pressed + {kind}, justPressed := m.justPressed + {kind})
          case Released => m.(pressed := m.pressed - {kind}, justReleased := m.justReleased + {kind})
  }

  /** Event `e` carries a key that drives input `key`. */
  predicate Touches(e: KeyboardInput, key: InputKind)
  {
    e.virtualKeycode.Some? && KindOf(e.virtualKeycode.value) == Some(key)
  }

  /** Keys the viewer does not listen to leave the whole state as it was. */
  lemma IgnoredKeyChangesNothing(m: InputManager, e: KeyboardInput)
    requires e.virtualKeycode.None? || (e.virtualKeycode.value != Escape && KindOf(e.virtualKeycode.value).None?)
    ensures KeyEvent(m, e) == m
  {
  }

  /** Escape raises the quit request and touches none of the three sets. */
  lemma EscapeOnlyRequestsQuit(m: InputManager, e: KeyboardInput)
    requires e.virtualKeycode == Some(Escape)
    ensures KeyEvent(m, e) == m.(escapeRequested := true)
  {
    var r := KeyEvent(m, e);
    assert r.pressed == m.pressed;
    assert r.justPressed == m.justPressed;
    assert r.justReleased == m.justReleased;
  }

  /**
    Within one frame, repeating the same key event has no further effect.
    After a frame end the per-frame sets are empty again, so a repeated
    press counts as a new press there.
   */
  lemma KeyEventIdempotent(m: InputManager, e: KeyboardInput)
    ensures KeyEvent(KeyEvent(m, e), e) == KeyEvent(m, e)
  {
    var once := KeyEvent(m, e);
    var twice := KeyEvent(once, e);
    assert twice.pressed == once.pressed;
    assert twice.justPressed == once.justPressed;
    assert twice.justReleased == once.justReleased;
  }

  /**
    `zoom_event`: scrolling subtracts a fifth of the line count, or a third
    of the vertical pixel offset, from the accumulated zoom; nothing else
    changes.
   */
  function ZoomEvent(m: InputManager, delta: ScrollDelta): (r: InputManager)
    ensures r == m.(zoom := r.zoom)
    ensures delta.LineDelta? ==> r.zoom + delta.lines / 5.0 == m.zoom
    ensures delta.PixelDelta? ==> r.zoom + delta.y / 3.0 == m.zoom
  {
    m.(zoom := m.zoom - ZoomStep(delta))
  }

  /** The amount one scroll event takes off the zoom. */
  function ZoomStep(delta: ScrollDelta): real
  {
    match delta
    case LineDelta(_, lines) => lines / 5.0
    case PixelDelta(_, y) => y / 3.0
  }

  /**
    `reset_frame`: the zoom delta and the two per-frame sets are cleared;
    held keys and the quit request survive.
   */
  function ResetFrame(m: InputManager): (r: InputManager)
    ensures r.zoom == 0.0
    ensures forall key: InputKind :: !IsJustPressed(r, key) && !IsJustReleased(r, key)
    ensures forall key: InputKind :: IsPressed(r, key) == IsPressed(m, key)
    ensures r.escapeRequested == m.escapeRequested
  {
    m.(zoom := 0.0, justPressed := {}, justReleased := {})
  }

  lemma ResetFrameIdempotent(m: InputManager)
    ensures ResetFrame(ResetFrame(m)) == ResetFrame(m)
  {
  }

  // ----- Event traces -----

  /** Everything the window loop feeds the input state, in arrival order. */
  datatype Event = Key(input: KeyboardInput) | Scroll(delta: ScrollDelta) | EndFrame

  function Step(m: InputManager, e: Event): InputManager
  {
    match e
    case Key(input) => KeyEvent(m, input)
    case Scroll(delta) => ZoomEvent(m, delta)
    case EndFrame => ResetFrame(m)
  }

  /** The state after applying `events` one after the other to `m`. */
  function Run(m: InputManager, events: seq<Event>): InputManager
  {
    if |events| == 0 then m else Step(Run(m, events[..|events| - 1]), events[|events| - 1])
  }

  predicate IsEscape(e: Event)
  {
    e.Key? && e.input.virtualKeycode == Some(Escape)
  }

  /**
    The quit request is raised exactly when some event was an Escape key
    event (or it was already raised), and nothing ever lowers it.
   */
  lemma {:induction false} EscapeSticky(m: InputManager, events: seq<Event>)
    ensures Run(m, events).escapeRequested
            == (m.escapeRequested || exists i | 0 <= i < |events| :: IsEscape(events[i]))
  {
    if |events| > 0 {
      var prefix := events[..|events| - 1];
      EscapeSticky(m, prefix);
      if exists i | 0 <= i < |prefix| :: IsEscape(prefix[i]) {
        var i :| 0 <= i < |prefix| && IsEscape(prefix[i]);
        assert IsEscape(events[i]);
      }
      if exists i | 0 <= i < |events| :: IsEscape(events[i]) {
        var i :| 0 <= i < |events| && IsEscape(events[i]);
        if i < |prefix| {
          assert IsEscape(prefix[i]);
        }
      }
    }
  }

  /** The state of the last key event in `events` that drives `key`, if any. */
  function LastState(events: seq<Event>, key: InputKind): Option<ElementState>
  {
    if |events| == 0 then None
    else
      var e := events[|events| - 1];
      if e.Key? && Touches(e.input, key) then Some(e.input.state)
      else LastState(events[..|events| - 1], key)
  }

  /**
    An input is held after a run of events exactly when the last event for
    it was a press, or, if there was none, when it was held before; frame
    ends and scrolling never change what is held.
   */
  lemma {:induction false} PressedFollowsLastEvent(m: InputManager, events: seq<Event>, key: InputKind)
    ensures IsPressed(Run(m, events), key)
            == match LastState(events, key)
               case None => IsPressed(m, key)
               case Some(state) => state == Pressed
  {
    if |events| > 0 {
      PressedFollowsLastEvent(m, events[..|events| - 1], key);
    }
  }

  predicate IsEndFrame(e: Event)
  {
    e.EndFrame?
  }

  predicate PressesKey(e: Event, key: InputKind)
  {
    e.Key? && Touches(e.input, key) && e.input.state == Pressed
  }

  /**
    Within one frame (no frame end among the events) an input is
    just-pressed exactly when it already was or some event pressed it.
   */
  lemma {:induction false} JustPressedWithinFrame(m: InputManager, events: seq<Event>, key: InputKind)
    requires forall i | 0 <= i < |events| :: !IsEndFrame(events[i])
    ensures IsJustPressed(Run(m, events), key)
            == (IsJustPressed(m, key) || exists i | 0 <= i < |events| :: PressesKey(events[i], key))
  {
    if |events| > 0 {
      var prefix := events[..|events| - 1];
      assert forall i | 0 <= i < |prefix| :: prefix[i] == events[i];
      JustPressedWithinFrame(m, prefix, key);
      if exists i | 0 <= i < |prefix| :: PressesKey(prefix[i], key) {
        var i :| 0 <= i < |prefix| && PressesKey(prefix[i], key);
        assert PressesKey(events[i], key);
      }
      if exists i | 0 <= i < |events| :: PressesKey(events[i], key) {
        var i :| 0 <= i < |events| && PressesKey(events[i], key);
        if i < |prefix| {
          assert PressesKey(prefix[i], key);
        }
      }
    }
  }

  /** What the scroll events of a run take off the zoom in total. */
  function ZoomTotal(events: seq<Event>): real
  {
    if |events| == 0 then 0.0
    else
      var e := events[|events| - 1];
      ZoomTotal(events[..|events| - 1]) + (if e.Scroll? then ZoomStep(e.delta) else 0.0)
  }

  /**
    Within one frame the scroll events accumulate: the zoom delta is the
    starting value minus the sum of the individual steps, and key events do
    not disturb it.
   */
  lemma {:induction false} ZoomAccumulates(m: InputManager, events: seq<Event>)
    requires forall i | 0 <= i < |events| :: !IsEndFrame(events[i])
    ensures Run(m, events).zoom == m.zoom - ZoomTotal(events)
  {
    if |events| > 0 {
      var prefix := events[..|events| - 1];
      assert forall i | 0 <= i < |prefix| :: prefix[i] == events[i];
      ZoomAccumulates(m, prefix);
    }
  }

  /**
    A freshly created manager (`InputManager::new`) after any run of events:
    the quit request is raised exactly when some event was Escape, and an
    input is held exactly when its last key event was a press.
   */
  lemma FreshRun(events: seq<Event>, key: InputKind)
    ensures Run(Fresh, events).escapeRequested == exists i | 0 <= i < |events| :: IsEscape(events[i])
    ensures IsPressed(Run(Fresh, events), key) == (LastState(events, key) == Some(Pressed))
  {
    EscapeSticky(Fresh, events);
    PressedFollowsLastEvent(Fresh, events, key);
  }
}
