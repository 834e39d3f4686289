/**
 * The input handling of the main loop: the events drained in one frame update
 * the selected effect, the fullscreen and overlay flags, the running flag and
 * the window size, and some of them rebuild the rain's columns. Creating the
 * window, drawing the overlay and pacing the frames are not modelled.
 */
module MainLoop {

  /** The number of effects, selected by index 0 to 5. */
  const EffectCount: nat := 6

  /** The window size used when leaving fullscreen (and at start-up). */
  const WindowedWidth: nat := 1200
  const WindowedHeight: nat := 800

  /** The effects in the order they are registered. */
  datatype Effect = MatrixRain | PlasmaWave | TunnelZoom | FireEffect | DnaHelix | StarfieldEffect

  /** The keys the loop tells apart; `Digit(n)` is the key for the number n. */
  datatype Key = Escape | Digit(n: nat) | KeyF | KeyH | OtherKey

  /** A window-system event; the size of a resize event is the window's new size. */
  datatype Event = Quit | KeyDown(key: Key) | VideoResize(w: nat, h: nat) | OtherEvent

  /** The native size of the display, which a fullscreen window takes. */
  datatype Size = Size(w: nat, h: nat)

  /** The loop's state. */
  datatype State = State(current: int, fullscreen: bool, showUi: bool, running: bool, width: nat, height: nat)

  /** The state before the first frame. */
  const Initial := State(0, false, true, true, WindowedWidth, WindowedHeight)

  predicate ValidIndex(i: int) {
    0 <= i < EffectCount
  }

  /** The effect registered at index `i`. */
  function EffectAt(i: int): (e: Effect)
    requires ValidIndex(i)
    ensures i == 0 <==> e == MatrixRain
    ensures i == 1 <==> e == PlasmaWave
    ensures i == 2 <==> e == TunnelZoom
    ensures i == 3 <==> e == FireEffect
    ensures i == 4 <==> e == DnaHelix
    ensures i == 5 <==> e == StarfieldEffect
  {
    [MatrixRain, PlasmaWave, TunnelZoom, FireEffect, DnaHelix, StarfieldEffect][i]
  }

  /** The events that stop the loop at the end of the frame. */
  predicate Stops(e: Event) {
    e == Quit || e == KeyDown(Escape)
  }

  /** The events after which the rain's columns are rebuilt for the window width. */
  predicate ResetsRain(e: Event) {
    e == KeyDown(Digit(1)) || e == KeyDown(KeyF) || e.VideoResize?
  }

  /** The events the loop does not react to at all. */
  predicate Ignored(e: Event) {
    e == OtherEvent || e == KeyDown(OtherKey) || (e.KeyDown? && e.key.Digit? && !(1 <= e.key.n <= EffectCount))
  }

  /** The state after one event, and whether the rain's columns are rebuilt after it. */
  datatype Transition = Transition(state: State, resetsRain: bool)

  /**
   * Handles one event. Number keys 1 to 6 select effects 0 to 5; F toggles
   * fullscreen, taking the display's native size or going back to 1200 x 800;
   * H toggles the overlay; quit and Escape clear the running flag; a resize
   * takes the new size. Key 1, F and resize rebuild the rain.
   */
  function Step(s: State, e: Event, display: Size): (t: Transition)
    ensures t.resetsRain <==> ResetsRain(e)
    ensures ValidIndex(s.current) ==> ValidIndex(t.state.current)
    ensures e.KeyDown? && e.key.Digit? && 1 <= e.key.n <= EffectCount ==>
              t.state == s.(current := e.key.n - 1)
    ensures e == KeyDown(KeyF) ==>
              t.state.fullscreen == !s.fullscreen
              && (t.state.width, t.state.height)
                 == (if t.state.fullscreen then (display.w, display.h) else (WindowedWidth, WindowedHeight))
              && t.state.(fullscreen := s.fullscreen, width := s.width, height := s.height) == s
    ensures e == KeyDown(KeyH) ==> t.state == s.(showUi := !s.showUi)
    ensures !t.state.running <==> !s.running || Stops(e)
    ensures Stops(e) ==> t.state == s.(running := false)
    ensures e.VideoResize? ==> t.state == s.(width := e.w, height := e.h)
    ensures Ignored(e) ==> t == Transition(s, false)
  {
    match e
    case Quit => Transition(s.(running := false), false)
    case KeyDown(key) =>
      (match key
       case Escape => Transition(s.(running := false), false)
       case Digit(n) =>
         if 1 <= n <= EffectCount then Transition(s.(current := n - 1), n == 1)
         else Transition(s, false)
       case KeyF =>
         var full := !s.fullscreen;
         var size := if full then display else Size(WindowedWidth, WindowedHeight);
         Transition(s.(fullscreen := full, width := size.w, height := size.h), true)
       case KeyH => Transition(s.(showUi := !s.showUi), false)
       case OtherKey => Transition(s, false))
    case VideoResize(w, h) => Transition(s.(width := w, height := h), true)
    case OtherEvent => Transition(s, false)
  }

  /**
   * The outcome of draining a batch of events: the final state and, in order,
   * the window width at each rebuild of the rain.
   */
  datatype Outcome = Outcome(state: State, resets: seq<nat>)

  /** The number of events in `evs` that rebuild the rain. */
  function CountResets(evs: seq<Event>): nat
  {
    if evs == [] then 0
    else CountResets(evs[..|evs| - 1]) + (if ResetsRain(evs[|evs| - 1]) then 1 else 0)
  }

  /** Drains the events in order; every event of the batch is handled, even after a quit. */
  function Drain(s: State, evs: seq<Event>, display: Size): (o: Outcome)
    ensures ValidIndex(s.current) ==> ValidIndex(o.state.current)
    ensures |o.resets| == CountResets(evs)
  {
    if evs == [] then Outcome(s, [])
    else
      var prev := Drain(s, evs[..|evs| - 1], display);
      var t := Step(prev.state, evs[|evs| - 1], display);
      Outcome(t.state, if t.resetsRain then prev.resets + [t.state.width] else prev.resets)
  }

  /** The event loop as the main loop runs it over one frame's batch of events. */
  method HandleEvents(s: State, evs: seq<Event>, display: Size) returns (state: State, resets: seq<nat>)
    ensures Outcome(state, resets) == Drain(s, evs, display)
  {
    state, resets := s, [];
    var i := 0;
    while i < |evs|
      invariant 0 <= i <= |evs|
      invariant Outcome(state, resets) == Drain(s, evs[..i], display)
    {
      assert evs[..i + 1][..i] == evs[..i];
      var t := Step(state, evs[i], display);
      state := t.state;
      if t.resetsRain {
        resets := resets + [state.width];
      }
      i := i + 1;
    }
    assert evs[..|evs|] == evs;
  }

  /** The loop stops after this frame exactly when a quit or Escape was in the batch. */
  lemma {:induction false} DrainStops(s: State, evs: seq<Event>, display: Size)
    ensures !Drain(s, evs, display).state.running <==> !s.running || exists k :: 0 <= k < |evs| && Stops(evs[k])
  {
    if evs != [] {
      var init := evs[..|evs| - 1];
      DrainStops(s, init, display);
      assert forall k :: 0 <= k < |init| ==> init[k] == evs[k];
    }
  }

  /**
   * The window size changes only through events that also rebuild the rain,
   * so after a batch the last rebuild used the final width; a batch without
   * rebuilds leaves the size as it was.
   */
  lemma {:induction false} RainMatchesFinalWidth(s: State, evs: seq<Event>, display: Size)
    ensures Drain(s, evs, display).resets == [] ==>
              Drain(s, evs, display).state.width == s.width && Drain(s, evs, display).state.height == s.height
    ensures Drain(s, evs, display).resets != [] ==>
              Drain(s, evs, display).resets[|Drain(s, evs, display).resets| - 1] == Drain(s, evs, display).state.width
  {
    if evs != [] {
      RainMatchesFinalWidth(s, evs[..|evs| - 1], display);
    }
  }

  /** Pressing number key n makes the n-th registered effect the one updated and drawn. */
  lemma DigitSelects(s: State, n: nat, display: Size)
    requires ValidIndex(s.current) && 1 <= n <= EffectCount
    ensures EffectAt(Step(s, KeyDown(Digit(n)), display).state.current) == EffectAt(n - 1)
    ensures n == 3 ==> EffectAt(Step(s, KeyDown(Digit(n)), display).state.current) == TunnelZoom
  {
  }

  /** The state at start-up selects the rain and shows the overlay in a 1200 x 800 window. */
  lemma InitialState()
    ensures ValidIndex(Initial.current) && EffectAt(Initial.current) == MatrixRain
    ensures Initial.showUi && Initial.running && !Initial.fullscreen
  {
  }
}
