/** The drawing pen of static/index.js: `handleCanvasEvent` and the global
    state it updates (`isDrawing`, `prevX`, `prevY`, `currX`, `currY`). The
    canvas calls `drawDotToCanvas` and `drawLineToCanvas` become commands
    appended to a log, and `console.error` a message appended to another. */
module CanvasPen {
  import opened Wrappers

  /** The event types `handleCanvasEvent` tells apart. */
  datatype EventKind = Down | Move | Up | Out | Unknown

  /** The branch of `handleCanvasEvent` an event type string selects. */
  function KindOf(eventType: string): (k: EventKind)
    ensures k == Down <==> eventType == "down"
    ensures k == Up <==> eventType == "up"
    ensures k == Out <==> eventType == "out"
    ensures k == Move <==> eventType == "move"
  {
    if eventType == "down" then Down
    else if eventType == "up" then Up
    else if eventType == "out" then Out
    else if eventType == "move" then Move
    else Unknown
  }

  /** `drawDotToCanvas` at (x, y), or `drawLineToCanvas` from (x0, y0) to (x1, y1). */
  datatype Command = Dot(x: int, y: int) | Line(x0: int, y0: int, x1: int, y1: int)

  /** The five global variables of the pen. */
  datatype PenState = PenState(isDrawing: bool, prevX: int, prevY: int, currX: int, currY: int)

  /** Their initial values. */
  const Initial := PenState(false, 0, 0, 0, 0)

  /** `canvas.offsetLeft`, `canvas.offsetTop` and `window.scrollY` when the event fires. */
  datatype Viewport = Viewport(offsetLeft: int, offsetTop: int, scrollY: int)

  /** One call `handleCanvasEvent(eventType, clientX, clientY)`. */
  datatype CanvasEvent = CanvasEvent(eventType: string, clientX: int, clientY: int, view: Viewport)

  /** The pen state after some events, and what they drew and logged. */
  datatype Outcome = Outcome(state: PenState, drawn: seq<Command>, logged: seq<string>)

  /** The message `console.error` receives for an unknown event type. */
  function UnknownEventMessage(eventType: string): string
  {
    "Unknown event type " + eventType
  }

  /** One call of `handleCanvasEvent` on state `s`. */
  function Step(s: PenState, e: CanvasEvent): (o: Outcome)
    ensures o.drawn != [] ==> o.drawn[|o.drawn| - 1] == Dot(o.state.currX, o.state.currY)
    ensures (exists k :: 0 <= k < |o.drawn| && o.drawn[k].Line?) ==>
      s.isDrawing && KindOf(e.eventType) == Move
    ensures o.state.isDrawing <==>
      KindOf(e.eventType) == Down || (s.isDrawing && KindOf(e.eventType) in {Move, Unknown})
    ensures o.logged != [] <==> KindOf(e.eventType) == Unknown
  {
    // The canvas point: client coordinates less the canvas offset, plus the vertical scroll.
    var x, y := e.clientX - e.view.offsetLeft, e.clientY - e.view.offsetTop + e.view.scrollY;
    match KindOf(e.eventType)
    case Down =>
      Outcome(PenState(true, s.currX, s.currY, x, y), [Dot(x, y)], [])
    case Up =>
      Outcome(s.(isDrawing := false), [], [])
    case Out =>
      Outcome(s.(isDrawing := false), [], [])
    case Move =>
      if s.isDrawing then
        Outcome(PenState(true, s.currX, s.currY, x, y), [Line(s.currX, s.currY, x, y), Dot(x, y)], [])
      else
        Outcome(s, [], [])
    case Unknown =>
      Outcome(s, [], [UnknownEventMessage(e.eventType)])
  }

  /** The events one after another, from state `s`. */
  function Run(s: PenState, events: seq<CanvasEvent>): Outcome
  {
    if events == [] then Outcome(s, [], [])
    else
      var before := Run(s, events[..|events| - 1]);
      var last := Step(before.state, events[|events| - 1]);
      Outcome(last.state, before.drawn + last.drawn, before.logged + last.logged)
  }

  /** The most recent event among "down", "up" and "out", if any. */
  function LastPenEvent(events: seq<CanvasEvent>): Option<EventKind>
  {
    if events == [] then None
    else
      var k := KindOf(events[|events| - 1].eventType);
      if k in {Down, Up, Out} then Some(k) else LastPenEvent(events[..|events| - 1])
  }

  /** Running one more event extends the logs by what that event adds. */
  lemma RunSnoc(s: PenState, events: seq<CanvasEvent>, e: CanvasEvent)
    ensures var before := Run(s, events); var last := Step(before.state, e);
      Run(s, events + [e]) == Outcome(last.state, before.drawn + last.drawn, before.logged + last.logged)
  {
    assert (events + [e])[..|events|] == events;
  }

  lemma AppendAssoc<T>(a: seq<T>, b: seq<T>, c: seq<T>)
    ensures (a + b) + c == a + (b + c)
  {
  }

  /** Running `a` then `b` is running `a + b`. */
  lemma {:induction false} RunAppend(s: PenState, a: seq<CanvasEvent>, b: seq<CanvasEvent>)
    ensures var ra := Run(s, a); var rb := Run(ra.state, b);
      Run(s, a + b) == Outcome(rb.state, ra.drawn + rb.drawn, ra.logged + rb.logged)
    decreases |b|
  {
    var ra := Run(s, a);
    if b == [] {
      assert a + b == a;
    } else {
      var b', e := b[..|b| - 1], b[|b| - 1];
      assert a + b == (a + b') + [e] && b == b' + [e];
      RunAppend(s, a, b');
      RunSnoc(s, a + b', e);
      RunSnoc(ra.state, b', e);
      var rb' := Run(ra.state, b');
      var last := Step(rb'.state, e);
      AppendAssoc(ra.drawn, rb'.drawn, last.drawn);
      AppendAssoc(ra.logged, rb'.logged, last.logged);
    }
  }

  /** The drawing flag is set exactly when the most recent pen event was
      "down"; "move" and unknown events leave it as it was. */
  lemma {:induction false} DrawingFlag(s: PenState, events: seq<CanvasEvent>)
    ensures Run(s, events).state.isDrawing ==
      match LastPenEvent(events)
      case None => s.isDrawing
      case Some(k) => k == Down
  {
    if events != [] {
      DrawingFlag(s, events[..|events| - 1]);
    }
  }

  /** From the initial state, the event that draws a line is a "move" whose
      most recent pen event was "down". */
  lemma LineOnlyInStroke(events: seq<CanvasEvent>, e: CanvasEvent, k: nat)
    requires k < |Step(Run(Initial, events).state, e).drawn|
    requires Step(Run(Initial, events).state, e).drawn[k].Line?
    ensures KindOf(e.eventType) == Move && LastPenEvent(events) == Some(Down)
  {
    DrawingFlag(Initial, events);
  }

  /** With the pen up, events without a "down" draw nothing and keep it up. */
  lemma {:induction false} PenUpDrawsNothing(s: PenState, events: seq<CanvasEvent>)
    requires !s.isDrawing
    requires forall j :: 0 <= j < |events| ==> KindOf(events[j].eventType) != Down
    ensures Run(s, events).drawn == []
    ensures !Run(s, events).state.isDrawing
  {
    if events != [] {
      PenUpDrawsNothing(s, events[..|events| - 1]);
    }
  }

  /** After "up" or "out", nothing is drawn until the next "down". */
  lemma NothingDrawnAfterPenUp(s: PenState, before: seq<CanvasEvent>, up: CanvasEvent, after: seq<CanvasEvent>)
    requires KindOf(up.eventType) in {Up, Out}
    requires forall j :: 0 <= j < |after| ==> KindOf(after[j].eventType) != Down
    ensures Run(s, before + [up] + after).drawn == Run(s, before).drawn
  {
    RunAppend(s, before, [up]);
    RunAppend(s, before + [up], after);
    var mid := Run(s, before + [up]);
    assert Run(s, [up] + []) == Run(s, [up]);
    PenUpDrawsNothing(mid.state, after);
  }

  /** The log draws connected strokes: every line starts at the dot drawn
      just before it and ends at the dot drawn just after it. */
  ghost predicate Connected(log: seq<Command>)
  {
    forall k :: 0 <= k < |log| && log[k].Line? ==>
      0 < k < |log| - 1 && log[k - 1] == Dot(log[k].x0, log[k].y0) && log[k + 1] == Dot(log[k].x1, log[k].y1)
  }

  /** The log is connected, its last command is a dot at the current point,
      and a stroke in progress has drawn something. */
  ghost predicate PenInvariant(s: PenState, log: seq<Command>)
  {
    && (log != [] ==> log[|log| - 1] == Dot(s.currX, s.currY))
    && (s.isDrawing ==> log != [])
    && Connected(log)
  }

  lemma StepKeepsInvariant(s: PenState, log: seq<Command>, e: CanvasEvent)
    requires PenInvariant(s, log)
    ensures PenInvariant(Step(s, e).state, log + Step(s, e).drawn)
  {
    var o := Step(s, e);
    var log' := log + o.drawn;
    forall k | 0 <= k < |log'| && log'[k].Line?
      ensures 0 < k < |log'| - 1
      ensures log'[k - 1] == Dot(log'[k].x0, log'[k].y0) && log'[k + 1] == Dot(log'[k].x1, log'[k].y1)
    {
      if k < |log| {
        assert log'[k] == log[k] && log'[k - 1] == log[k - 1] && log'[k + 1] == log[k + 1];
      } else {
        assert k == |log|;
      }
    }
  }

  /** Every run keeps the invariant; in particular every run from the
      initial state draws connected strokes. */
  lemma {:induction false} RunKeepsInvariant(s: PenState, log: seq<Command>, events: seq<CanvasEvent>)
    requires PenInvariant(s, log)
    ensures PenInvariant(Run(s, events).state, log + Run(s, events).drawn)
  {
    if events != [] {
      var before := Run(s, events[..|events| - 1]);
      RunKeepsInvariant(s, log, events[..|events| - 1]);
      StepKeepsInvariant(before.state, log + before.drawn, events[|events| - 1]);
      assert log + before.drawn + Step(before.state, events[|events| - 1]).drawn == log + Run(s, events).drawn;
    }
  }

  /** The pen, updated in place as the page's event listeners fire. */
  class Pen {
    var isDrawing: bool
    var prevX: int
    var prevY: int
    var currX: int
    var currY: int
    /** What has been drawn to the canvas, oldest first. */
    var drawn: seq<Command>
    /** What has been written to `console.error`, oldest first. */
    var consoleErrors: seq<string>

    function State(): PenState
      reads this
    {
      PenState(isDrawing, prevX, prevY, currX, currY)
    }

    ghost predicate Valid()
      reads this
    {
      PenInvariant(State(), drawn)
    }

    /** The page as loaded: the globals at their initial values, nothing drawn. */
    constructor ()
      ensures Valid()
      ensures State() == Initial && drawn == [] && consoleErrors == []
    {
      isDrawing := false;
      prevX, prevY, currX, currY := 0, 0, 0, 0;
      drawn := [];
      consoleErrors := [];
    }

    /** `handleCanvasEvent(eventType, clientX, clientY)` with the canvas
        offset and scroll of `view`. */
    method HandleCanvasEvent(eventType: string, clientX: int, clientY: int, view: Viewport)
      requires Valid()
      modifies this
      ensures Valid()
      ensures var o := Step(old(State()), CanvasEvent(eventType, clientX, clientY, view));
        State() == o.state && drawn == old(drawn) + o.drawn && consoleErrors == old(consoleErrors) + o.logged
      // "down": start a stroke at the event point, the old point becomes prev, one dot.
      ensures eventType == "down" ==>
        && isDrawing
        && prevX == old(currX) && prevY == old(currY)
        && currX == clientX - view.offsetLeft && currY == clientY - view.offsetTop + view.scrollY
        && drawn == old(drawn) + [Dot(currX, currY)]
        && consoleErrors == old(consoleErrors)
      // "up" and "out": end the stroke, coordinates kept, nothing drawn.
      ensures eventType == "up" || eventType == "out" ==>
        && !isDrawing
        && prevX == old(prevX) && prevY == old(prevY) && currX == old(currX) && currY == old(currY)
        && drawn == old(drawn) && consoleErrors == old(consoleErrors)
      // "move" with the pen up: nothing at all.
      ensures eventType == "move" && !old(isDrawing) ==>
        State() == old(State()) && drawn == old(drawn) && consoleErrors == old(consoleErrors)
      // "move" during a stroke: a line from the old point to the new one, then a dot.
      ensures eventType == "move" && old(isDrawing) ==>
        && isDrawing
        && prevX == old(currX) && prevY == old(currY)
        && currX == clientX - view.offsetLeft && currY == clientY - view.offsetTop + view.scrollY
        && drawn == old(drawn) + [Line(old(currX), old(currY), currX, currY), Dot(currX, currY)]
        && consoleErrors == old(consoleErrors)
      // Any other type: only logged.
      ensures KindOf(eventType) == Unknown ==>
        State() == old(State()) && drawn == old(drawn) &&
        consoleErrors == old(consoleErrors) + ["Unknown event type " + eventType]
    {
      ghost var e := CanvasEvent(eventType, clientX, clientY, view);
      StepKeepsInvariant(State(), drawn, e);
      if eventType == "down" {
        prevX := currX;
        prevY := currY;
        currX := clientX - view.offsetLeft;
        currY := clientY - view.offsetTop + view.scrollY;
        isDrawing := true;
        drawn := drawn + [Dot(currX, currY)];
      } else if eventType == "up" || eventType == "out" {
        isDrawing := false;
      } else if eventType == "move" {
        if isDrawing {
          prevX := currX;
          prevY := currY;
          currX := clientX - view.offsetLeft;
          currY := clientY - view.offsetTop + view.scrollY;
          drawn := drawn + [Line(prevX, prevY, currX, currY), Dot(currX, currY)];
        }
      } else {
        consoleErrors := consoleErrors + [UnknownEventMessage(eventType)];
      }
    }
  }
}
