/** `handleCanvasTouchEvent` of static/index.js: the adapter that feeds
    touch events to the pen, as written and as evidently intended. */
module TouchAdapter {
  import opened Wrappers
  import opened CanvasPen

  /** One entry of a `TouchList`. */
  datatype Touch = Touch(clientX: int, clientY: int)

  /** Reading `clientX` of `touches[0]` when `touches` is empty throws a TypeError. */
  datatype TouchError = TypeError

  /** As written: the point is `event.touches[0]`, which on "touchend" no
      longer lists the finger that was lifted. A failure leaves the pen as it was. */
  function TouchEventAsWritten(s: PenState, eventType: string, touches: seq<Touch>, view: Viewport)
    : (r: Result<Outcome, TouchError>)
    ensures r.Failure? <==> touches == []
  {
    if touches == [] then Failure(TypeError)
    else Success(Step(s, CanvasEvent(eventType, touches[0].clientX, touches[0].clientY, view)))
  }

  /** The pen after a touch event: unchanged when the adapter throws. */
  function PenAfter(s: PenState, r: Result<Outcome, TouchError>): PenState
  {
    match r
    case Success(o) => o.state
    case Failure(_) => s
  }

  /** Lifting the only finger does not end the stroke: the "up" never reaches
      the pen, and the next mouse move draws a line from the last touch point. */
  lemma TouchEndKeepsStroke(s: PenState, view: Viewport, mouseX: int, mouseY: int)
    requires s.isDrawing
    ensures TouchEventAsWritten(s, "up", [], view) == Failure(TypeError)
    ensures var after := PenAfter(s, TouchEventAsWritten(s, "up", [], view));
      after.isDrawing &&
      Step(after, CanvasEvent("move", mouseX, mouseY, view)).drawn[0] ==
        Line(s.currX, s.currY, mouseX - view.offsetLeft, mouseY - view.offsetTop + view.scrollY)
  {
  }

  /** Corrected: the point is `event.changedTouches[0]`; a touch event always
      lists at least one changed touch, the lifted finger on "touchend". */
  function TouchEventCorrected(s: PenState, eventType: string, changedTouches: seq<Touch>, view: Viewport)
    : (o: Outcome)
    requires changedTouches != []
    ensures KindOf(eventType) in {Up, Out} ==> !o.state.isDrawing && o.drawn == []
    ensures KindOf(eventType) == Down ==>
      && o.state.isDrawing
      && o.drawn == [Dot(changedTouches[0].clientX - view.offsetLeft,
                         changedTouches[0].clientY - view.offsetTop + view.scrollY)]
  {
    Step(s, CanvasEvent(eventType, changedTouches[0].clientX, changedTouches[0].clientY, view))
  }

  /** With the correction, lifting the finger ends the stroke, and moves
      after it draw nothing until the next press. */
  lemma {:induction false} TouchEndEndsStroke(s: PenState, lifted: Touch, view: Viewport, later: seq<CanvasEvent>)
    requires forall j :: 0 <= j < |later| ==> KindOf(later[j].eventType) != Down
    ensures var after := TouchEventCorrected(s, "up", [lifted], view).state;
      !after.isDrawing && Run(after, later).drawn == []
  {
    var after := TouchEventCorrected(s, "up", [lifted], view).state;
    PenUpDrawsNothing(after, later);
  }
}
