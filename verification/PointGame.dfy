/**
 The click-order state machine of the "Clear the point" game
 (src/component/pointgame.tsx). The component's independent state slots
 are gathered into one immutable record, and each event handler becomes a
 pure transition on the state that was last rendered. Point coordinates,
 the layout probe, the timer and rendering are not modelled; a point is
 represented by its id alone.
 */
module PointGame {
  import opened JsNumbers

  datatype Option<+T> = None | Some(value: T)

  datatype Status = Idle | Playing | Finished

  /** All the state slots of the component that the game logic reads or
      writes. `elapsed` is the timer's display value in seconds. */
  datatype State = State(
    status: Status,
    currentPoint: Option<int>,
    pointIds: seq<int>,
    headerTitle: string,
    headerClass: string,
    elapsed: real)

  const LetsPlay: string := "LET'S PLAY"
  const AllCleared: string := "ALL CLEARED"
  const GameOver: string := "GAME OVER"
  const TextBlack: string := "text-black"
  const TextGreen: string := "text-green-500"
  const TextRed: string := "text-red-500"

  /** The state of a freshly mounted component. */
  function Initial(): State {
    State(Idle, None, [], LetsPlay, TextBlack, 0.0)
  }

  /** The ascending run lo, lo + 1, ..., hi (empty when lo > hi). */
  function Range(lo: int, hi: int): (r: seq<int>)
    ensures |r| == if lo <= hi then hi - lo + 1 else 0
    ensures forall i :: 0 <= i < |r| ==> r[i] == lo + i
  {
    seq(if lo <= hi then hi - lo + 1 else 0, i => lo + i)
  }

  /** `xs.filter(id => id !== x)`: drops every occurrence of x and keeps the
      rest, in order. */
  function RemoveAll(xs: seq<int>, x: int): (r: seq<int>)
    ensures multiset(r) == multiset(xs)[x := 0]
    ensures forall y :: y in r <==> y in xs && y != x
  {
    if xs == [] then []
    else
      assert xs == [xs[0]] + xs[1..];
      (if xs[0] == x then [] else [xs[0]]) + RemoveAll(xs[1..], x)
  }

  /** A board that `startGame` has just set up with `len` points. */
  predicate FreshBoard(s: State, len: nat) {
    && s.status == Playing
    && s.currentPoint == Some(1)
    && s.pointIds == Range(1, len)
    && s.headerTitle == LetsPlay
    && s.headerClass == TextBlack
    && s.elapsed == 0.0
  }

  /** `startGame(numPoints)`. Creating the array of `ToLength(numPoints)`
      points throws a RangeError when that length exceeds 2^32 - 1; the
      exception is raised before any state setter runs, so None stands for
      "nothing changed". Otherwise the result does not depend on the state
      the game was in. */
  function Start(numPoints: Number): (r: Option<State>)
    ensures r.Some? <==> ArrayLengthOk(ToLength(numPoints))
    ensures r.Some? ==> FreshBoard(r.value, ToLength(numPoints))
  {
    var len := ToLength(numPoints);
    if !ArrayLengthOk(len) then None
    else Some(State(Playing, Some(1), seq(len, i => i + 1), LetsPlay, TextBlack, 0.0))
  }

  /** `handleFormSubmit`: the point count read from the input field is
      used only when it is truthy. */
  function Submit(s: State, numPoints: Number): (r: State)
    ensures !Truthy(numPoints) ==> r == s
    ensures Truthy(numPoints) && !ArrayLengthOk(ToLength(numPoints)) ==> r == s
    ensures Truthy(numPoints) && ArrayLengthOk(ToLength(numPoints)) ==>
              FreshBoard(r, ToLength(numPoints))
  {
    if Truthy(numPoints) then
      match Start(numPoints)
      case Some(t) => t
      case None => s
    else s
  }

  /** `restartGame`: the Restart button's handler, with the same guard as
      the form submission. */
  function Restart(s: State, numPoints: Number): (r: State)
    ensures !Truthy(numPoints) ==> r == s
    ensures Truthy(numPoints) && !ArrayLengthOk(ToLength(numPoints)) ==> r == s
    ensures Truthy(numPoints) && ArrayLengthOk(ToLength(numPoints)) ==>
              FreshBoard(r, ToLength(numPoints))
  {
    if Truthy(numPoints) then
      match Start(numPoints)
      case Some(t) => t
      case None => s
    else s
  }

  /** `pointId === currentPoint`; an undefined current point matches nothing. */
  predicate IsTarget(s: State, pointId: int) {
    s.currentPoint == Some(pointId)
  }

  /** `handlePointClick(pointId)`. There is no status guard: a click on a
      rendered point is processed whether the round is playing or finished. */
  function Click(s: State, pointId: int): (r: State)
    ensures r.elapsed == s.elapsed
    // a correct click removes the clicked id and nothing else
    ensures IsTarget(s, pointId) ==>
              multiset(r.pointIds) == multiset(s.pointIds)[pointId := 0]
    // ... and advances the target while points remain, without touching the round
    ensures IsTarget(s, pointId) && r.pointIds != [] ==>
              && r.currentPoint == Some(pointId + 1)
              && r.status == s.status
              && r.headerTitle == s.headerTitle
              && r.headerClass == s.headerClass
    // ... or reports the cleared board once none remain
    ensures IsTarget(s, pointId) && r.pointIds == [] ==>
              && r.currentPoint == s.currentPoint
              && r.status == Finished
              && r.headerTitle == AllCleared
              && r.headerClass == TextGreen
    // a wrong click ends the round and leaves the board as it was
    ensures !IsTarget(s, pointId) ==>
              && r.pointIds == s.pointIds
              && r.currentPoint == s.currentPoint
              && r.status == Finished
              && r.headerTitle == GameOver
              && r.headerClass == TextRed
  {
    if IsTarget(s, pointId) then
      var remaining := RemoveAll(s.pointIds, pointId);
      if |remaining| == 0 then
        s.(pointIds := remaining, headerTitle := AllCleared, headerClass := TextGreen,
           status := Finished)
      else
        s.(pointIds := remaining, currentPoint := Some(s.currentPoint.value + 1))
    else
      s.(headerTitle := GameOver, headerClass := TextRed, status := Finished)
  }
}
