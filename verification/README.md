# Clear the point: a Dafny model of the click-order game

"Clear the point" is a one-component React game. The player enters a
number of points. The panel then shows that many numbered circles, and
the player must click them in ascending order. A click on the wrong
number ends the round with "GAME OVER". Clearing every circle shows
"ALL CLEARED".

This project models the game logic of `ClearThePointGame` as a state
machine. The component's state slots (status, current target, list of
point ids, header title and class, elapsed time) are gathered into one
immutable `State` record. Each event handler is a pure transition on the
state that was last rendered:

- `JsNumbers.dfy` covers the ECMAScript Number behaviour the input guard
  and `Array.from({length: n})` rely on: truthiness, the ToLength
  abstract operation, and the RangeError that `Array(len)` throws above
  2^32 - 1.
- `PointGame.dfy` has the state, `Start` (`startGame`), `Submit` and
  `Restart` (the two guarded handlers) and `Click` (`handlePointClick`).
- `GameProofs.dfy` proves the board invariant, the in-order clear, the
  behaviour of clicks after a round has finished, the input guard's
  consequences, and the header/status consistency of every reachable
  state.

Behaviour of the code that the model keeps as written:

- `handlePointClick` has no status guard (src/component/pointgame.tsx:64-80).
  The points stay rendered after "GAME OVER" (lines 111-113), so clicks
  on them are still handled. A correct click removes its point, and
  clearing the rest turns the header into "ALL CLEARED"
  (`ClearsRemaining`, `GameOverThenCleared`).
- `if (numPoints)` is JavaScript truthiness (lines 59 and 84), so it
  rejects only 0 and NaN. A count of -5, a fraction below 1 or
  -Infinity passes the guard. It then starts a round with no points
  that stays "playing" (`GuardExamples`).
- After the last correct click, `currentPoint` is not incremented
  (lines 68-74). It stays at n, so the board invariant has a
  "just cleared" case.
- A count whose length exceeds 2^32 - 1 (including +Infinity) makes
  `Array.from` throw at line 43, before any state setter runs. The
  state is then unchanged.

## Model

| member | source | states |
|---|---|---|
| JsNumbers.ToLength | src/component/pointgame.tsx:43 | the array length built from the count is the count truncated toward zero, clamped to [0, 2^53 - 1]; NaN, -Infinity and every count below 1 give 0 |
| PointGame.RemoveAll | src/component/pointgame.tsx:66 | filtering out an id leaves exactly the multiset of ids with every copy of that id removed |
| PointGame.Start | src/component/pointgame.tsx:42-54 | starting succeeds exactly when the length fits an array; the result is playing, targets 1, holds ids 1..len ascending, shows "LET'S PLAY"/"text-black" and elapsed 0 |
| PointGame.Submit | src/component/pointgame.tsx:56-62 | a count of 0 or NaN, or one too long for an array, leaves the whole state unchanged; any other count yields the fresh board of ToLength(count) points |
| PointGame.Restart | src/component/pointgame.tsx:82-87 | the same guard and outcome as submitting the form |
| PointGame.Click | src/component/pointgame.tsx:64-80 | a correct click removes exactly that id; it advances the target and keeps status and header while points remain; it shows "ALL CLEARED"/finished when none remain; a wrong click shows "GAME OVER"/finished and keeps ids and target; elapsed time is untouched |
| GameProofs.RemoveAllKeepsOrder | src/component/pointgame.tsx:66 | on ids without duplicates, filtering out the id at position i equals the list with just that entry cut out, the others in their original order |
| GameProofs.CorrectClickRemovesOnlyTarget | src/component/pointgame.tsx:65-67 | a correct click removes only the clicked entry and keeps every other id in order |
| GameProofs.StartEstablishesBoard | src/component/pointgame.tsx:43-48 | after a start the board invariant holds: ids are exactly currentPoint..n ascending, with no id twice |
| GameProofs.CorrectClickAdvances | src/component/pointgame.tsx:65-74 | a correct click on c with c..n on the board and c < n changes only the target, to c + 1, and the board, to c + 1..n |
| GameProofs.LastClickClears | src/component/pointgame.tsx:65-71 | a correct click on the only point left empties the board and sets finished, "ALL CLEARED" and "text-green-500", changing nothing else |
| GameProofs.BoardDistinct | src/component/pointgame.tsx:43-48 | every board satisfying the invariant has pairwise distinct ids, so the order lemma for correct clicks applies to every board the game reaches |
| GameProofs.ClickPreservesBoard | src/component/pointgame.tsx:64-80 | every click, correct or wrong, playing or finished, preserves the board invariant |
| GameProofs.ClickPrefix | src/component/pointgame.tsx:72-74 | clicking c..j on a board holding c..n with j < n only advances the target to j + 1 and shrinks the board to j + 1..n |
| GameProofs.ClearsInOrder | src/component/pointgame.tsx:64-74 | clicking c..n on a board holding c..n ends with an empty board, "ALL CLEARED", "text-green-500" and finished, whatever the starting status |
| GameProofs.ClearTheBoard | src/component/pointgame.tsx:42-74 | from any prior state, a round of n >= 1 points stays playing under "LET'S PLAY" for the first n - 1 in-order clicks and is cleared by exactly the n-th |
| GameProofs.ClearsRemaining | src/component/pointgame.tsx:64-80 | a board that still holds points is cleared by clicking them in order, also after "GAME OVER", since clicks carry no status guard |
| GameProofs.GameOverThenCleared | src/component/pointgame.tsx:64-80 | with three points, a wrong click on 2 gives "GAME OVER" with all three left; clicking 1, 2, 3 afterwards gives "ALL CLEARED" |
| GameProofs.WrongClickIdempotent | src/component/pointgame.tsx:75-79 | a wrong click keeps the ids, and repeating it changes nothing more |
| GameProofs.RestartIsSubmit | src/component/pointgame.tsx:56-87 | the Restart handler and the form submission are the same transition |
| GameProofs.SubmitForgetsPriorState | src/component/pointgame.tsx:42-62 | a count that passes the guard yields the same state whatever the game was doing before |
| GameProofs.GuardExamples | src/component/pointgame.tsx:58-60 | 0 and NaN are rejected; -5, 0.5 and -Infinity start a playing round with no points; 2.5 starts a playing round of points 1 and 2; 3 gives the fresh board of three points; +Infinity changes nothing |
| GameProofs.InitialConsistent | src/component/pointgame.tsx:12-17 | the mounted component is idle with no target, no points and "LET'S PLAY" |
| GameProofs.StepPreservesConsistent | src/component/pointgame.tsx:42-113 | each submit, restart once the Restart button is rendered, or click on a rendered point keeps header and status in agreement: target undefined only while idle, "ALL CLEARED" only over an empty board, "GAME OVER" only over a non-empty one |
| GameProofs.ReachableConsistent | src/component/pointgame.tsx:42-113 | every state reached by a run of rendered user actions is consistent |
| GameProofs.ExampleRun | src/component/pointgame.tsx:64-74 | on a fresh board of three points, clicking 1 leaves [2, 3] playing, clicking 2 leaves [3] playing, and clicking 3 gives an empty board, finished, "ALL CLEARED" |

## Left out

- Point coordinates: the random x/y placement uses `Math.random` and floating-point floor. It is nondeterministic, and only the ids take part in the game logic.
- The layout probe (`getBoundingClientRect` on mount): DOM input that only bounds the coordinates.
- The interval timer and its `toFixed(1)` rounding: wall-clock scheduling and floating-point arithmetic. Elapsed time is kept only as a field. `Start` resets it to 0 and clicks leave it unchanged.
- Rendering: the JSX, the CSS beyond the header class string, and the Play/Restart labels. Both buttons lead to the same guarded start. Of the button switch, the model keeps only that Restart is offered once the game has left the idle status.
- React state batching and re-render timing: each handler is one atomic transition on the last rendered state.
- Reading and parsing the input text (`Number(inputRef.current?.value)`): the handlers take the resulting Number as a parameter. Finite Numbers are modelled as reals, so the rounding of the text to a double is not modelled.
- Resource exhaustion: lengths up to 2^32 - 1 are accepted as the language specifies. Running out of memory on very large counts is not modelled.
