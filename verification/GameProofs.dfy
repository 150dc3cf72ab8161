/**
 Properties of the point game's transitions: the board invariant that
 `startGame` establishes and every click preserves, the in-order clear,
 the consequences of the missing status guard on clicks, the input guard,
 and the header/status consistency of every reachable state.
 */
module GameProofs {
  import opened JsNumbers
  import opened PointGame

  // ---------------------------------------------------------------------
  // Sequences of ids

  /** No id occurs twice: the ids of `Array.from` are i + 1 for distinct i. */
  predicate Distinct(xs: seq<int>) {
    forall i, j :: 0 <= i < j < |xs| ==> xs[i] != xs[j]
  }

  lemma RangeMembership(lo: int, hi: int, y: int)
    ensures y in Range(lo, hi) <==> lo <= y <= hi
  {
    if lo <= y <= hi {
      assert Range(lo, hi)[y - lo] == y;
    }
  }

  /** Extending a run by its next value. */
  lemma RangeSnoc(lo: int, hi: int)
    requires lo <= hi + 1
    ensures Range(lo, hi + 1) == Range(lo, hi) + [hi + 1]
  {
  }

  /** Filtering out an id that is absent changes nothing. */
  lemma {:induction false} RemoveAllAbsent(xs: seq<int>, x: int)
    requires x !in xs
    ensures RemoveAll(xs, x) == xs
  {
    if xs != [] {
      assert x !in xs[1..];
      RemoveAllAbsent(xs[1..], x);
      assert xs == [xs[0]] + xs[1..];
    }
  }

  /** On a list without duplicates, removing the id at position i drops
      exactly that entry and keeps all the others in their original order. */
  lemma {:induction false} RemoveAllKeepsOrder(xs: seq<int>, i: int)
    requires Distinct(xs)
    requires 0 <= i < |xs|
    ensures RemoveAll(xs, xs[i]) == xs[..i] + xs[i + 1..]
  {
    var x := xs[i];
    var tail := xs[1..];
    RemoveAllCons(xs, x);
    if i == 0 {
      HeadNotInTail(xs);
      RemoveAllAbsent(tail, x);
    } else {
      DistinctTail(xs);
      assert tail[i - 1] == x;
      RemoveAllKeepsOrder(tail, i - 1);
      SpliceTail(xs, i);
    }
  }

  /** One step of the filter: the head is kept unless it is the removed id. */
  lemma RemoveAllCons(xs: seq<int>, x: int)
    requires xs != []
    ensures RemoveAll(xs, x) == (if xs[0] == x then [] else [xs[0]]) + RemoveAll(xs[1..], x)
  {
  }

  /** Cutting position i out of xs is keeping the head and cutting i - 1
      out of the tail. */
  lemma SpliceTail(xs: seq<int>, i: int)
    requires 0 < i < |xs|
    ensures xs[..i] + xs[i + 1..] == [xs[0]] + (xs[1..][..i - 1] + xs[1..][i..])
  {
    assert xs[1..][..i - 1] == xs[1..i];
    assert xs[1..][i..] == xs[i + 1..];
    assert xs[..i] == [xs[0]] + xs[1..i];
  }

  lemma HeadNotInTail(xs: seq<int>)
    requires Distinct(xs)
    requires xs != []
    ensures xs[0] !in xs[1..]
  {
    forall k | 0 <= k < |xs[1..]|
      ensures xs[1..][k] != xs[0]
    {
      assert xs[1..][k] == xs[k + 1];
    }
  }

  lemma DistinctTail(xs: seq<int>)
    requires Distinct(xs)
    requires xs != []
    ensures Distinct(xs[1..])
  {
    forall a, b | 0 <= a < b < |xs[1..]|
      ensures xs[1..][a] != xs[1..][b]
    {
      assert xs[1..][a] == xs[a + 1] && xs[1..][b] == xs[b + 1];
    }
  }

  /** A non-empty run is its first value followed by the rest of the run. */
  lemma RangeCons(lo: int, hi: int)
    requires lo <= hi
    ensures Range(lo, hi) == [lo] + Range(lo + 1, hi)
  {
    assert Range(lo, hi)[1..] == Range(lo + 1, hi);
  }

  /** Clicking the head of an ascending run leaves the rest of the run. */
  lemma RemoveFirstOfRange(lo: int, hi: int)
    requires lo <= hi
    ensures RemoveAll(Range(lo, hi), lo) == Range(lo + 1, hi)
  {
    var xs := Range(lo, hi);
    RangeCons(lo, hi);
    assert xs[0] == lo && xs[1..] == Range(lo + 1, hi);
    RangeMembership(lo + 1, hi, lo);
    RemoveAllAbsent(Range(lo + 1, hi), lo);
    assert RemoveAll(xs, lo) == [] + RemoveAll(xs[1..], lo);
  }

  // ---------------------------------------------------------------------
  // The board invariant

  /** The ids still on the board are exactly currentPoint..n in ascending
      order, where n is the count the round was started with. The one
      exception is the board just cleared by a correct click on n: the list
      is empty and currentPoint stays at n, as `handlePointClick` does not
      increment it on the last click. */
  predicate Board(s: State, n: int) {
    && s.currentPoint.Some?
    && 1 <= s.currentPoint.value <= n + 1
    && (|| s.pointIds == Range(s.currentPoint.value, n)
        || (s.pointIds == [] && s.currentPoint.value == n))
  }

  /** `startGame` establishes the invariant for the length it generated,
      on ids that are pairwise distinct. */
  lemma StartEstablishesBoard(numPoints: Number)
    requires Start(numPoints).Some?
    ensures Board(Start(numPoints).value, ToLength(numPoints))
    ensures Start(numPoints).value.pointIds == Range(1, ToLength(numPoints))
    ensures Distinct(Start(numPoints).value.pointIds)
  {
  }

  /** A correct click on c, with c..n on the board and c < n, only moves
      the target to c + 1 and leaves c + 1..n. */
  lemma CorrectClickAdvances(s: State, c: int, n: int)
    requires s.currentPoint == Some(c)
    requires s.pointIds == Range(c, n)
    requires c < n
    ensures Click(s, c) == s.(currentPoint := Some(c + 1), pointIds := Range(c + 1, n))
  {
    RemoveFirstOfRange(c, n);
    assert |Range(c + 1, n)| == n - c;
  }

  /** A correct click on the last point n clears the board. */
  lemma LastClickClears(s: State, n: int)
    requires s.currentPoint == Some(n)
    requires s.pointIds == [n]
    ensures Click(s, n) ==
              s.(pointIds := [], status := Finished,
                 headerTitle := AllCleared, headerClass := TextGreen)
  {
    assert RemoveAll([n], n) == [];
  }

  /** The ids of every board are pairwise distinct, so a correct click on
      a reachable board removes exactly one entry. */
  lemma BoardDistinct(s: State, n: int)
    requires Board(s, n)
    ensures Distinct(s.pointIds)
  {
  }

  /** Every click, correct or not, playing or finished, preserves the
      invariant. */
  lemma ClickPreservesBoard(s: State, n: int, pointId: int)
    requires Board(s, n)
    ensures Board(Click(s, pointId), n)
  {
    var c := s.currentPoint.value;
    if !IsTarget(s, pointId) {
      assert Click(s, pointId).pointIds == s.pointIds;
    } else if s.pointIds == [] {
      assert Click(s, pointId).pointIds == [];
    } else if c < n {
      assert s.pointIds == Range(c, n);
      CorrectClickAdvances(s, c, n);
    } else {
      assert s.pointIds == Range(n, n) == [n];
      LastClickClears(s, n);
    }
  }

  // ---------------------------------------------------------------------
  // Clicking in order

  /** The state after a sequence of clicks, each handled on the state the
      previous one produced. */
  function ClickAll(s: State, ids: seq<int>): State
    decreases |ids|
  {
    if ids == [] then s else ClickAll(Click(s, ids[0]), ids[1..])
  }

  lemma {:induction false} ClickAllAppend(s: State, a: seq<int>, b: seq<int>)
    ensures ClickAll(s, a + b) == ClickAll(ClickAll(s, a), b)
    decreases |a|
  {
    if a == [] {
      assert a + b == b;
    } else {
      assert (a + b)[0] == a[0];
      assert (a + b)[1..] == a[1..] + b;
      ClickAllAppend(Click(s, a[0]), a[1..], b);
    }
  }

  /** Clicking c..j on a board holding c..n, for j < n, only advances the
      target to j + 1 and shrinks the board to j + 1..n; the status and the
      header are untouched. */
  lemma {:induction false} ClickPrefix(s: State, c: int, n: int, j: int)
    requires s.currentPoint == Some(c)
    requires s.pointIds == Range(c, n)
    requires c - 1 <= j < n
    ensures ClickAll(s, Range(c, j)) == s.(currentPoint := Some(j + 1), pointIds := Range(j + 1, n))
    decreases j - c
  {
    if j == c - 1 {
      assert Range(c, j) == [];
    } else {
      ClickPrefix(s, c, n, j - 1);
      RangeSnoc(c, j - 1);
      ClickAllAppend(s, Range(c, j - 1), [j]);
      CorrectClickAdvances(s.(currentPoint := Some(j), pointIds := Range(j, n)), j, n);
    }
  }

  /** Clicking c..n on a board holding c..n clears it: the round finishes
      with "ALL CLEARED", whatever status it was in. */
  lemma ClearsInOrder(s: State, c: int, n: int)
    requires s.currentPoint == Some(c)
    requires s.pointIds == Range(c, n)
    requires c <= n
    ensures ClickAll(s, Range(c, n)) ==
              s.(currentPoint := Some(n), pointIds := [], status := Finished,
                 headerTitle := AllCleared, headerClass := TextGreen)
  {
    ClickPrefix(s, c, n, n - 1);
    RangeSnoc(c, n - 1);
    ClickAllAppend(s, Range(c, n - 1), [n]);
    assert Range(n, n) == [n];
    LastClickClears(s.(currentPoint := Some(n), pointIds := [n]), n);
  }

  /** From any prior state, starting a round of n >= 1 points and clicking
      1..n in order keeps the round playing for the first n - 1 clicks and
      reaches "ALL CLEARED" with the n-th: exactly n clicks clear the board. */
  lemma ClearTheBoard(s: State, numPoints: Number)
    requires 1 <= ToLength(numPoints)
    requires ArrayLengthOk(ToLength(numPoints))
    ensures var t := Submit(s, numPoints);
            var n := ToLength(numPoints);
            && (forall k :: 0 <= k < n ==>
                  && ClickAll(t, Range(1, k)).status == Playing
                  && ClickAll(t, Range(1, k)).headerTitle == LetsPlay
                  && ClickAll(t, Range(1, k)).pointIds == Range(k + 1, n))
            && ClickAll(t, Range(1, n)).status == Finished
            && ClickAll(t, Range(1, n)).headerTitle == AllCleared
            && ClickAll(t, Range(1, n)).headerClass == TextGreen
            && ClickAll(t, Range(1, n)).pointIds == []
  {
    var t := Submit(s, numPoints);
    var n := ToLength(numPoints);
    assert Truthy(numPoints);
    forall k | 0 <= k < n
      ensures ClickAll(t, Range(1, k)) == t.(currentPoint := Some(k + 1), pointIds := Range(k + 1, n))
    {
      ClickPrefix(t, 1, n, k);
    }
    ClearsInOrder(t, 1, n);
  }

  // ---------------------------------------------------------------------
  // Clicks are not guarded by status

  /** Any board that still holds points is cleared by clicking them in
      order, even after "GAME OVER": the handler never looks at the status. */
  lemma ClearsRemaining(s: State, n: int)
    requires Board(s, n)
    requires s.pointIds != []
    ensures ClickAll(s, s.pointIds).status == Finished
    ensures ClickAll(s, s.pointIds).headerTitle == AllCleared
    ensures ClickAll(s, s.pointIds).headerClass == TextGreen
    ensures ClickAll(s, s.pointIds).pointIds == []
  {
    ClearsInOrder(s, s.currentPoint.value, n);
  }

  /** Three points, a wrong click on 2 ends the round with "GAME OVER" and
      all three points left; clicking 1, 2, 3 afterwards still turns the
      header into "ALL CLEARED". */
  lemma GameOverThenCleared()
    ensures var over := Click(Submit(Initial(), Finite(3.0)), 2);
            && over.status == Finished
            && over.headerTitle == GameOver
            && over.pointIds == [1, 2, 3]
            && ClickAll(over, [1, 2, 3]).headerTitle == AllCleared
            && ClickAll(over, [1, 2, 3]).pointIds == []
  {
    var over := Click(Submit(Initial(), Finite(3.0)), 2);
    assert Range(1, 3) == [1, 2, 3];
    ClearsInOrder(over, 1, 3);
  }

  /** A wrong click leaves the board intact, so repeating it changes
      nothing more. */
  lemma WrongClickIdempotent(s: State, pointId: int)
    requires !IsTarget(s, pointId)
    ensures Click(s, pointId).pointIds == s.pointIds
    ensures Click(Click(s, pointId), pointId) == Click(s, pointId)
  {
  }

  /** A correct click on a board without duplicate ids takes out exactly the
      clicked entry and keeps the others in their order. */
  lemma CorrectClickRemovesOnlyTarget(s: State, i: int)
    requires Distinct(s.pointIds)
    requires 0 <= i < |s.pointIds|
    requires IsTarget(s, s.pointIds[i])
    ensures Click(s, s.pointIds[i]).pointIds == s.pointIds[..i] + s.pointIds[i + 1..]
  {
    RemoveAllKeepsOrder(s.pointIds, i);
  }

  // ---------------------------------------------------------------------
  // The input guard

  /** The Restart button behaves exactly like submitting the form. */
  lemma RestartIsSubmit(s: State, numPoints: Number)
    ensures Restart(s, numPoints) == Submit(s, numPoints)
  {
  }

  /** Once the guard lets a count through, the prior state is forgotten:
      whatever the game was doing, the same fresh board results. */
  lemma SubmitForgetsPriorState(s1: State, s2: State, numPoints: Number)
    requires Truthy(numPoints)
    requires ArrayLengthOk(ToLength(numPoints))
    ensures Submit(s1, numPoints) == Submit(s2, numPoints)
  {
  }

  /** The guard rejects only NaN and zero: a negative count passes it and
      starts a round with no points, and a fractional count is truncated. */
  lemma GuardExamples(s: State)
    ensures Submit(s, Finite(0.0)) == s
    ensures Submit(s, NaN) == s
    ensures Submit(s, Finite(-5.0)).status == Playing
    ensures Submit(s, Finite(-5.0)).pointIds == []
    ensures Submit(s, Finite(0.5)).status == Playing
    ensures Submit(s, Finite(0.5)).pointIds == []
    ensures Submit(s, Finite(2.5)).status == Playing
    ensures Submit(s, Finite(2.5)).pointIds == [1, 2]
    ensures Submit(s, NegInfinity).status == Playing
    ensures Submit(s, NegInfinity).pointIds == []
    ensures Submit(s, PosInfinity) == s
    ensures FreshBoard(Submit(s, Finite(3.0)), 3)
  {
    assert Range(1, 2) == [1, 2];
  }

  // ---------------------------------------------------------------------
  // Reachable states

  /** Header and status agree, currentPoint is undefined only while idle,
      "ALL CLEARED" is shown only over an empty board and "GAME OVER" only
      over a board that still has points. */
  predicate Consistent(s: State) {
    && (s.status == Idle <==> s.currentPoint == None)
    && (s.status == Idle ==> s.pointIds == [])
    && (s.status != Finished ==> s.headerTitle == LetsPlay && s.headerClass == TextBlack)
    && (s.status == Finished ==>
          || (s.headerTitle == AllCleared && s.headerClass == TextGreen && s.pointIds == [])
          || (s.headerTitle == GameOver && s.headerClass == TextRed && s.pointIds != []))
  }

  /** A user action: submitting the form, pressing Restart, or clicking a
      point. */
  datatype Event = SubmitForm(count: Number) | PressRestart(count: Number) | ClickPoint(id: int)

  /** A click can only land on a point that is rendered, and the Restart
      button is rendered only once the game has left the idle status. */
  predicate Enabled(s: State, e: Event) {
    && (e.ClickPoint? ==> e.id in s.pointIds)
    && (e.PressRestart? ==> s.status != Idle)
  }

  function Step(s: State, e: Event): State {
    match e
    case SubmitForm(n) => Submit(s, n)
    case PressRestart(n) => Restart(s, n)
    case ClickPoint(id) => Click(s, id)
  }

  predicate ValidRun(s: State, events: seq<Event>)
    decreases |events|
  {
    if events == [] then true
    else Enabled(s, events[0]) && ValidRun(Step(s, events[0]), events[1..])
  }

  function Run(s: State, events: seq<Event>): State
    decreases |events|
  {
    if events == [] then s else Run(Step(s, events[0]), events[1..])
  }

  lemma InitialConsistent()
    ensures Consistent(Initial())
    ensures Initial().status == Idle && Initial().pointIds == []
  {
  }

  lemma StepPreservesConsistent(s: State, e: Event)
    requires Consistent(s)
    requires Enabled(s, e)
    ensures Consistent(Step(s, e))
  {
  }

  /** Every state reachable from the mounted component by rendered user
      actions is consistent. */
  lemma {:induction false} ReachableConsistent(s: State, events: seq<Event>)
    requires Consistent(s)
    requires ValidRun(s, events)
    ensures Consistent(Run(s, events))
    decreases |events|
  {
    if events != [] {
      StepPreservesConsistent(s, events[0]);
      ReachableConsistent(Step(s, events[0]), events[1..]);
    }
  }

  /** The example round of three points (as started by submitting 3, see
      GuardExamples): 1, 2, 3 clicked in order. */
  lemma ExampleRun(t: State)
    requires FreshBoard(t, 3)
    ensures var one := Click(t, 1);
            var two := Click(one, 2);
            var three := Click(two, 3);
            && one.pointIds == [2, 3] && one.status == Playing
            && two.pointIds == [3] && two.status == Playing
            && three.pointIds == [] && three.status == Finished
            && three.headerTitle == AllCleared
  {
    CorrectClickAdvances(t, 1, 3);
    var one := Click(t, 1);
    assert one.pointIds == [2, 3] && one.status == Playing by {
      assert Range(2, 3) == [2, 3];
    }
    CorrectClickAdvances(one, 2, 3);
    var two := Click(one, 2);
    assert two.pointIds == [3] && two.status == Playing by {
      assert Range(3, 3) == [3];
    }
    LastClickClears(two, 3);
  }
}
