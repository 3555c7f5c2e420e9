/** Sequences of user actions and timer firings, and what holds across them. */
module Runs {
  import opened Wrappers
  import opened Messages
  import opened Session

  datatype Event =
    | Guess(guess: Option<int>, now: int)
    | PlayAgain(target: int)
    | Difficulty(newMax: int, target: int)
    | TimerFired(now: int)

  /** "Play Again" can be pressed only while it is shown; the selector offers
      only its four levels and fires only when a different one is picked; the
      drawn targets lie in the range they were drawn from. */
  predicate Allowed(s: State, e: Event) {
    match e
    case PlayAgain(t) => PlayAgainVisible(s.message) && 1 <= t <= s.maxNumber
    case Difficulty(m, t) => m in Levels && m != s.maxNumber && 1 <= t <= m
    case _ => true
  }

  function Step(s: State, e: Event): (r: State)
    requires Allowed(s, e)
  {
    match e
    case Guess(g, now) => Submit(s, g, now)
    case PlayAgain(t) => Restart(s, t)
    case Difficulty(m, t) => SelectDifficulty(s, m, t)
    case TimerFired(now) => Tick(s, now)
  }

  predicate AllowedRun(s: State, es: seq<Event>)
    decreases |es|
  {
    |es| == 0 || (Allowed(s, es[0]) && AllowedRun(Step(s, es[0]), es[1..]))
  }

  function Run(s: State, es: seq<Event>): (r: State)
    requires AllowedRun(s, es)
    decreases |es|
  {
    if |es| == 0 then s else Run(Step(s, es[0]), es[1..])
  }

  /** The guesses the handler accepts along a run, in the order they are made. */
  function AcceptedGuesses(s: State, es: seq<Event>): (gs: seq<int>)
    requires AllowedRun(s, es)
    decreases |es|
  {
    if |es| == 0 then []
    else
      AcceptedBy(s, es[0]) + AcceptedGuesses(Step(s, es[0]), es[1..])
  }

  /** The guess one event gets accepted, if any. */
  function AcceptedBy(s: State, e: Event): (gs: seq<int>) {
    match e
    case Guess(g, _) => if Accepts(g, s.maxNumber) then [g.value] else []
    case _ => []
  }

  /** One event other than a restart appends exactly its accepted guess to the
      history, counts it, and keeps the start time of a started session. */
  lemma StepWithoutRestart(s: State, e: Event)
    requires Allowed(s, e) && !e.PlayAgain?
    ensures var r := Step(s, e);
      && r.history == s.history + AcceptedBy(s, e)
      && r.attempts == s.attempts + |AcceptedBy(s, e)|
      && (s.hasStarted ==> r.hasStarted && r.startTime == s.startTime)
      && (s.gameOver ==> r.gameOver && r.elapsed == s.elapsed)
  {
    if e.Guess? && !Accepts(e.guess, s.maxNumber) {
      assert s.history + [] == s.history;
    }
    if !e.Guess? {
      assert s.history + [] == s.history;
    }
  }

  predicate NoRestart(es: seq<Event>) {
    forall i :: 0 <= i < |es| ==> !es[i].PlayAgain?
  }

  /** No event shows "Play Again" while the game is not over. */
  lemma StepKeepsPlayAgainOnlyWhenOver(s: State, e: Event)
    requires Allowed(s, e) && PlayAgainOnlyWhenOver(s)
    ensures PlayAgainOnlyWhenOver(Step(s, e))
  {
    if e.Guess? {
      PlayAgainAfterSubmit(s, e.guess, e.now);
    }
  }

  /** Every reachable state satisfies the session invariant; in particular the
      attempt count always equals the length of the history, and "Play Again"
      is shown only once the game is over. */
  lemma {:induction false} RunPreservesInv(s: State, es: seq<Event>)
    requires Inv(s) && AllowedRun(s, es)
    ensures Inv(Run(s, es)) && Run(s, es).attempts == |Run(s, es).history|
    ensures PlayAgainOnlyWhenOver(s) ==> PlayAgainOnlyWhenOver(Run(s, es))
    decreases |es|
  {
    if |es| > 0 {
      if PlayAgainOnlyWhenOver(s) {
        StepKeepsPlayAgainOnlyWhenOver(s, es[0]);
      }
      RunPreservesInv(Step(s, es[0]), es[1..]);
    }
  }

  /** Until the next restart the history only grows, by exactly the accepted
      guesses in submission order, and the count grows with it; once started,
      the session keeps its start time. */
  lemma {:induction false} RunWithoutRestart(s: State, es: seq<Event>)
    requires AllowedRun(s, es) && NoRestart(es)
    ensures var r := Run(s, es);
      && r.history == s.history + AcceptedGuesses(s, es)
      && r.attempts == s.attempts + |AcceptedGuesses(s, es)|
      && (s.hasStarted ==> r.hasStarted && r.startTime == s.startTime)
    decreases |es|
  {
    if |es| > 0 {
      NoRestartTail(es);
      var next := Step(s, es[0]);
      var first := AcceptedBy(s, es[0]);
      var rest := AcceptedGuesses(next, es[1..]);
      StepWithoutRestart(s, es[0]);
      RunWithoutRestart(next, es[1..]);
      AppendTwice(s.history, first, rest);
    }
  }

  lemma AppendTwice(h: seq<int>, first: seq<int>, rest: seq<int>)
    ensures h + first + rest == h + (first + rest)
  {
  }

  /** After a hit and until the next restart the game stays over and the
      elapsed time stays frozen, whatever is guessed or selected meanwhile. */
  lemma {:induction false} FrozenAfterWin(s: State, es: seq<Event>)
    requires s.gameOver && AllowedRun(s, es) && NoRestart(es)
    ensures Run(s, es).gameOver && Run(s, es).elapsed == s.elapsed
    decreases |es|
  {
    if |es| > 0 {
      NoRestartTail(es);
      StepWithoutRestart(s, es[0]);
      FrozenAfterWin(Step(s, es[0]), es[1..]);
    }
  }

  lemma NoRestartTail(es: seq<Event>)
    requires |es| > 0 && NoRestart(es)
    ensures !es[0].PlayAgain? && NoRestart(es[1..])
  {
    forall i | 0 <= i < |es[1..]| ensures !es[1..][i].PlayAgain? {
      assert es[1..][i] == es[i + 1];
    }
  }

  /** Nothing blocks guesses after a hit: a rejected guess then replaces the
      success text, so "Play Again" disappears although the game stays over. */
  lemma RejectedAfterWinHidesPlayAgain(s: State, guess: Option<int>, now: int)
    requires s.gameOver && !Accepts(guess, s.maxNumber)
    ensures Submit(s, guess, now).gameOver && !PlayAgainVisible(Submit(s, guess, now).message)
  {
    PlayAgainAfterSubmit(s, guess, now);
  }
}
