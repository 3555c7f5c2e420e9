/** The guess-the-number session as a state machine on values: the fields the
    component keeps in its state hooks, the three user actions (submit a guess,
    restart, choose a difficulty) and the one-second timer update, each as a
    function from the old state to the new one. The random draw and the wall
    clock are parameters: `target` stands for the value of
    `Math.floor(Math.random() * maxNumber) + 1` and `now` for `Date.now()`. */
module Session {
  import opened Wrappers
  import opened Messages

  /** The values the difficulty selector offers. */
  const Levels: set<int> := {100, 500, 1000, 2000}
  const DefaultMax: int := 100
  const HighestLevel: int := 2000
  const MillisPerSecond: int := 1000
  /** The hint is given while the attempt count read by the handler lies in [HintFrom, HintUntil). */
  const HintFrom: int := 3
  const HintUntil: int := 6

  datatype State = State(
    target: int,
    maxNumber: int,
    attempts: int,
    history: seq<int>,
    message: string,
    startTime: Option<int>,
    elapsed: int,
    gameOver: bool,
    hasStarted: bool)

  /** What holds of every state the component can reach. */
  predicate Inv(s: State) {
    && 1 <= s.target <= s.maxNumber
    && s.maxNumber in Levels
    && s.attempts == |s.history|
    && (forall g :: g in s.history ==> 1 <= g <= HighestLevel)
    && (s.hasStarted ==> s.startTime.Some?)
    && (s.gameOver ==> s.hasStarted)
    && (!s.hasStarted ==> s.attempts == 0 && s.startTime == None && s.elapsed == 0)
  }

  /** The state after mount, once the first target has been drawn. */
  function Initial(target: int): (s: State)
    requires 1 <= target <= DefaultMax
    ensures Inv(s) && s.target == target && s.maxNumber == DefaultMax
    ensures s.attempts == 0 && s.history == [] && s.message == ""
    ensures !s.hasStarted && !s.gameOver && !PlayAgainVisible(s.message)
  {
    State(target, DefaultMax, 0, [], "", None, 0, false, false)
  }

  /** The handler accepts a parsed guess that is a number in [1, maxNumber]. */
  predicate Accepts(guess: Option<int>, maxNumber: int) {
    guess.Some? && 1 <= guess.value <= maxNumber
  }

  /** The verdict an accepted guess sets, before any hint. */
  function Verdict(guess: int, target: int, seen: int, elapsed: int): (v: string) {
    if guess == target then CongratsMessage(seen + 1, elapsed)
    else if guess < target then TooLowMessage
    else TooHighMessage
  }

  /** The message an accepted guess leaves: the verdict, then the parity hint
      when the attempt count the handler read (before its own increment) is in
      the hint window. */
  function Feedback(guess: int, target: int, seen: int, elapsed: int): (m: string) {
    Verdict(guess, target, seen, elapsed) + HintSuffix(seen, target)
  }

  /** The text that follows the verdict: the parity hint inside the hint
      window, nothing outside it. */
  function HintSuffix(seen: int, target: int): (h: string) {
    if HintFrom <= seen < HintUntil then HintText(ParityOf(target)) else ""
  }

  /** The form's submit handler. */
  function Submit(s: State, guess: Option<int>, now: int): (r: State)
    ensures Inv(s) ==> Inv(r)
    // a rejected guess only replaces the message
    ensures !Accepts(guess, s.maxNumber) ==>
      r.message == InvalidMessage(s.maxNumber) && r.(message := s.message) == s
    // an accepted guess is counted and recorded at the end of the history
    ensures Accepts(guess, s.maxNumber) ==>
      && r.attempts == s.attempts + 1
      && r.history == s.history + [guess.value]
      && r.target == s.target && r.maxNumber == s.maxNumber && r.elapsed == s.elapsed
      && r.hasStarted
      && r.startTime == (if s.hasStarted then s.startTime else Some(now))
      && r.gameOver == (s.gameOver || guess.value == s.target)
  {
    if !Accepts(guess, s.maxNumber) then
      s.(message := InvalidMessage(s.maxNumber))
    else
      var started := if s.hasStarted then s else s.(hasStarted := true, startTime := Some(now));
      started.(
        attempts := s.attempts + 1,
        history := s.history + [guess.value],
        message := Feedback(guess.value, s.target, s.attempts, s.elapsed),
        gameOver := if guess.value == s.target then true else s.gameOver)
  }

  /** The whole state an accepted guess leaves, field by field. */
  lemma SubmitAccepted(s: State, guess: Option<int>, now: int)
    requires Accepts(guess, s.maxNumber)
    ensures Submit(s, guess, now) == State(
      s.target, s.maxNumber, s.attempts + 1, s.history + [guess.value],
      Feedback(guess.value, s.target, s.attempts, s.elapsed),
      if s.hasStarted then s.startTime else Some(now), s.elapsed,
      s.gameOver || guess.value == s.target, true)
  {
  }

  /** "Play Again" is on screen only once the game is over, so a restart can
      only be asked for then. */
  predicate PlayAgainOnlyWhenOver(s: State) {
    PlayAgainVisible(s.message) ==> s.gameOver
  }

  /** The "Play Again" handler, with the freshly drawn target. */
  function Restart(s: State, target: int): (r: State)
    requires 1 <= target <= s.maxNumber
    ensures Inv(s) ==> Inv(r)
    ensures r.attempts == 0 && r.history == [] && r.message == "" && r.elapsed == 0
    ensures r.startTime == None && !r.gameOver && !r.hasStarted
    ensures r.maxNumber == s.maxNumber && 1 <= r.target <= r.maxNumber
    ensures !PlayAgainVisible(r.message)
  {
    State(target, s.maxNumber, 0, [], "", None, 0, false, false)
  }

  /** The difficulty selector's change handler followed by the effect that
      draws a new target for the new range. */
  function SelectDifficulty(s: State, newMax: int, target: int): (r: State)
    requires newMax in Levels && 1 <= target <= newMax
    ensures Inv(s) ==> Inv(r)
    ensures r.maxNumber == newMax && 1 <= r.target <= newMax
    // nothing else changes: not the count, the history, the message or the timer
    ensures r.(maxNumber := s.maxNumber, target := s.target) == s
  {
    s.(maxNumber := newMax, target := target)
  }

  /** `Math.floor((now - startTime) / 1000)`: whole seconds, rounded down,
      also when the clock has gone backwards. */
  function ElapsedSeconds(now: int, start: int): (e: int)
    ensures e * MillisPerSecond <= now - start < (e + 1) * MillisPerSecond
  {
    (now - start) / MillisPerSecond
  }

  /** JavaScript's `if (startTime)`: neither null nor zero. */
  predicate Truthy(startTime: Option<int>) {
    startTime.Some? && startTime.value != 0
  }

  /** The timer may run only while the game has started and is not over. */
  predicate TimerRunning(s: State) {
    s.hasStarted && !s.gameOver
  }

  /** One firing of the interval callback. */
  function Tick(s: State, now: int): (r: State)
    ensures Inv(s) ==> Inv(r)
    // only the elapsed time can change, and only while the timer runs
    ensures r.(elapsed := s.elapsed) == s
    ensures !(TimerRunning(s) && Truthy(s.startTime)) ==> r == s
    ensures TimerRunning(s) && Truthy(s.startTime) ==>
      r.elapsed * MillisPerSecond <= now - s.startTime.value < (r.elapsed + 1) * MillisPerSecond
  {
    if TimerRunning(s) && Truthy(s.startTime) then
      s.(elapsed := ElapsedSeconds(now, s.startTime.value))
    else s
  }

  /** The message of an accepted guess shows "Play Again" exactly on a hit. */
  lemma PlayAgainOfFeedback(guess: int, target: int, seen: int, elapsed: int)
    ensures PlayAgainVisible(Feedback(guess, target, seen, elapsed)) <==> guess == target
  {
    var hint := HintSuffix(seen, target);
    NoCInHint(ParityOf(target));
    if guess == target {
      CongratsShowsPlayAgain(seen + 1, elapsed, hint);
    } else {
      NoCInMisses();
      NoMarkerIn(Verdict(guess, target, seen, elapsed) + hint);
    }
  }

  /** An accepted guess shows "Play Again" exactly when it hits the target;
      a rejected one never does. */
  lemma PlayAgainAfterSubmit(s: State, guess: Option<int>, now: int)
    ensures PlayAgainVisible(Submit(s, guess, now).message)
        <==> Accepts(guess, s.maxNumber) && guess.value == s.target
  {
    if !Accepts(guess, s.maxNumber) {
      InvalidHidesPlayAgain(s.maxNumber, "");
      assert InvalidMessage(s.maxNumber) + "" == Submit(s, guess, now).message;
    } else {
      assert Submit(s, guess, now).message == Feedback(guess.value, s.target, s.attempts, s.elapsed);
      PlayAgainOfFeedback(guess.value, s.target, s.attempts, s.elapsed);
    }
  }

  /** No verdict ends in a hint by itself. */
  lemma VerdictHasNoHint(guess: int, target: int, seen: int, elapsed: int)
    ensures HintOf(Verdict(guess, target, seen, elapsed)) == None
  {
    if guess == target {
      CongratsHasNoHint(seen + 1, elapsed);
    } else if guess < target {
      TooLowHasNoHint();
    } else {
      TooHighHasNoHint();
    }
  }

  /** The message of an accepted guess ends with a hint exactly inside the
      hint window, and the hint gives the target's parity. */
  lemma HintOfFeedback(guess: int, target: int, seen: int, elapsed: int)
    ensures HintOf(Feedback(guess, target, seen, elapsed))
        == if HintFrom <= seen < HintUntil then Some(ParityOf(target)) else None
  {
    var v := Verdict(guess, target, seen, elapsed);
    if HintFrom <= seen < HintUntil {
      HintReadBack(v, ParityOf(target));
    } else {
      assert Feedback(guess, target, seen, elapsed) == v + "" == v;
      VerdictHasNoHint(guess, target, seen, elapsed);
    }
  }

  /** The message ends with a parity hint exactly when an accepted guess was
      made while the count read by the handler was 3, 4 or 5, and the hint
      then tells the parity of the target. */
  lemma HintAfterSubmit(s: State, guess: Option<int>, now: int)
    ensures HintOf(Submit(s, guess, now).message)
        == if Accepts(guess, s.maxNumber) && HintFrom <= s.attempts < HintUntil
           then Some(ParityOf(s.target)) else None
  {
    if !Accepts(guess, s.maxNumber) {
      InvalidHasNoHint(s.maxNumber);
    } else {
      assert Submit(s, guess, now).message == Feedback(guess.value, s.target, s.attempts, s.elapsed);
      HintOfFeedback(guess.value, s.target, s.attempts, s.elapsed);
    }
  }

  /** A hit ends the game, and its message is the success text carrying the
      count including this attempt and the current elapsed time, followed by
      the hint when one is due. */
  lemma CongratsReportsCount(s: State, guess: Option<int>, now: int)
    requires Accepts(guess, s.maxNumber) && guess.value == s.target
    ensures var r := Submit(s, guess, now);
      && r.gameOver
      && r.message == CongratsMessage(r.attempts, s.elapsed) + HintSuffix(s.attempts, s.target)
  {
    assert CongratsMessage(s.attempts + 1, s.elapsed) + "" == CongratsMessage(s.attempts + 1, s.elapsed);
  }

  /** A guess below the target answers "Too low! Try again." (with the hint
      when one is due) and does not change whether the game is over. */
  lemma TooLowAfterSubmit(s: State, guess: Option<int>, now: int)
    requires Accepts(guess, s.maxNumber) && guess.value < s.target
    ensures var r := Submit(s, guess, now);
      && r.gameOver == s.gameOver
      && r.message == TooLowMessage + HintSuffix(s.attempts, s.target)
  {
    assert TooLowMessage + "" == TooLowMessage;
  }

  /** A guess above the target answers "Too high! Try again." (with the hint
      when one is due) and does not change whether the game is over. */
  lemma TooHighAfterSubmit(s: State, guess: Option<int>, now: int)
    requires Accepts(guess, s.maxNumber) && guess.value > s.target
    ensures var r := Submit(s, guess, now);
      && r.gameOver == s.gameOver
      && r.message == TooHighMessage + HintSuffix(s.attempts, s.target)
  {
    assert TooHighMessage + "" == TooHighMessage;
  }
}
