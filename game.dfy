/** The component itself: one object whose fields are the state hooks and whose
    methods are the event handlers, each updating the fields step by step in
    the order the handler does. Each method is proved to leave exactly the
    state the corresponding Session function describes. */
module Game {
  import opened Wrappers
  import opened Messages
  import opened Session

  class GuessGame {
    var targetNumber: int
    var maxNumber: int
    var attempts: int
    var guessHistory: seq<int>
    var message: string
    var startTime: Option<int>
    var elapsedTime: int
    var gameOver: bool
    var hasStarted: bool

    /** The session value the fields currently hold. */
    function Snapshot(): (s: State)
      reads this
    {
      State(targetNumber, maxNumber, attempts, guessHistory, message,
            startTime, elapsedTime, gameOver, hasStarted)
    }

    ghost predicate Valid()
      reads this
    {
      Inv(Snapshot())
    }

    /** Mount, with the target the first effect draws from [1, 100]. */
    constructor (target: int)
      requires 1 <= target <= DefaultMax
      ensures Valid() && Snapshot() == Initial(target)
    {
      targetNumber := target;
      maxNumber := DefaultMax;
      attempts := 0;
      guessHistory := [];
      message := "";
      startTime := None;
      elapsedTime := 0;
      gameOver := false;
      hasStarted := false;
    }

    /** `handleSubmit`, given the parsed input (None for NaN) and the clock. */
    method HandleSubmit(guess: Option<int>, now: int)
      requires Valid()
      modifies this
      ensures Valid() && Snapshot() == Submit(old(Snapshot()), guess, now)
      ensures attempts == |guessHistory|
    {
      ghost var before := Snapshot();
      if guess.None? || guess.value < 1 || guess.value > maxNumber {
        message := InvalidMessage(maxNumber);
        assert Snapshot() == Submit(before, guess, now);
        return;
      }
      var g := guess.value;
      if !hasStarted {
        hasStarted := true;
        startTime := Some(now);
      }
      // the handler reads the count it was rendered with, before its own increment
      var seen := attempts;
      attempts := attempts + 1;
      guessHistory := guessHistory + [g];
      SetFeedback(g, seen);
      SubmitAccepted(before, guess, now);
    }

    /** The second half of `handleSubmit`: the verdict, then the parity hint
        when the count read by the handler is in the hint window. */
    method SetFeedback(g: int, seen: int)
      requires Valid() && hasStarted
      modifies this`message, this`gameOver
      ensures Valid()
      ensures message == Feedback(g, targetNumber, seen, elapsedTime)
      ensures gameOver == (old(gameOver) || g == targetNumber)
    {
      if g == targetNumber {
        message := CongratsMessage(seen + 1, elapsedTime);
        gameOver := true;
      } else if g < targetNumber {
        message := TooLowMessage;
      } else {
        message := TooHighMessage;
      }
      assert message == Verdict(g, targetNumber, seen, elapsedTime);
      if HintFrom <= seen < HintUntil {
        message := message + HintText(ParityOf(targetNumber));
      }
    }

    /** `handleRestart`, with the newly drawn target. */
    method HandleRestart(target: int)
      requires Valid() && 1 <= target <= maxNumber
      modifies this
      ensures Valid() && Snapshot() == Restart(old(Snapshot()), target)
    {
      attempts := 0;
      message := "";
      guessHistory := [];
      targetNumber := target;
      elapsedTime := 0;
      startTime := None;
      gameOver := false;
      hasStarted := false;
    }

    /** The selector's `onChange`, then the effect that redraws the target. */
    method ChangeDifficulty(newMax: int, target: int)
      requires Valid() && newMax in Levels && 1 <= target <= newMax
      modifies this
      ensures Valid() && Snapshot() == SelectDifficulty(old(Snapshot()), newMax, target)
    {
      maxNumber := newMax;
      targetNumber := target;
    }

    /** One firing of the interval callback while the timer effect is active. */
    method TimerTick(now: int)
      requires Valid()
      modifies this
      ensures Valid() && Snapshot() == Tick(old(Snapshot()), now)
    {
      if hasStarted && !gameOver {
        if startTime.Some? && startTime.value != 0 {
          elapsedTime := (now - startTime.value) / MillisPerSecond;
        }
      }
    }
  }
}
