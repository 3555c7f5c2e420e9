# Guess the Number: a verified model of the game session

The game is one React component, `src/Game.js`. It draws a hidden target in
`[1, maxNumber]`. It accepts guesses, answers "too low", "too high" or
"Congratulations", counts attempts, keeps a history of guesses and shows the
elapsed seconds. After a hit, a "Play Again" button starts a new session.

This project models the component's session state and its transitions:

- `Session` (session.dfy) is the state machine on values. The datatype
  `State` holds the state hooks: `targetNumber`, `maxNumber`, `attempts`,
  `guessHistory`, `message`, `startTime`, `elapsedTime`, `gameOver` and
  `hasStarted`. `Submit`, `Restart`, `SelectDifficulty` and `Tick` are the
  transitions. `Inv` is the invariant every reachable state keeps.
- `Game` (game.dfy) is the component itself. Class `GuessGame` has those
  fields, and its methods are the handlers. Each method updates the fields
  step by step, in the handler's order, and is proved to leave the state
  that the matching `Session` function gives.
- `Messages` (messages.dfy) holds the exact feedback texts. It also holds the
  two ways the screen reads a message: `PlayAgainVisible` is
  `message.includes('Congratulations')`, and `HintOf` reads back a trailing
  parity hint.
- `Text` (text.dfy) renders integers the way a template literal does for
  the integers a JavaScript number holds exactly, and
  defines `includes` and a suffix test.
- `Runs` (runs.dfy) covers sequences of events and what holds across them.

Inputs the component gets from outside become parameters:

- The random draw `Math.floor(Math.random() * maxNumber) + 1` becomes a
  `target` argument that must lie in `[1, maxNumber]`.
- `Date.now()` becomes a `now` argument.
- The result of `parseInt` becomes an `Option<int>`, where `None` stands
  for NaN.

Modelling decisions that follow the code:

- The handler reads `attempts` as it was before its own increment. The
  success text therefore carries that value plus one. The hint is added
  when that earlier value is 3, 4 or 5, so the 4th, 5th and 6th accepted
  guesses get a hint.
- Nothing blocks guesses after a hit. A later guess is still counted and
  recorded. A rejected guess after a hit replaces the success text, so
  "Play Again" disappears while `gameOver` stays true.
- Changing the difficulty sets `maxNumber` and a fresh target and changes
  nothing else. A session in progress keeps its count, history, message
  and timer. The selector fires only when a different level is picked.
- The guard `if (startTime)` uses JavaScript truthiness: a start time of 0
  counts as absent, just like null.
- For a positive divisor, Dafny's `/` on integers rounds down, as
  `Math.floor(x / 1000)` does.
- JavaScript's `%` and Dafny's `%` agree on whether `x % 2` is zero.

## Model

| member | source | states |
|---|---|---|
| Text.NatToDecimal | src/Game.js:59 | a natural number renders as a non-empty string of decimal digits with no leading zero |
| Text.IntToDecimal | src/Game.js:45 | an integer renders as digits, with a leading minus sign exactly when it is negative |
| Text.NatToDecimalRoundTrip | src/Game.js:59 | reading back the digits of a rendered natural number gives the number |
| Text.IntToDecimalRoundTrip | src/Game.js:59 | reading back a rendered integer, sign included, gives the integer |
| Text.IntToDecimalInjective | src/Game.js:59 | different counts or elapsed times give different texts |
| Text.Contains | src/Game.js:113 | defines `s.includes(sub)`: `sub` occurs in `s` at some position |
| Text.ContainsPrefix | src/Game.js:113 | `includes` finds a string at the start of a longer one |
| Text.ContainsAppend | src/Game.js:113 | `includes` still finds a string after more text is appended |
| Text.AbsentFirstCharNotContained | src/Game.js:113 | `includes` fails when the text lacks the first character of the searched string |
| Messages.InvalidMessage | src/Game.js:45 | defines the validation text, with the current maximum rendered in decimal |
| Messages.CongratsMessage | src/Game.js:59 | defines the success text, with the attempt count and the elapsed seconds rendered in decimal |
| Messages.ParityOf | src/Game.js:68 | defines the parity the hint names: even when the remainder modulo 2 is zero |
| Messages.HintText | src/Game.js:68 | defines the hint text appended to a message, naming the parity |
| Messages.PlayAgainVisible | src/Game.js:113-115 | defines when the "Play Again" button is rendered: the message includes "Congratulations" |
| Messages.ParityMeaning | src/Game.js:68 | the hint says "even" exactly when the target is a multiple of two |
| Messages.CongratsShowsPlayAgain | src/Game.js:113 | the success text, with or without a hint after it, shows "Play Again" |
| Messages.InvalidHidesPlayAgain | src/Game.js:45 | the validation message never shows "Play Again" |
| Messages.HintReadBack | src/Game.js:67-69 | appending the parity hint to any message makes it read back as exactly that parity |
| Session.Inv | src/Game.js:5-14 | defines the invariant of every reachable state: the target in `[1, maxNumber]`, `maxNumber` one of the four levels, `attempts == length(guessHistory)`, every recorded guess in `[1, 2000]`, a start time once started, started once over, and zero attempts, no start time and zero elapsed time before the first accepted guess |
| Session.PlayAgainOnlyWhenOver | src/Game.js:58-60 | defines the property that "Play Again" is on screen only while `gameOver` is true |
| Session.Accepts | src/Game.js:44 | defines the guesses the handler accepts: a number, not NaN, in `[1, maxNumber]` |
| Session.Verdict | src/Game.js:58-65 | defines the message before any hint: the success text with the count plus one on a hit, otherwise the too-low or too-high text |
| Session.Feedback | src/Game.js:58-69 | defines the message an accepted guess leaves: the verdict followed by `HintSuffix` of the count the handler read |
| Session.HintSuffix | src/Game.js:67-69 | defines the text after the verdict: the parity hint when the count read is in `[3, 6)`, nothing otherwise |
| Session.Truthy | src/Game.js:28 | defines JavaScript truthiness of the start time: present and not 0 |
| Session.TimerRunning | src/Game.js:26 | defines when the interval exists: started and not over |
| Session.Initial | src/Game.js:5-14 | the state at mount: max 100, no attempts, empty history and message, not started, a target in range, no "Play Again" |
| Session.Submit | src/Game.js:40-72 | a rejected guess (NaN, below 1, above maxNumber) changes only the message, which becomes the validation text. An accepted guess adds exactly one attempt and appends exactly that guess, keeping earlier entries. It sets `startTime = now` only on the first accepted guess and sets `gameOver` exactly on a hit. It never touches the target, maxNumber or elapsed time, and it preserves the invariant |
| Session.Restart | src/Game.js:74-84 | zero attempts, empty history and message, zero elapsed time, no start time, neither started nor over, a new target in `[1, maxNumber]`, no "Play Again", invariant preserved |
| Session.SelectDifficulty | src/Game.js:92 | the new maximum and a target in `[1, newMax]`; every other field unchanged; invariant preserved |
| Session.ElapsedSeconds | src/Game.js:29 | the result is the floor of the milliseconds over 1000: `e*1000 <= now-start < (e+1)*1000` |
| Session.Tick | src/Game.js:26-30 | only the elapsed time can change, and only while started, not over and with a truthy start time (neither null nor 0); then it is the floor of the seconds since that start time; invariant preserved |
| Session.PlayAgainOfFeedback | src/Game.js:58-69 | the message an accepted guess sets shows "Play Again" if and only if the guess equals the target |
| Session.PlayAgainAfterSubmit | src/Game.js:113 | after a submit, "Play Again" is shown if and only if the guess was accepted and equals the target |
| Session.VerdictHasNoHint | src/Game.js:58-65 | none of the three verdict texts ends in a parity hint by itself |
| Session.HintOfFeedback | src/Game.js:58-69 | the message an accepted guess sets ends with a hint if and only if the count read by the handler is in `[3, 6)`, and that hint gives the target's parity |
| Session.HintAfterSubmit | src/Game.js:67-69 | the message ends with a parity hint if and only if the guess was accepted and the pre-increment count was in `[3, 6)`, and the hint gives the target's parity |
| Session.CongratsReportsCount | src/Game.js:58-60 | a hit sets `gameOver`, and the message is exactly the success text carrying the new attempt count and the current elapsed time, followed by the parity hint when one is due |
| Session.TooLowAfterSubmit | src/Game.js:61-62 | an accepted guess below the target leaves exactly "Too low! Try again." plus the hint when one is due, and does not change `gameOver` |
| Session.TooHighAfterSubmit | src/Game.js:63-64 | an accepted guess above the target leaves exactly "Too high! Try again." plus the hint when one is due, and does not change `gameOver` |
| Runs.Allowed | src/Game.js:92-115 | defines which events can happen: "Play Again" only while it is shown, a difficulty change only to a different one of the four levels, drawn targets inside the range they are drawn from |
| Runs.StepKeepsPlayAgainOnlyWhenOver | src/Game.js:58-60 | no event shows "Play Again" while the game is not over: a guess shows it only on a hit, which sets `gameOver`, and the other events keep the message and `gameOver` or clear the message |
| Runs.RunPreservesInv | src/Game.js:55-60 | after any sequence of submits, restarts, difficulty changes and ticks, the invariant holds, and with it `attempts == length(guessHistory)`; from a state where "Play Again" shows only when the game is over, as at mount, that stays so, so a restart is only ever pressed after a win |
| Runs.RunWithoutRestart | src/Game.js:40-72 | until a restart, the history grows by exactly the accepted guesses in submission order, the count grows with it and, once the session has started, the start time stays fixed |
| Runs.StepWithoutRestart | src/Game.js:40-92 | one event other than a restart appends exactly its accepted guess and counts it, keeps the start time of a started session, and keeps a finished game over with its elapsed time |
| Runs.FrozenAfterWin | src/Game.js:25-34 | after a hit and until a restart, the game stays over and the elapsed time does not change |
| Runs.RejectedAfterWinHidesPlayAgain | src/Game.js:44-47 | a rejected guess after a hit leaves `gameOver` true but hides "Play Again" |
| Game.GuessGame.constructor | src/Game.js:5-14 | the fields start as the mount state, which satisfies the invariant |
| Game.GuessGame.HandleSubmit | src/Game.js:40-72 | the step-by-step handler leaves exactly the state `Session.Submit` gives and keeps `attempts == length(guessHistory)` |
| Game.GuessGame.SetFeedback | src/Game.js:58-69 | setting the verdict and then appending the hint leaves exactly the message `Session.Feedback` gives, sets `gameOver` exactly on a hit, and keeps the invariant of a started session |
| Game.GuessGame.HandleRestart | src/Game.js:74-84 | the field resets leave exactly the state `Session.Restart` gives |
| Game.GuessGame.ChangeDifficulty | src/Game.js:92 | setting the maximum and the redrawn target leaves exactly the state `Session.SelectDifficulty` gives |
| Game.GuessGame.TimerTick | src/Game.js:25-34 | one interval callback leaves exactly the state `Session.Tick` gives |

## Left out

- Rendering (JSX, the CSS import, the history list items, class names): presentation only.
- `Math.random()`: floating point and nondeterministic. The drawn target is a parameter that must lie in `[1, maxNumber]`.
- `setInterval`, `clearInterval` and `Date.now()`: timer scheduling and the wall clock. Only the update made by one callback is modelled, with the clock reading as a parameter. `TimerTick` is the callback of an interval that exists only while started and not over. Its guard repeats that condition, so a tick arriving at any other time has no effect.
- React hook mechanics: state batching, dependency arrays, and the render between a difficulty change and the effect that redraws the target. That effect is folded into `SelectDifficulty`. The initial `null` target before the first effect runs is folded into the constructor, which takes the first drawn target.
- `parseInt` and the text of the input field (`guess`, `handleGuessChange`, clearing the field after a submit): the handler is given the parsed value as `Option<int>`.
- Number range: counts, clock readings and elapsed times are unbounded integers. JavaScript numbers are doubles, which hold integers exactly only below 2^53, and a template literal writes magnitudes of 1e21 and above in exponent notation. The model agrees with the source for values below 2^53, which covers every value the game produces.
- The difficulty selector offers only 100, 500, 1000 and 2000, so `SelectDifficulty` requires one of them.
