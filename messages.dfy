/** The feedback texts of the game, exactly as the component writes them,
    and the two readings the screen makes of a message: whether "Play Again"
    is shown, and which parity hint (if any) the message ends with. */
module Messages {
  import opened Wrappers
  import opened Text

  /** The marker the screen searches the message for. */
  const SuccessMarker: string := "Congratulations"

  const TooLowMessage: string := "Too low! Try again."
  const TooHighMessage: string := "Too high! Try again."

  function InvalidMessage(maxNumber: int): (m: string) {
    "Please enter a valid number between 1 and " + IntToDecimal(maxNumber) + "."
  }

  function CongratsMessage(count: int, seconds: int): (m: string) {
    SuccessMarker + ("! You've guessed the number in " + IntToDecimal(count)
      + " attempts! Elapsed Time: " + IntToDecimal(seconds) + " seconds")
  }

  datatype Parity = Even | Odd

  /** `targetNumber % 2 === 0 ? 'even' : 'odd'`; JavaScript's remainder and
      Dafny's agree on whether it is zero, whatever the sign. */
  function ParityOf(x: int): (p: Parity) {
    if x % 2 == 0 then Even else Odd
  }

  /** The hint says "even" exactly for the even numbers. */
  lemma ParityMeaning(x: int)
    ensures ParityOf(x) == Even <==> exists k :: x == 2 * k
  {
    if x % 2 == 0 {
      assert x == 2 * (x / 2);
    }
  }

  function HintText(p: Parity): (h: string) {
    " Hint: The number is " + (if p == Even then "even" else "odd") + "."
  }

  /** The "Play Again" button is rendered exactly when this holds. */
  predicate PlayAgainVisible(message: string) {
    Contains(message, SuccessMarker)
  }

  /** The parity hint the message ends with, if it ends with one. */
  function HintOf(message: string): (p: Option<Parity>) {
    if EndsWith(message, HintText(Even)) then Some(Even)
    else if EndsWith(message, HintText(Odd)) then Some(Odd)
    else None
  }

  lemma CongratsShowsPlayAgain(count: int, seconds: int, rest: string)
    ensures PlayAgainVisible(CongratsMessage(count, seconds) + rest)
  {
    var tail := "! You've guessed the number in " + IntToDecimal(count)
      + " attempts! Elapsed Time: " + IntToDecimal(seconds) + " seconds";
    assert CongratsMessage(count, seconds) == SuccessMarker + tail;
    ContainsPrefix(SuccessMarker, tail);
    ContainsAppend(CongratsMessage(count, seconds), SuccessMarker, rest);
  }

  /** No 'C' occurs in a rendered integer, in any hint, in the too-low and
      too-high texts, or in the validation message, so none of them shows "Play Again". */
  lemma NoMarkerIn(s: string)
    requires 'C' !in s
    ensures !PlayAgainVisible(s)
  {
    AbsentFirstCharNotContained(s, SuccessMarker);
  }

  lemma NoCInDecimal(i: int)
    ensures 'C' !in IntToDecimal(i)
  {
    var s := IntToDecimal(i);
    assert forall k :: 0 <= k < |s| ==> s[k] != 'C';
  }

  lemma InvalidHidesPlayAgain(maxNumber: int, rest: string)
    requires 'C' !in rest
    ensures !PlayAgainVisible(InvalidMessage(maxNumber) + rest)
  {
    NoCInDecimal(maxNumber);
    assert 'C' !in "Please enter a valid number between 1 and ";
    NoMarkerIn(InvalidMessage(maxNumber) + rest);
  }

  lemma NoCInMisses()
    ensures 'C' !in TooLowMessage && 'C' !in TooHighMessage
  {
  }

  lemma NoCInHint(p: Parity)
    ensures 'C' !in HintText(p)
  {
  }

  /** A message that does not itself end in a hint reads back as no hint. */
  lemma NoHintRead(message: string)
    requires |message| >= 3
    requires message[|message| - 3..] != "en." && message[|message| - 3..] != "dd."
    ensures HintOf(message) == None
  {
  }

  /** Appending a hint to any message makes the message read back as that hint. */
  lemma {:induction false} HintReadBack(base: string, p: Parity)
    ensures HintOf(base + HintText(p)) == Some(p)
  {
    EndsWithAppend(base, HintText(p));
    if p == Odd {
      // the two hints differ in their third character from the end
      var s := base + HintText(Odd);
      var even := HintText(Even);
      assert s[|s| - 3] == HintText(Odd)[|HintText(Odd)| - 3] == 'd';
      assert even[|even| - 3] == 'e';
      EndsWithTail(s, even, 3);
    }
  }

  lemma TooLowHasNoHint()
    ensures HintOf(TooLowMessage) == None
  {
    NoHintRead(TooLowMessage);
  }

  lemma TooHighHasNoHint()
    ensures HintOf(TooHighMessage) == None
  {
    NoHintRead(TooHighMessage);
  }

  lemma CongratsHasNoHint(count: int, seconds: int)
    ensures HintOf(CongratsMessage(count, seconds)) == None
  {
    var m := CongratsMessage(count, seconds);
    AppendTail(m[..|m| - 8], " seconds", 3);
    assert m == m[..|m| - 8] + " seconds";
    NoHintRead(m);
  }

  lemma InvalidHasNoHint(maxNumber: int)
    ensures HintOf(InvalidMessage(maxNumber)) == None
  {
    var d := IntToDecimal(maxNumber);
    var m := InvalidMessage(maxNumber);
    assert m[|m| - 2] == d[|d| - 1];
    NoHintRead(m);
  }
}
