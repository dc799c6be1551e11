/**
 * One word of a typing test: the target letters and what has been typed for it.
 * Strings are sequences of characters; the text is assumed to be ASCII, so the
 * source's byte lengths and character counts agree.
 */
module Words {

  import opened Options

  /** Classification of one position of a word's input against its target. */
  datatype LetterScore = NoInput | Correct | Incorrect

  /** Abstract stand-ins for the terminal styles: gray-dim, green, red and the raw style. */
  datatype Style = Dim | Green | Red | Plain

  /** One styled span of rendered text. */
  datatype Unit = Unit(text: string, style: Style, underlined: bool)

  function Min(a: nat, b: nat): nat { if a <= b then a else b }

  function Max(a: nat, b: nat): nat { if a <= b then b else a }

  /** The characters typed so far; an absent input holds none. */
  function Content(input: Option<string>): string
  {
    match input
    case None => []
    case Some(s) => s
  }

  /** An input is never present but empty: backspacing its last character makes it absent. */
  predicate NonEmptyInput(input: Option<string>)
  {
    input != Some([])
  }

  /** The effect of `Word::input` on the input: append `c`, creating the input when absent. */
  function PushChar(input: Option<string>, c: char): (r: Option<string>)
    ensures r.Some? && r.value == Content(input) + [c]
    ensures NonEmptyInput(r)
  {
    match input
    case Some(s) => Some(s + [c])
    case None => Some([c])
  }

  /**
   * The effect of `Word::backspace` on the input: drop the last character and
   * collapse an emptied input back to absent.
   */
  function PopChar(input: Option<string>): (r: Option<string>)
    ensures NonEmptyInput(r)
    ensures |Content(input)| <= 1 ==> r == None
    ensures |Content(input)| > 0 ==> Content(r) == Content(input)[..|Content(input)| - 1]
  {
    match input
    case Some(s) =>
      var t := if |s| == 0 then s else s[..|s| - 1];
      if |t| == 0 then None else Some(t)
    case None => None
  }

  /** Backspace undoes one typed character, down to the untouched state. */
  lemma PushPopRoundTrip(input: Option<string>, c: char)
    requires NonEmptyInput(input)
    ensures PopChar(PushChar(input, c)) == input
  {
  }

  function Compare(a: char, b: char): LetterScore
  {
    if a == b then Correct else Incorrect
  }

  /** The zipped part of the score: one comparison per position both strings have. */
  function ZipScore(letters: string, typed: string): (r: seq<LetterScore>)
    ensures |r| == Min(|letters|, |typed|)
    ensures forall i :: 0 <= i < |r| ==> r[i] == Compare(letters[i], typed[i])
  {
    if letters == [] || typed == [] then []
    else [Compare(letters[0], typed[0])] + ZipScore(letters[1..], typed[1..])
  }

  /**
   * `Word::score`: the zipped comparisons, padded with NoInput up to the target's
   * length or with Incorrect up to the input's length; all NoInput when untouched.
   */
  function ScoreOf(letters: string, input: Option<string>): (r: seq<LetterScore>)
    ensures input.None? ==> |r| == |letters|
    ensures input.None? ==> forall i :: 0 <= i < |r| ==> r[i] == NoInput
    ensures input.Some? ==> |r| == Max(|letters|, |input.value|)
    ensures input.Some? ==> forall i :: 0 <= i < |r| ==>
      (r[i] == Correct <==> i < |letters| && i < |input.value| && letters[i] == input.value[i])
    ensures input.Some? ==> forall i :: 0 <= i < |r| ==>
      (r[i] == NoInput <==> |input.value| <= i)
  {
    match input
    case None => seq(|letters|, _ => NoInput)
    case Some(s) =>
      var v := ZipScore(letters, s);
      if |letters| > |s| then v + seq(|letters| - |v|, _ => NoInput)
      else if |s| > |letters| then v + seq(|s| - |v|, _ => Incorrect)
      else v
  }

  predicate AllCorrect(score: seq<LetterScore>)
  {
    forall i :: 0 <= i < |score| ==> score[i] == Correct
  }

  /**
   * Every score entry is Correct exactly when what was typed equals the target;
   * an untouched word therefore scores all Correct only when its target is empty.
   */
  lemma AllCorrectIff(letters: string, input: Option<string>)
    ensures AllCorrect(ScoreOf(letters, input)) <==> Content(input) == letters
  {
    var r := ScoreOf(letters, input);
    match input
    case None =>
      if letters != [] {
        assert r[0] == NoInput;
      }
    case Some(s) =>
      if AllCorrect(r) {
        if |letters| + |s| > 0 {
          // the last scored position is Correct only when both strings reach it
          assert r[Max(|letters|, |s|) - 1] == Correct;
        }
        assert forall i :: 0 <= i < |s| ==> s[i] == letters[i] by {
          forall i | 0 <= i < |s| ensures s[i] == letters[i] {
            assert r[i] == Correct;
          }
        }
      }
  }

  /** `Word::is_correct`: every scored position is Correct. */
  predicate CorrectOf(letters: string, input: Option<string>)
    ensures CorrectOf(letters, input) <==> Content(input) == letters
  {
    AllCorrectIff(letters, input);
    AllCorrect(ScoreOf(letters, input))
  }

  function Colour(score: LetterScore): Style
  {
    match score
    case NoInput => Dim
    case Correct => Green
    case Incorrect => Red
  }

  /**
   * One span of `Word::spanvec` for position `i` with score `score`. The
   * precondition is the condition under which the source neither panics nor
   * indexes past the input.
   */
  function SpanAt(letters: string, typed: string, i: nat, score: LetterScore): (u: Unit)
    requires i < |letters| || (i < |typed| && score == Incorrect)
    ensures !u.underlined && |u.text| == 1
    ensures u.text[0] == (if i < |letters| then letters[i] else typed[i])
    ensures u.style == Colour(score)
  {
    if i < |letters| then Unit([letters[i]], Colour(score), false)
    else
      match score
      case Incorrect => Unit([typed[i]], Red, false)
  }

  /** Every position past the target scores Incorrect and lies inside the input. */
  lemma SpanvecNeverPanics(letters: string, typed: string, i: nat)
    requires |letters| <= i < |ScoreOf(letters, Some(typed))|
    ensures i < |typed| && ScoreOf(letters, Some(typed))[i] == Incorrect
  {
  }

  /**
   * `Word::spanvec`: one single-character unit per scored position when the word
   * has input; a single dim unit holding the whole target when it has none.
   */
  function SpanvecOf(letters: string, input: Option<string>): (r: seq<Unit>)
    ensures input.None? ==> r == [Unit(letters, Dim, false)]
    ensures input.Some? ==> |r| == |ScoreOf(letters, input)|
    ensures input.Some? ==> forall i :: 0 <= i < |r| ==>
      && !r[i].underlined
      && r[i].text == [if i < |letters| then letters[i] else input.value[i]]
      && r[i].style == Colour(ScoreOf(letters, input)[i])
  {
    match input
    case None => [Unit(letters, Dim, false)]
    case Some(s) =>
      var score := ScoreOf(letters, input);
      seq(|score|, i requires 0 <= i < |score| => SpanAt(letters, s, i, score[i]))
  }

  /** A word whose input is mutated in place by typing and backspace. */
  class Word {
    const letters: string
    var input: Option<string>

    predicate Valid()
      reads this
    {
      NonEmptyInput(input)
    }

    constructor (letters: string)
      ensures this.letters == letters && input == None
      ensures Valid()
    {
      this.letters := letters;
      input := None;
    }

    method Input(c: char)
      modifies this
      ensures input == PushChar(old(input), c)
      ensures Valid()
    {
      match input
      case Some(s) => input := Some(s + [c]);
      case None => input := Some([c]);
    }

    /** Returns whether a character was deleted, i.e. whether there was any input. */
    method Backspace() returns (deleted: bool)
      modifies this
      ensures deleted == old(input).Some?
      ensures input == PopChar(old(input))
      ensures Valid()
    {
      match input
      case Some(s) =>
        var t := if |s| == 0 then s else s[..|s| - 1];
        input := if |t| == 0 then None else Some(t);
        deleted := true;
      case None =>
        deleted := false;
    }

    /** With the input never present but empty, having input means having typed something. */
    predicate HasInput()
      reads this
      ensures Valid() ==> (HasInput() <==> Content(input) != [])
    {
      input.Some?
    }

    predicate IsCorrect()
      reads this
    {
      CorrectOf(letters, input)
    }

    /** Builds the score with the source's padding loops. */
    method Score() returns (v: seq<LetterScore>)
      ensures v == ScoreOf(letters, input)
    {
      match input
      case None =>
        v := seq(|letters|, _ => NoInput);
      case Some(s) =>
        var zipped := ZipScore(letters, s);
        v := zipped;
        if |letters| > |s| {
          while |v| < |letters|
            invariant |zipped| <= |v| <= |letters|
            invariant v == zipped + seq(|v| - |zipped|, _ => NoInput)
          {
            v := v + [NoInput];
          }
        } else if |s| > |letters| {
          while |v| < |s|
            invariant |zipped| <= |v| <= |s|
            invariant v == zipped + seq(|v| - |zipped|, _ => Incorrect)
          {
            v := v + [Incorrect];
          }
        }
    }

    function Spanvec(): seq<Unit>
      reads this
    {
      SpanvecOf(letters, input)
    }
  }
}
