/**
 * The typing-test session as a value: its phase, the fixed word list (targets and
 * inputs side by side), the cursor and the keystroke counter, with one step
 * function per input event and the read-outs. The clock is an explicit `now`.
 */
module Sessions {

  import opened Options
  import opened Words

  /** Paused, running since `start`, or ended after `duration` clock units. */
  datatype TestState = Paused | Running(start: nat) | End(duration: nat)

  datatype Session = Session(
    state: TestState,
    targets: seq<string>,
    inputs: seq<Option<string>>,
    cursor: nat,
    ccount: nat)

  /** `Instant::elapsed` on a monotonic clock: saturates at zero. */
  function Since(start: nat, now: nat): nat
  {
    if start <= now then now - start else 0
  }

  /** The shape every operation needs before it can index the current word. */
  predicate Shaped(s: Session)
  {
    1 <= |s.targets| && |s.inputs| == |s.targets| && s.cursor < |s.targets|
  }

  /** Total number of characters held in all inputs. */
  function TotalChars(inputs: seq<Option<string>>): nat
  {
    if inputs == [] then 0
    else TotalChars(inputs[..|inputs| - 1]) + |Content(inputs[|inputs| - 1])|
  }

  /** Replacing one input changes the total by the difference of the two lengths. */
  lemma {:induction false} TotalCharsUpdate(inputs: seq<Option<string>>, k: nat, v: Option<string>)
    requires k < |inputs|
    ensures TotalChars(inputs[k := v]) + |Content(inputs[k])| == TotalChars(inputs) + |Content(v)|
  {
    var n := |inputs| - 1;
    if k < n {
      assert inputs[k := v][..n] == inputs[..n][k := v];
      TotalCharsUpdate(inputs[..n], k, v);
    } else {
      assert inputs[k := v][..n] == inputs[..n];
    }
  }

  /** The invariant of every reachable session. */
  predicate Inv(s: Session)
  {
    && Shaped(s)
    && (forall i :: 0 <= i < |s.inputs| ==> NonEmptyInput(s.inputs[i]))
    // every word before the cursor has input, every word after it has none
    && (forall i :: 0 <= i < s.cursor ==> s.inputs[i].Some?)
    && (forall i :: s.cursor < i < |s.inputs| ==> s.inputs[i].None?)
    && (s.state.Paused? ==>
          s.cursor == 0 && s.ccount == 0 && forall i :: 0 <= i < |s.inputs| ==> s.inputs[i].None?)
    && (s.state.End? ==> s.cursor == |s.targets| - 1)
    && s.ccount <= TotalChars(s.inputs)
  }

  /** `TestInstance::new`: the first `len` words of the corpus, all untouched. */
  function New(corpus: seq<string>, len: nat): (r: Session)
    ensures |r.targets| == Min(len, |corpus|) && |r.inputs| == |r.targets|
    ensures forall i :: 0 <= i < |r.targets| ==> r.targets[i] == corpus[i] && r.inputs[i].None?
    ensures r.state == Paused && r.cursor == 0 && r.ccount == 0
  {
    var n := Min(len, |corpus|);
    Session(Paused, corpus[..n], seq(n, _ => None), 0, 0)
  }

  lemma NewInv(corpus: seq<string>, len: nat)
    requires 1 <= len && 1 <= |corpus|
    ensures Inv(New(corpus, len))
    ensures |New(corpus, len).targets| == Min(len, |corpus|)
    ensures forall i :: 0 <= i < |New(corpus, len).targets| ==> New(corpus, len).targets[i] == corpus[i]
  {
  }

  /** `TestInstance::input`: start the clock when paused, then type `c` unless ended. */
  function InputStep(s: Session, c: char, now: nat): (r: Session)
    requires Shaped(s)
    ensures Shaped(r) && r.targets == s.targets && r.cursor == s.cursor
    ensures s.state.End? ==> r == s
    ensures !s.state.End? ==> r.state.Running? && r.ccount == s.ccount + 1
    ensures forall i :: 0 <= i < |s.inputs| && i != s.cursor ==> r.inputs[i] == s.inputs[i]
  {
    var state := if s.state.Paused? then Running(now) else s.state;
    if state.Paused? || state.Running? then
      s.(state := state,
         inputs := s.inputs[s.cursor := PushChar(s.inputs[s.cursor], c)],
         ccount := s.ccount + 1)
    else
      s.(state := state)
  }

  /**
   * The one state/event pair the source leaves undefined (`todo!`): space while
   * paused on the last word.
   */
  predicate SpaceDefined(s: Session)
  {
    !(s.state.Paused? && s.cursor == |s.targets| - 1)
  }

  /** `TestInstance::space`: advance past a typed word, or end the test on the last one. */
  function SpaceStep(s: Session, now: nat): (r: Session)
    requires Shaped(s) && SpaceDefined(s)
    ensures Shaped(r) && r.targets == s.targets && r.inputs == s.inputs && r.ccount == s.ccount
    ensures r.cursor == s.cursor || r.cursor == s.cursor + 1
    ensures r.state == s.state || (s.state.Running? && r.state == End(Since(s.state.start, now)))
  {
    if s.cursor < |s.targets| - 1 && s.inputs[s.cursor].Some? then
      s.(cursor := s.cursor + 1)
    else if s.cursor == |s.targets| - 1 then
      match s.state
      case Running(start) => s.(state := End(Since(start, now)))
      case End(d) => s.(state := End(d))
    else
      s
  }

  /**
   * `TestInstance::backspace`: while running, delete from the current word, retreat
   * one word when it had nothing to delete, and decrement the counter saturating.
   */
  function BackspaceStep(s: Session): (r: Session)
    requires Shaped(s)
    ensures Shaped(r) && r.targets == s.targets && r.state == s.state
    ensures r.cursor == s.cursor || r.cursor + 1 == s.cursor
    ensures r.ccount <= s.ccount
    ensures forall i :: 0 <= i < |s.inputs| && i != s.cursor ==> r.inputs[i] == s.inputs[i]
  {
    match s.state
    case Running(_) =>
      var deleted := s.inputs[s.cursor].Some?;
      var inputs := s.inputs[s.cursor := PopChar(s.inputs[s.cursor])];
      var cursor := if !deleted && s.cursor > 0 then s.cursor - 1 else s.cursor;
      s.(inputs := inputs, cursor := cursor, ccount := if s.ccount > 0 then s.ccount - 1 else 0)
    case _ => s
  }

  /** `TestInstance::elapsed`. */
  function Elapsed(state: TestState, now: nat): (r: Option<nat>)
    ensures r.None? <==> state.Paused?
    ensures state.End? ==> r == Some(state.duration)
    ensures state.Running? ==> r == Some(Since(state.start, now))
  {
    match state
    case Paused => None
    case Running(start) => Some(Since(start, now))
    case End(d) => Some(d)
  }

  /** A throughput: `count` per `duration`; the source scales it to a per-minute float. */
  datatype Rate = Rate(count: nat, duration: nat)

  /** `TestInstance::wpm`: the cursor position over the elapsed time. */
  function Wpm(s: Session, now: nat): (r: Option<Rate>)
    ensures r.None? <==> s.state.Paused?
    ensures r.Some? ==> r.value == Rate(s.cursor, Elapsed(s.state, now).value)
  {
    match Elapsed(s.state, now)
    case None => None
    case Some(d) => Some(Rate(s.cursor, d))
  }

  /** `TestInstance::cpm`: the keystroke counter over the elapsed time. */
  function Cpm(s: Session, now: nat): (r: Option<Rate>)
    ensures r.None? <==> s.state.Paused?
    ensures r.Some? ==> r.value == Rate(s.ccount, Elapsed(s.state, now).value)
  {
    match Elapsed(s.state, now)
    case None => None
    case Some(d) => Some(Rate(s.ccount, d))
  }

  // ---------------------------------------------------------------------------
  // Properties of one step

  lemma InputPreservesInv(s: Session, c: char, now: nat)
    requires Inv(s)
    ensures Inv(InputStep(s, c, now))
  {
    if !s.state.End? {
      TotalCharsUpdate(s.inputs, s.cursor, PushChar(s.inputs[s.cursor], c));
    }
  }

  lemma SpacePreservesInv(s: Session, now: nat)
    requires Inv(s) && SpaceDefined(s)
    ensures Inv(SpaceStep(s, now))
  {
  }

  lemma BackspacePreservesInv(s: Session)
    requires Inv(s)
    ensures Inv(BackspaceStep(s))
  {
    if s.state.Running? {
      TotalCharsUpdate(s.inputs, s.cursor, PopChar(s.inputs[s.cursor]));
    }
  }

  /** Typing appends to the current word only, counts one keystroke and starts the clock. */
  lemma InputEffect(s: Session, c: char, now: nat)
    requires Inv(s) && !s.state.End?
    ensures var r := InputStep(s, c, now);
      && r.inputs == s.inputs[s.cursor := PushChar(s.inputs[s.cursor], c)]
      && Content(r.inputs[s.cursor]) == Content(s.inputs[s.cursor]) + [c]
      && r.cursor == s.cursor && r.targets == s.targets
      && r.ccount == s.ccount + 1
      && r.state == (if s.state.Paused? then Running(now) else s.state)
  {
  }

  /**
   * Space moves the cursor up by exactly one, exactly when the current word has
   * input and is not the last; it ends the test exactly when a running test is on
   * its last word; it changes nothing else.
   */
  lemma SpaceEffect(s: Session, now: nat)
    requires Inv(s) && SpaceDefined(s)
    ensures var r := SpaceStep(s, now);
      && (r.cursor == s.cursor + 1 <==> s.cursor < |s.targets| - 1 && s.inputs[s.cursor].Some?)
      && (r.cursor == s.cursor || r.cursor == s.cursor + 1)
      && (r.state != s.state <==> s.state.Running? && s.cursor == |s.targets| - 1)
      && (r.state != s.state ==> r.state == End(Since(s.state.start, now)))
      && r.inputs == s.inputs && r.targets == s.targets && r.ccount == s.ccount
  {
  }

  /**
   * Backspace only acts while running: it moves the cursor down by exactly one,
   * exactly when the current word was untouched and the cursor was not at the first
   * word; it edits only the current word; the counter drops by one unless zero.
   */
  lemma BackspaceEffect(s: Session)
    requires Inv(s)
    ensures var r := BackspaceStep(s);
      && (!s.state.Running? ==> r == s)
      && (s.state.Running? ==>
            && (r.cursor + 1 == s.cursor <==> s.inputs[s.cursor].None? && s.cursor > 0)
            && (r.cursor == s.cursor || r.cursor + 1 == s.cursor)
            && r.inputs == s.inputs[s.cursor := PopChar(s.inputs[s.cursor])]
            && r.ccount == (if s.ccount == 0 then 0 else s.ccount - 1)
            && r.state == s.state && r.targets == s.targets)
  {
  }

  /** Once ended, no event changes anything, so the reported time stays fixed. */
  lemma EndAbsorbing(s: Session, c: char, now: nat)
    requires Inv(s) && s.state.End?
    ensures InputStep(s, c, now) == s
    ensures SpaceDefined(s) && SpaceStep(s, now) == s
    ensures BackspaceStep(s) == s
    ensures Elapsed(s.state, now) == Some(s.state.duration)
  {
  }

  /** The undefined space case needs a paused one-word session. */
  lemma SpaceUndefinedOnlyForOneWord(s: Session)
    requires Inv(s) && !SpaceDefined(s)
    ensures |s.targets| == 1
  {
  }

  // ---------------------------------------------------------------------------
  // Event sequences, as the driver feeds them

  /** One input event, carrying the clock reading at which it arrives. */
  datatype Event = Char(c: char, at: nat) | Space(at: nat) | Delete

  /**
   * Apply `events` in order; None when the source would hit its `todo!` (space
   * while paused on the last word).
   */
  function Run(s: Session, events: seq<Event>): (r: Option<Session>)
    requires Shaped(s)
    ensures r.Some? ==> Shaped(r.value) && r.value.targets == s.targets
    decreases |events|
  {
    if events == [] then Some(s)
    else
      match events[0]
      case Char(c, now) => Run(InputStep(s, c, now), events[1..])
      case Space(now) =>
        if SpaceDefined(s) then Run(SpaceStep(s, now), events[1..]) else None
      case Delete => Run(BackspaceStep(s), events[1..])
  }

  /**
   * Every event sequence keeps the invariant, and it never reaches the undefined
   * case unless the session has a single word.
   */
  lemma {:induction false} RunPreservesInv(s: Session, events: seq<Event>)
    requires Inv(s)
    ensures 2 <= |s.targets| ==> Run(s, events).Some?
    ensures Run(s, events).Some? ==> Inv(Run(s, events).value)
    decreases |events|
  {
    if events != [] {
      match events[0]
      case Char(c, now) =>
        InputPreservesInv(s, c, now);
        RunPreservesInv(InputStep(s, c, now), events[1..]);
      case Space(now) =>
        if SpaceDefined(s) {
          SpacePreservesInv(s, now);
          RunPreservesInv(SpaceStep(s, now), events[1..]);
        }
      case Delete =>
        BackspacePreservesInv(s);
        RunPreservesInv(BackspaceStep(s), events[1..]);
    }
  }

  /** Every session reachable from a fresh one satisfies the invariant. */
  lemma Reachable(corpus: seq<string>, len: nat, events: seq<Event>)
    requires 1 <= len && 1 <= |corpus|
    ensures Inv(New(corpus, len))
    ensures 2 <= Min(len, |corpus|) ==> Run(New(corpus, len), events).Some?
    ensures Run(New(corpus, len), events).Some? ==> Inv(Run(New(corpus, len), events).value)
  {
    NewInv(corpus, len);
    RunPreservesInv(New(corpus, len), events);
  }

  /** The events of a two-word session: type "cat", space, type "do", space. */
  const CatDogEvents := [Char('c', 10), Char('a', 11), Char('t', 12), Space(13),
                         Char('d', 14), Char('o', 15), Space(19)]

  /** The session after each of the events above. */
  lemma CatDogSteps()
    ensures New(["cat", "dog"], 2) == Session(Paused, ["cat", "dog"], [None, None], 0, 0)
    ensures InputStep(Session(Paused, ["cat", "dog"], [None, None], 0, 0), 'c', 10)
         == Session(Running(10), ["cat", "dog"], [Some("c"), None], 0, 1)
    ensures InputStep(Session(Running(10), ["cat", "dog"], [Some("c"), None], 0, 1), 'a', 11)
         == Session(Running(10), ["cat", "dog"], [Some("ca"), None], 0, 2)
    ensures InputStep(Session(Running(10), ["cat", "dog"], [Some("ca"), None], 0, 2), 't', 12)
         == Session(Running(10), ["cat", "dog"], [Some("cat"), None], 0, 3)
    ensures SpaceStep(Session(Running(10), ["cat", "dog"], [Some("cat"), None], 0, 3), 13)
         == Session(Running(10), ["cat", "dog"], [Some("cat"), None], 1, 3)
    ensures InputStep(Session(Running(10), ["cat", "dog"], [Some("cat"), None], 1, 3), 'd', 14)
         == Session(Running(10), ["cat", "dog"], [Some("cat"), Some("d")], 1, 4)
    ensures InputStep(Session(Running(10), ["cat", "dog"], [Some("cat"), Some("d")], 1, 4), 'o', 15)
         == Session(Running(10), ["cat", "dog"], [Some("cat"), Some("do")], 1, 5)
    ensures SpaceStep(Session(Running(10), ["cat", "dog"], [Some("cat"), Some("do")], 1, 5), 19)
         == Session(End(9), ["cat", "dog"], [Some("cat"), Some("do")], 1, 5)
  {
    assert ["cat", "dog"][..2] == ["cat", "dog"];
    assert "c" + ['a'] == "ca" && "ca" + ['t'] == "cat" && "d" + ['o'] == "do";
  }

  /**
   * Running those events ends the test on the second space with the cursor on the
   * last word, one word and five keystrokes counted.
   */
  lemma CatDogScenario()
    ensures var r := Run(New(["cat", "dog"], 2), CatDogEvents);
      && r == Some(Session(End(9), ["cat", "dog"], [Some("cat"), Some("do")], 1, 5))
      && Wpm(r.value, 100) == Some(Rate(1, 9))
  {
    var e := CatDogEvents;
    var t := ["cat", "dog"];
    var s0 := Session(Paused, t, [None, None], 0, 0);
    var s1 := Session(Running(10), t, [Some("c"), None], 0, 1);
    var s2 := Session(Running(10), t, [Some("ca"), None], 0, 2);
    var s3 := Session(Running(10), t, [Some("cat"), None], 0, 3);
    var s4 := Session(Running(10), t, [Some("cat"), None], 1, 3);
    var s5 := Session(Running(10), t, [Some("cat"), Some("d")], 1, 4);
    var s6 := Session(Running(10), t, [Some("cat"), Some("do")], 1, 5);
    var s7 := Session(End(9), t, [Some("cat"), Some("do")], 1, 5);
    CatDogSteps();
    assert Run(s0, e) == Run(s1, e[1..]);
    assert Run(s1, e[1..]) == Run(s2, e[2..]);
    assert Run(s2, e[2..]) == Run(s3, e[3..]);
    assert Run(s3, e[3..]) == Run(s4, e[4..]);
    assert Run(s4, e[4..]) == Run(s5, e[5..]);
    assert Run(s5, e[5..]) == Run(s6, e[6..]);
    assert Run(s6, e[6..]) == Run(s7, e[7..]);
    assert e[7..] == [];
  }

  /** In that session "cat" is correct, "do" is not, and its third letter is untyped. */
  lemma CatDogWords()
    ensures CorrectOf("cat", Some("cat"))
    ensures !CorrectOf("dog", Some("do"))
    ensures ScoreOf("dog", Some("do")) == [Correct, Correct, NoInput]
  {
    assert ScoreOf("dog", Some("do"))[2] == NoInput;
  }

  // ---------------------------------------------------------------------------
  // The rendered line

  /** The separator that follows every word. */
  const Gap := Unit(" ", Plain, false)

  function Underline(units: seq<Unit>): seq<Unit>
  {
    seq(|units|, i requires 0 <= i < |units| => units[i].(underlined := true))
  }

  /** One word's units, underlined when flagged, followed by the separator. */
  function Block(letters: string, input: Option<string>, flagged: bool): seq<Unit>
  {
    var spans := SpanvecOf(letters, input);
    (if flagged then Underline(spans) else spans) + [Gap]
  }

  function Blocks(targets: seq<string>, inputs: seq<Option<string>>, cursor: nat): (r: seq<seq<Unit>>)
    requires |inputs| == |targets|
    ensures |r| == |targets|
  {
    seq(|targets|, i requires 0 <= i < |targets| =>
      Block(targets[i], inputs[i], i < cursor && !CorrectOf(targets[i], inputs[i])))
  }

  function Flatten(blocks: seq<seq<Unit>>): seq<Unit>
  {
    if blocks == [] then [] else blocks[0] + Flatten(blocks[1..])
  }

  /** `TestInstance::rtui_line`: the blocks of all words fill the whole line. */
  function Line(targets: seq<string>, inputs: seq<Option<string>>, cursor: nat): (r: seq<Unit>)
    requires |inputs| == |targets|
    ensures |r| == Offset(targets, inputs, cursor, |targets|)
  {
    assert Blocks(targets, inputs, cursor)[..|targets|] == Blocks(targets, inputs, cursor);
    Flatten(Blocks(targets, inputs, cursor))
  }

  lemma {:induction false} FlattenAt(blocks: seq<seq<Unit>>, k: nat, j: nat)
    requires k < |blocks| && j < |blocks[k]|
    ensures |Flatten(blocks[..k])| + j < |Flatten(blocks)|
    ensures Flatten(blocks)[|Flatten(blocks[..k])| + j] == blocks[k][j]
  {
    if k == 0 {
      assert blocks[..0] == [];
    } else {
      FlattenAt(blocks[1..], k - 1, j);
      assert blocks[..k] == [blocks[0]] + blocks[1..][..k - 1];
      assert Flatten(blocks[..k]) == blocks[0] + Flatten(blocks[1..][..k - 1]);
    }
  }

  /** Where the units of word `k` start in the line: the total size of the blocks before it. */
  function Offset(targets: seq<string>, inputs: seq<Option<string>>, cursor: nat, k: nat): (r: nat)
    requires |inputs| == |targets| && k <= |targets|
    ensures k == 0 ==> r == 0
  {
    assert k == 0 ==> Blocks(targets, inputs, cursor)[..k] == [];
    |Flatten(Blocks(targets, inputs, cursor)[..k])|
  }

  /** Flattening one more block appends it at the end. */
  lemma {:induction false} FlattenSnoc(blocks: seq<seq<Unit>>, k: nat)
    requires k < |blocks|
    ensures Flatten(blocks[..k + 1]) == Flatten(blocks[..k]) + blocks[k]
  {
    if k == 0 {
      assert blocks[..1] == [blocks[0]];
      assert blocks[..0] == [];
    } else {
      FlattenSnoc(blocks[1..], k - 1);
      assert blocks[..k + 1][1..] == blocks[1..][..k];
      assert blocks[..k][1..] == blocks[1..][..k - 1];
    }
  }

  /** Word `k + 1` starts right after word `k`'s spans and its separator. */
  lemma OffsetStep(targets: seq<string>, inputs: seq<Option<string>>, cursor: nat, k: nat)
    requires |inputs| == |targets| && k < |targets|
    ensures Offset(targets, inputs, cursor, k + 1)
         == Offset(targets, inputs, cursor, k) + |SpanvecOf(targets[k], inputs[k])| + 1
  {
    var blocks := Blocks(targets, inputs, cursor);
    var flagged := k < cursor && !CorrectOf(targets[k], inputs[k]);
    FlattenSnoc(blocks, k);
    assert blocks[k] == Block(targets[k], inputs[k], flagged);
    BlockAt(targets[k], inputs[k], flagged, 0);
  }

  /** One word's block: its spans, underlined when flagged, then the separator. */
  lemma BlockAt(letters: string, input: Option<string>, flagged: bool, j: nat)
    requires j <= |SpanvecOf(letters, input)|
    ensures var spans := SpanvecOf(letters, input);
      var b := Block(letters, input, flagged);
      && |b| == |spans| + 1
      && (j == |spans| ==> b[j] == Gap)
      && (j < |spans| ==>
            b[j].text == spans[j].text && b[j].style == spans[j].style
            && (b[j].underlined <==> flagged || spans[j].underlined))
  {
  }

  /** The units of word `k` sit at `Offset(k)` in the line, in order. */
  lemma LineBlockAt(targets: seq<string>, inputs: seq<Option<string>>, cursor: nat, k: nat, j: nat)
    requires |inputs| == |targets| && k < |targets|
    requires j < |Blocks(targets, inputs, cursor)[k]|
    ensures Offset(targets, inputs, cursor, k) + j < |Line(targets, inputs, cursor)|
    ensures Line(targets, inputs, cursor)[Offset(targets, inputs, cursor, k) + j]
         == Blocks(targets, inputs, cursor)[k][j]
  {
    FlattenAt(Blocks(targets, inputs, cursor), k, j);
  }

  /**
   * In the line, word `k` is its spans, underlined exactly when the word is before
   * the cursor and not correct, followed by one plain, non-underlined space.
   */
  lemma LineAt(targets: seq<string>, inputs: seq<Option<string>>, cursor: nat, k: nat, j: nat)
    requires |inputs| == |targets| && k < |targets|
    requires j <= |SpanvecOf(targets[k], inputs[k])|
    ensures var spans := SpanvecOf(targets[k], inputs[k]);
      var o := Offset(targets, inputs, cursor, k);
      var line := Line(targets, inputs, cursor);
      && o + j < |line|
      && (j == |spans| ==> line[o + j] == Gap)
      && (j < |spans| ==>
            && line[o + j].text == spans[j].text
            && line[o + j].style == spans[j].style
            && (line[o + j].underlined <==> k < cursor && !CorrectOf(targets[k], inputs[k])))
  {
    var flagged := k < cursor && !CorrectOf(targets[k], inputs[k]);
    assert Blocks(targets, inputs, cursor)[k] == Block(targets[k], inputs[k], flagged);
    BlockAt(targets[k], inputs[k], flagged, j);
    LineBlockAt(targets, inputs, cursor, k, j);
  }
}
