# ttypetest typing-test engine, modelled in Dafny

This project models the engine of a terminal typing-speed test (`src/test_instance.rs`).
The engine has two layers.

- A **word** is a target string plus an optional input. The input is absent until the
  first keystroke and is never present-but-empty. Each word can be scored position by
  position (`NoInput`, `Correct`, `Incorrect`), checked for an exact match, and
  projected into styled units for display.
- A **test instance** is a three-phase state machine: `Paused`, `Running(start)`,
  `End(duration)`. It owns a fixed list of words, a cursor on the current word and a
  keystroke counter. It reacts to three events (a character, space, backspace). Its
  read-outs are the elapsed time, the throughput numerators behind words-per-minute and
  characters-per-minute, and the rendered line.

Files and modules:

- `options.dfy`, module `Options`: the `Option` type.
- `word.dfy`, module `Words`: the scoring and rendering functions over
  `(letters, input)` values, and class `Word`. Its methods `Input` and `Backspace`
  mutate the input in place. Its method `Score` builds the score with the source's
  padding loops.
- `session.dfy`, module `Sessions`: the session as a value, `Session`. It has one step
  function per event (`InputStep`, `SpaceStep`, `BackspaceStep`), the read-outs
  (`Elapsed`, `Wpm`, `Cpm`, `Line`), the invariant `Inv`, and `Run`, which applies a
  sequence of events.
- `test_instance.dfy`, module `TestInstances`: class `TestInstance` with the source's
  fields. Each event method is proved to turn `Model()` into the matching step of
  `Sessions`, and to keep `Valid()`. `Valid()` says the words are distinct objects and
  `Inv` holds.

Modelling choices:

- **Clock.** Time is an explicit `now: nat` argument to `Input`, `Space` and the
  read-outs. A `Duration` is a `nat`. Like `Instant::elapsed`, `Since` saturates at
  zero.
- **Text.** Strings are `seq<char>` and the text is assumed to be ASCII. Under that
  assumption the source's byte lengths and character counts agree.
- **Styles.** Colours become the abstract tags `Dim` (gray and dim), `Green`, `Red` and
  `Plain` (raw). A rendered span is `Unit(text, style, underlined)`.
- **Rates.** `wpm`/`cpm` become a `Rate(count, duration)` pair. The count is the cursor
  or the keystroke counter.
- **Undefined space.** Space while paused on the last word hits `todo!` in the source
  (src/test_instance.rs:190). The model makes it the precondition `SpaceDefined`
  rather than a no-op. `Run` returns `None` when an event sequence reaches it. `SpaceUndefinedOnlyForOneWord` and `RunPreservesInv` show this
  needs a one-word session.
- **Empty targets.** `is_correct` (src/test_instance.rs:57-62) asks that every score
  entry be `Correct`. An untouched word with an empty target has an empty score, so it
  counts as correct (`CorrectOf`, `AllCorrectIff`). An untouched word with a non-empty
  target is never correct.

## Model

| member | source | states |
|---|---|---|
| `Words.PushChar` | src/test_instance.rs:28-34 | typing appends exactly the one character to what was typed, and the result is a present, non-empty input |
| `Words.PopChar` | src/test_instance.rs:38-48 | backspace drops the last character; an input of at most one character collapses to absent; the result is never present-but-empty |
| `Words.PushPopRoundTrip` | src/test_instance.rs:28-48 | on any valid input, backspace after typing a character restores the previous input, including back to absent |
| `Words.Word.constructor` | src/test_instance.rs:21-26 | a new word holds its target and no input |
| `Words.Word.Input` | src/test_instance.rs:28-34 | the in-place push turns the input into `PushChar` of the old input and keeps it non-empty |
| `Words.Word.Backspace` | src/test_instance.rs:36-48 | returns true exactly when there was input; the in-place pop turns the input into `PopChar` of the old input |
| `Words.ZipScore` | src/test_instance.rs:66-77 | the zipped comparison has one entry per position both strings have, and that entry is Correct exactly when the characters agree |
| `Words.ScoreOf` | src/test_instance.rs:64-93 | untouched: `|letters|` entries, all NoInput; with input: `max(|letters|, |input|)` entries, Correct exactly where both have the same character, NoInput exactly past the end of the input, Incorrect elsewhere |
| `Words.Word.Score` | src/test_instance.rs:64-93 | the padding loops build exactly `ScoreOf` of the word |
| `Words.AllCorrectIff` | src/test_instance.rs:57-62 | every score entry is Correct exactly when the typed text equals the target; an untouched word scores all Correct only if its target is empty |
| `Words.CorrectOf` | src/test_instance.rs:57-62 | `is_correct` holds exactly when the typed text equals the target (proved by `AllCorrectIff`) |
| `Words.Word.HasInput` | src/test_instance.rs:50-55 | for a valid word (input never present but empty), having input is the same as having typed at least one character |
| `Words.SpanAt` | src/test_instance.rs:100-115 | a span is one character: the target's letter styled by its score, or past the target the typed character in red; its precondition is the condition under which the source neither panics nor indexes past the input |
| `Words.SpanvecNeverPanics` | src/test_instance.rs:108-114 | every position past the target lies inside the input and scores Incorrect, so the `panic!` arm is unreachable |
| `Words.SpanvecOf` | src/test_instance.rs:95-121 | with input: one non-underlined unit per score entry, holding the target letter (or the extra typed letter) in the colour of its score; untouched: exactly one dim unit holding the whole target |
| `Sessions.New` | src/test_instance.rs:140-151 | a new session is paused, has `min(len, |corpus|)` words taken in order from the corpus, all untouched, its cursor at 0 and its counter at 0 |
| `Sessions.NewInv` | src/test_instance.rs:139-151 | with at least one word, a new session satisfies the invariant |
| `Sessions.InputStep` | src/test_instance.rs:153-165 | typing keeps the word list and the cursor, leaves an ended session unchanged, otherwise leaves the test running with one more keystroke, and edits no word but the current one; see `InputEffect` and `InputPreservesInv` for the full effect |
| `Sessions.SpaceStep` | src/test_instance.rs:185-195 | space changes no input and not the counter, moves the cursor by at most one forward, and changes the phase only from running to ended with the time since start; see `SpaceEffect` and `SpacePreservesInv` |
| `Sessions.BackspaceStep` | src/test_instance.rs:197-210 | backspace keeps the word list and the phase, moves the cursor by at most one back, never raises the counter, and edits no word but the current one; see `BackspaceEffect` and `BackspacePreservesInv` |
| `Sessions.InputPreservesInv` | src/test_instance.rs:153-165 | typing keeps the invariant: cursor in range, no empty input, typed words before the cursor and untouched words after it, counter at most the characters held |
| `Sessions.SpacePreservesInv` | src/test_instance.rs:185-195 | space keeps the invariant, including cursor on the last word once ended |
| `Sessions.BackspacePreservesInv` | src/test_instance.rs:197-210 | backspace keeps the invariant, including the counter bound after a cursor retreat |
| `Sessions.InputEffect` | src/test_instance.rs:153-165 | outside End, typing starts the clock at `now` when paused, appends to the current word only, counts one keystroke and leaves the cursor alone |
| `Sessions.SpaceEffect` | src/test_instance.rs:185-195 | the cursor rises by exactly one, exactly when the current word has input and is not last; the phase changes exactly when a running test is on its last word, to End with the time since start; inputs and counter are untouched |
| `Sessions.BackspaceEffect` | src/test_instance.rs:197-210 | no-op unless running; the cursor drops by exactly one, exactly when the current word was untouched and not the first; only the current word is edited; the counter drops by one unless already zero |
| `Sessions.EndAbsorbing` | src/test_instance.rs:153-210 | once ended, typing, space and backspace change nothing, and the elapsed time is the captured duration at every clock reading |
| `Sessions.SpaceUndefinedOnlyForOneWord` | src/test_instance.rs:188-190 | on a reachable session the `todo!` case needs a session of exactly one word |
| `Sessions.Elapsed` | src/test_instance.rs:167-173 | absent exactly while paused; the time since start while running; the captured duration once ended |
| `Sessions.Wpm` | src/test_instance.rs:175-178 | available exactly when not paused; the numerator is the cursor and the denominator is the elapsed time |
| `Sessions.Cpm` | src/test_instance.rs:180-183 | available exactly when not paused; the numerator is the keystroke counter and the denominator is the elapsed time |
| `Sessions.Run` | src/test_instance.rs:153-210 | applying events never resizes or retargets the word list and keeps the cursor in range |
| `Sessions.RunPreservesInv` | src/test_instance.rs:153-210 | every event sequence from a session satisfying the invariant keeps it, and with two or more words it never reaches the `todo!` |
| `Sessions.Reachable` | src/test_instance.rs:139-210 | every session reachable from `new` by events satisfies the invariant |
| `Sessions.CatDogSteps` | src/test_instance.rs:153-195 | the exact session after each event of a two-word run |
| `Sessions.CatDogScenario` | src/test_instance.rs:153-195 | typing "cat", space, "do", space on corpus ["cat", "dog"] ends the test on the last word with duration 9, cursor 1 and five keystrokes |
| `Sessions.CatDogWords` | src/test_instance.rs:57-93 | "cat" typed on "cat" is correct; "do" typed on "dog" is not, and scores Correct, Correct, NoInput |
| `Sessions.Line` | src/test_instance.rs:212-227 | the line is exactly as long as all word blocks together: it ends at `Offset(|targets|)` |
| `Sessions.Offset` | src/test_instance.rs:213-225 | the first word's units start at position 0 |
| `Sessions.FlattenSnoc` | src/test_instance.rs:225 | flattening one more word's units appends them after the earlier words' units |
| `Sessions.OffsetStep` | src/test_instance.rs:213-226 | word k+1's units start right after word k's spans and its separator, so the blocks come in word order with no gaps |
| `Sessions.LineAt` | src/test_instance.rs:212-227 | in the rendered line, word k's units, from `Offset(k)`, are its spans, underlined exactly when k is before the cursor and the word is not correct, followed by one plain, non-underlined " " unit, the last word included; with `Offset`, `OffsetStep` and `Line` this covers the whole line in order |
| `TestInstances.TestInstance.constructor` | src/test_instance.rs:140-151 | the new object's model is `New(corpus, len)`, over fresh, distinct word objects |
| `TestInstances.TestInstance.Input` | src/test_instance.rs:153-165 | the in-place update equals `InputStep` of the old model and keeps the invariant |
| `TestInstances.TestInstance.Space` | src/test_instance.rs:185-195 | the in-place update equals `SpaceStep` of the old model and keeps the invariant |
| `TestInstances.TestInstance.Backspace` | src/test_instance.rs:197-210 | the in-place update equals `BackspaceStep` of the old model and keeps the invariant |

## Left out

- `src/main.rs` as a whole is not part of this model. It reads the corpus file,
  shuffles it, runs the async redraw and event loop, routes keys, and lays out widgets.
  All of that is I/O, randomness, concurrency or UI. Reset is the driver building a new
  `TestInstance`.
- Floating point: `wpm`/`cpm` divide by the elapsed seconds as `f64` and scale by 60.
  The model keeps only their availability and their numerator and denominator (`Rate`).
- The clock: `Instant::now()` and `Instant::elapsed()` become the `now` argument and
  `Since`.
- Terminal styles: the rendering library's colour, dim, underline and raw spans become
  abstract tags. The line is a sequence of `Unit`s rather than a library `Line`.
- Non-ASCII text: the source mixes byte lengths with character iteration. Under the
  ASCII assumption those agree, and the multi-byte case is not modelled.
- `input_ccount` is a `u32` in the source and a `nat` here. Its overflow after about
  four billion keystrokes is not modelled.
- An empty word list: `new` on an empty corpus or with `len == 0` gives a session that
  the source cannot use. `len() - 1` underflows and indexing fails. The constructor and
  `NewInv` therefore require at least one word.
- The class read-outs `TestInstance.Elapsed`, `Wpm`, `Cpm` and `RtuiLine`, and the word
  queries `Word.IsCorrect` and `Word.Spanvec`, delegate to the module functions above.
  Their properties are stated there.
