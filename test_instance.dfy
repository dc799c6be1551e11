/**
 * The typing-test engine as the driver holds it: an object whose event methods
 * update its phase, cursor and counter and the words it owns. Each method is
 * proved against the matching step function of `Sessions` through `Model()`.
 */
module TestInstances {

  import opened Options
  import opened Words
  import opened Sessions

  class TestInstance {
    var state: TestState
    const words: seq<Word>
    var currentWord: nat
    var inputCcount: nat

    function Targets(): (r: seq<string>)
      ensures |r| == |words|
    {
      seq(|words|, i requires 0 <= i < |words| => words[i].letters)
    }

    function Inputs(): (r: seq<Option<string>>)
      reads words
      ensures |r| == |words|
    {
      seq(|words|, i requires 0 <= i < |words| reads words => words[i].input)
    }

    /** The session value this object stands for. */
    function Model(): Session
      reads this, words
    {
      Session(state, Targets(), Inputs(), currentWord, inputCcount)
    }

    /** The words are distinct objects (the source owns them by value) and the session invariant holds. */
    ghost predicate Valid()
      reads this, words
    {
      && (forall i, j :: 0 <= i < j < |words| ==> words[i] != words[j])
      && Inv(Model())
    }

    /** `TestInstance::new`; the source needs at least one word to index. */
    constructor (corpus: seq<string>, len: nat)
      requires 1 <= len && 1 <= |corpus|
      ensures Valid()
      ensures Model() == New(corpus, len)
      ensures forall i :: 0 <= i < |words| ==> fresh(words[i])
    {
      var n := Min(len, |corpus|);
      var ws: seq<Word> := [];
      while |ws| < n
        invariant |ws| <= n
        invariant forall i :: 0 <= i < |ws| ==> fresh(ws[i])
        invariant forall i :: 0 <= i < |ws| ==> ws[i].letters == corpus[i] && ws[i].input == None
        invariant forall i, j :: 0 <= i < j < |ws| ==> ws[i] != ws[j]
      {
        var w := new Word(corpus[|ws|]);
        ws := ws + [w];
      }
      state := Paused;
      words := ws;
      currentWord := 0;
      inputCcount := 0;
      new;
      assert Targets() == corpus[..n];
      assert Inputs() == seq(n, _ => None);
      NewInv(corpus, len);
    }

    method Input(c: char, now: nat)
      requires Valid()
      modifies this, words[currentWord]
      ensures Valid()
      ensures Model() == InputStep(old(Model()), c, now)
    {
      ghost var before := Model();
      InputPreservesInv(before, c, now);
      state := if state.Paused? then Running(now) else state;
      if state.Paused? || state.Running? {
        words[currentWord].Input(c);
        inputCcount := inputCcount + 1;
      }
      assert Inputs() == before.inputs[currentWord := words[currentWord].input];
    }

    function Elapsed(now: nat): Option<nat>
      reads this
    {
      Sessions.Elapsed(state, now)
    }

    function Wpm(now: nat): Option<Rate>
      reads this, words
    {
      Sessions.Wpm(Model(), now)
    }

    function Cpm(now: nat): Option<Rate>
      reads this, words
    {
      Sessions.Cpm(Model(), now)
    }

    /** Space while paused on the last word is the source's `todo!`. */
    method Space(now: nat)
      requires Valid() && SpaceDefined(Model())
      modifies this
      ensures Valid()
      ensures Model() == SpaceStep(old(Model()), now)
    {
      ghost var before := Model();
      if currentWord < |words| - 1 && words[currentWord].HasInput() {
        currentWord := currentWord + 1;
      } else if currentWord == |words| - 1 {
        match state
        case Running(start) => state := End(Since(start, now));
        case End(d) => state := End(d);
      }
      SpacePreservesInv(before, now);
    }

    method Backspace()
      requires Valid()
      modifies this, words[currentWord]
      ensures Valid()
      ensures Model() == BackspaceStep(old(Model()))
    {
      ghost var before := Model();
      BackspacePreservesInv(before);
      if state.Running? {
        var w := words[currentWord];
        var deleted := w.Backspace();
        assert Inputs() == before.inputs[currentWord := w.input];
        if !deleted && currentWord > 0 {
          currentWord := currentWord - 1;
        }
        if inputCcount > 0 {
          inputCcount := inputCcount - 1;
        }
      }
    }

    function RtuiLine(): seq<Unit>
      reads this, words
    {
      Line(Targets(), Inputs(), currentWord)
    }
  }
}
