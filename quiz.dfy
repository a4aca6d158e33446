/** One run (re-render) of the word-matching game script, as a pure function
    of the session state before the run, the `words` dict, the buttons the
    browser reported clicked and what the random number generator produced. */
module Quiz {
  import opened Wrappers
  import opened Catalog

  /** The game's fields of `st.session_state`. */
  datatype Session = Session(
    quizIndex: nat,
    quizOrder: seq<Letter>,
    options: seq<Word>,
    selectedOption: Option<Word>,
    submitted: bool)

  /** The buttons reported clicked in one run: option buttons by their key
      (the option word), then Submit, Next and Play Again. */
  datatype Clicks = Clicks(optionKeys: set<Word>, submit: bool, next: bool, playAgain: bool)

  /** The exceptions the game block can raise. */
  datatype RunError =
    | DivisionByZero             // (quiz_index + 1) / len(letters) with no letters
    | ProgressOutOfRange         // st.progress of a fraction above 1.0
    | IndexOutOfRange            // quiz_order[quiz_index] with quiz_index too large
    | MissingKey(letter: Letter) // words[letter] with no such key
    | SampleLargerThanPopulation // random.sample of 2 from fewer than 2 words

  datatype Verdict = Correct | Incorrect(answer: Word)

  /** What the run puts on the page that the game logic decides. */
  datatype View = View(
    letter: Letter,
    answer: Word,
    buttons: seq<Word>,
    feedback: Option<Verdict>,
    finished: bool)

  datatype Outcome = Crashed(error: RunError) | Shown(view: View)

  datatype StepResult = StepResult(after: Session, outcome: Outcome)

  /** One run's inputs, for replaying several runs. */
  datatype Input = Input(clicks: Clicks, draw: seq<Word>)

  /** Python truthiness of the local `selected`: None and "" are false. */
  predicate Truthy(selected: Option<Word>) {
    selected.Some? && selected.value != ""
  }

  /** The word the current question asks for, if lines 10-11 do not raise. */
  function Answer(s: Session, words: Words): (r: Option<Word>)
    ensures r.None? <==>
      s.quizIndex >= |s.quizOrder| || forall e :: e in words ==> e.0 != s.quizOrder[s.quizIndex]
    ensures r.Some? ==> s.quizIndex < |s.quizOrder| && (s.quizOrder[s.quizIndex], r.value) in words
  {
    if s.quizIndex < |s.quizOrder| then Lookup(words, s.quizOrder[s.quizIndex]) else None
  }

  /** `picked` is what random.sample(population, 2) can return: the entries
      at two distinct positions, in the order drawn. */
  ghost predicate IsSample<T>(picked: seq<T>, population: seq<T>) {
    exists i, j :: 0 <= i < |population| && 0 <= j < |population| && i != j &&
      picked == [population[i], population[j]]
  }

  /** `options` is what lines 32-33 can produce: the other words at two
      distinct positions, as random.sample draws them, and the correct word,
      shuffled into any order. */
  ghost predicate IsOptionDraw<T>(options: seq<T>, other: seq<T>, correct: T) {
    exists i, j :: 0 <= i < |other| && 0 <= j < |other| && i != j &&
      multiset(options) == multiset{other[i], other[j], correct}
  }

  /** The random outcome `draw` is one the generator can produce for this run. */
  ghost predicate DrawFits(s: Session, words: Words, letters: seq<Letter>, draw: seq<Word>) {
    (s.quizIndex < |letters| && Answer(s, words).Some? && s.options == [] &&
     |OtherWords(Values(words), Answer(s, words).value)| >= 2)
    ==> IsOptionDraw(draw, OtherWords(Values(words), Answer(s, words).value), Answer(s, words).value)
  }

  /** The session's options, when present, are a draw for the current question. */
  ghost predicate OptionsFit(s: Session, words: Words) {
    s.options != [] ==>
      Answer(s, words).Some? &&
      IsOptionDraw(s.options, OtherWords(Values(words), Answer(s, words).value), Answer(s, words).value)
  }

  /** No option from position `from` on has its button clicked. */
  predicate NoneClickedFrom(options: seq<Word>, keys: set<Word>, from: nat) {
    forall m :: from <= m < |options| ==> options[m] !in keys
  }

  /** What the option-button loop leaves in the local `selected`: the last
      option, in display order, whose button was clicked. */
  function LastClicked(options: seq<Word>, keys: set<Word>): (r: Option<Word>)
    ensures r.None? <==> NoneClickedFrom(options, keys, 0)
    ensures r.Some? ==>
      exists k :: 0 <= k < |options| && options[k] == r.value && r.value in keys &&
        NoneClickedFrom(options, keys, k + 1)
  {
    if options == [] then None
    else
      var n := |options| - 1;
      if options[n] in keys then
        assert NoneClickedFrom(options, keys, n + 1);
        Some(options[n])
      else
        var front := options[..n];
        var r := LastClicked(front, keys);
        assert forall m :: 0 <= m < n ==> front[m] == options[m];
        if r.None? then
          assert NoneClickedFrom(options, keys, 0) by {
            forall m | 0 <= m < |options| ensures options[m] !in keys {
              if m < n { assert front[m] == options[m]; }
            }
          }
          r
        else
          var k :| 0 <= k < |front| && front[k] == r.value && r.value in keys &&
            NoneClickedFrom(front, keys, k + 1);
          assert NoneClickedFrom(options, keys, k + 1) by {
            forall m | k + 1 <= m < |options| ensures options[m] !in keys {
              if m < n { assert front[m] == options[m]; }
            }
          }
          assert options[k] == r.value;
          r
  }

  /** The correct/incorrect message shown once the answer is submitted. */
  function Feedback(submitted: bool, selection: Option<Word>, correct: Word): (r: Option<Verdict>)
    ensures r.Some? <==> submitted
    ensures r == Some(Correct) <==> submitted && selection == Some(correct)
    ensures r.Some? && r.value.Incorrect? ==> r.value.answer == correct
  {
    if !submitted then None
    else if selection == Some(correct) then Some(Correct)
    else Some(Incorrect(correct))
  }

  /** One run of the script. `draw` is the shuffled option list the random
      generator produces if this run generates options; it is ignored otherwise. */
  function Step(s: Session, words: Words, letters: seq<Letter>, clicks: Clicks, draw: seq<Word>): (r: StepResult)
    // a crash leaves the session as it was; no run changes the question order
    ensures r.outcome.Crashed? ==> r.after == s
    ensures r.after.quizOrder == s.quizOrder
    // the index moves by at most one, and only back to 0 with Next at the end
    ensures r.after.quizIndex == s.quizIndex || r.after.quizIndex == s.quizIndex + 1 ||
      (r.after.quizIndex == 0 && s.quizIndex + 1 >= |letters| && clicks.next && clicks.playAgain)
  {
    if |letters| == 0 then StepResult(s, Crashed(DivisionByZero))
    else if s.quizIndex >= |letters| then StepResult(s, Crashed(ProgressOutOfRange))
    else if s.quizIndex >= |s.quizOrder| then StepResult(s, Crashed(IndexOutOfRange))
    else
      var letter := s.quizOrder[s.quizIndex];
      match Lookup(words, letter)
      case None => StepResult(s, Crashed(MissingKey(letter)))
      case Some(correct) =>
        if s.options == [] && |OtherWords(Values(words), correct)| < 2 then
          StepResult(s, Crashed(SampleLargerThanPopulation))
        else
          Respond(s.(options := if s.options == [] then draw else s.options), letters, clicks, letter, correct)
  }

  /** A run that gets past lines 6-33 continues with Respond on the options in place. */
  lemma StepResponds(s: Session, words: Words, letters: seq<Letter>, clicks: Clicks, draw: seq<Word>, correct: Word)
    requires s.quizIndex < |letters| && s.quizIndex < |s.quizOrder| && Lookup(words, s.quizOrder[s.quizIndex]) == Some(correct)
    requires s.options == [] ==> |OtherWords(Values(words), correct)| >= 2
    ensures Step(s, words, letters, clicks, draw) ==
      Respond(s.(options := if s.options == [] then draw else s.options), letters, clicks, s.quizOrder[s.quizIndex], correct)
  {
  }

  /** The selection a run compares with the answer: the last option clicked in
      this run, or else the one kept from earlier runs. */
  function Selection(s: Session, buttons: seq<Word>, clicks: Clicks): (r: Option<Word>)
    ensures NoneClickedFrom(buttons, clicks.optionKeys, 0) ==> r == s.selectedOption
    ensures !NoneClickedFrom(buttons, clicks.optionKeys, 0) ==>
      r.Some? && r.value in buttons && r.value in clicks.optionKeys
    // of several clicked options, the last one in display order wins
    ensures !NoneClickedFrom(buttons, clicks.optionKeys, 0) ==> r == LastClicked(buttons, clicks.optionKeys)
  {
    var selected := LastClicked(buttons, clicks.optionKeys);
    if selected.Some? then selected else s.selectedOption
  }

  /** Lines 36-73 of a run that got past the lookups and the option
      generation, with the options of `s` on the buttons. */
  function Respond(s: Session, letters: seq<Letter>, clicks: Clicks, letter: Letter, correct: Word): (r: StepResult)
    ensures r.outcome.Shown? && r.outcome.view.letter == letter && r.outcome.view.answer == correct
    ensures r.outcome.view.buttons == s.options && r.after.quizOrder == s.quizOrder
  {
    var buttons := s.options;
    var selected := LastClicked(buttons, clicks.optionKeys);
    var selection := Selection(s, buttons, clicks);
    var feedback := Feedback(s.submitted, selection, correct);
    if clicks.submit && !s.submitted && Truthy(selected) then
      // experimental_rerun ends the run here
      StepResult(Session(s.quizIndex, s.quizOrder, buttons, selection, true),
                 Shown(View(letter, correct, buttons, feedback, false)))
    else if s.submitted && clicks.next then
      var index := s.quizIndex + 1;
      var finished := index >= |letters|;
      StepResult(Session(if finished && clicks.playAgain then 0 else index, s.quizOrder, [], None, false),
                 Shown(View(letter, correct, buttons, feedback, finished)))
    else
      StepResult(Session(s.quizIndex, s.quizOrder, buttons, selection, s.submitted),
                 Shown(View(letter, correct, buttons, feedback, false)))
  }

  // ---------- One run ----------

  /** Which of lines 6, 7, 10, 11 and 32 raises, if any, in the order the
      script reaches them; each leaves the session as it was. */
  lemma StepCrashes(s: Session, words: Words, letters: seq<Letter>, clicks: Clicks, draw: seq<Word>)
    ensures |letters| == 0 <==> Step(s, words, letters, clicks, draw).outcome == Crashed(DivisionByZero)
    ensures 0 < |letters| <= s.quizIndex <==>
      Step(s, words, letters, clicks, draw).outcome == Crashed(ProgressOutOfRange)
    ensures s.quizIndex < |letters| && s.quizIndex >= |s.quizOrder| <==>
      Step(s, words, letters, clicks, draw).outcome == Crashed(IndexOutOfRange)
    ensures var r := Step(s, words, letters, clicks, draw);
      r.outcome.Crashed? && r.outcome.error.MissingKey? <==>
        s.quizIndex < |letters| && s.quizIndex < |s.quizOrder| && Lookup(words, s.quizOrder[s.quizIndex]).None?
    ensures s.quizIndex < |letters| && s.quizIndex < |s.quizOrder| && Lookup(words, s.quizOrder[s.quizIndex]).None? ==>
      Step(s, words, letters, clicks, draw).outcome == Crashed(MissingKey(s.quizOrder[s.quizIndex]))
    ensures Step(s, words, letters, clicks, draw).outcome == Crashed(SampleLargerThanPopulation) <==>
      s.quizIndex < |letters| && Answer(s, words).Some? && s.options == [] &&
      |OtherWords(Values(words), Answer(s, words).value)| < 2
    ensures var r := Step(s, words, letters, clicks, draw);
      r.outcome.Shown? ==>
        s.quizIndex < |letters| && s.quizIndex < |s.quizOrder| &&
        r.outcome.view.letter == s.quizOrder[s.quizIndex] &&
        Answer(s, words) == Some(r.outcome.view.answer)
  {
    if 0 < |letters| && s.quizIndex < |letters| && s.quizIndex < |s.quizOrder| {
      var found := Lookup(words, s.quizOrder[s.quizIndex]);
      if found.Some? && !(s.options == [] && |OtherWords(Values(words), found.value)| < 2) {
        StepResponds(s, words, letters, clicks, draw, found.value);
      }
    }
  }

  /** Options are generated only when there are none; a run that finds
      options shows and keeps exactly those, unless Next clears them. */
  lemma StepGeneratesOnce(s: Session, words: Words, letters: seq<Letter>, clicks: Clicks, draw: seq<Word>)
    ensures var r := Step(s, words, letters, clicks, draw);
      r.outcome.Shown? ==>
        r.outcome.view.buttons == (if s.options == [] then draw else s.options) &&
        r.after.options == (if s.submitted && clicks.next then [] else r.outcome.view.buttons)
  {
  }

  /** Submit takes effect only when clicked while not yet submitted and with
      an option clicked in the same run; once submitted, the answer stays
      submitted until Next. */
  lemma StepSubmits(s: Session, words: Words, letters: seq<Letter>, clicks: Clicks, draw: seq<Word>)
    ensures var r := Step(s, words, letters, clicks, draw);
      r.outcome.Shown? ==>
        (!s.submitted ==>
          (r.after.submitted <==>
            clicks.submit && Truthy(LastClicked(r.outcome.view.buttons, clicks.optionKeys)))) &&
        (s.submitted ==> (r.after.submitted <==> !clicks.next))
  {
  }

  /** Feedback is shown exactly when the answer was submitted before this run,
      and says Correct exactly when the selection is the answer. */
  lemma StepFeedback(s: Session, words: Words, letters: seq<Letter>, clicks: Clicks, draw: seq<Word>)
    ensures var r := Step(s, words, letters, clicks, draw);
      r.outcome.Shown? ==>
        (r.outcome.view.feedback.Some? <==> s.submitted) &&
        (r.outcome.view.feedback == Some(Correct) <==>
          s.submitted && Selection(s, r.outcome.view.buttons, clicks) == Some(r.outcome.view.answer)) &&
        (r.outcome.view.feedback.Some? && r.outcome.view.feedback.value.Incorrect? ==>
          r.outcome.view.feedback.value.answer == r.outcome.view.answer)
  {
  }

  /** Next, offered only once submitted, advances the index by one and clears
      the question's state; Play Again resets the index only at the end. */
  lemma StepNext(s: Session, words: Words, letters: seq<Letter>, clicks: Clicks, draw: seq<Word>)
    ensures var r := Step(s, words, letters, clicks, draw);
      r.outcome.Shown? && s.submitted && clicks.next ==>
        r.after == Session(if s.quizIndex + 1 >= |letters| && clicks.playAgain then 0 else s.quizIndex + 1,
                           s.quizOrder, [], None, false) &&
        r.outcome.view.finished == (s.quizIndex + 1 >= |letters|)
  {
  }

  /** Without Next nothing moves: the index stays and the selection is the last
      option clicked, or the one kept from earlier runs. */
  lemma StepStays(s: Session, words: Words, letters: seq<Letter>, clicks: Clicks, draw: seq<Word>)
    ensures var r := Step(s, words, letters, clicks, draw);
      r.outcome.Shown? && !(s.submitted && clicks.next) ==>
        r.after.quizIndex == s.quizIndex && !r.outcome.view.finished &&
        r.after.selectedOption == Selection(s, r.outcome.view.buttons, clicks)
  {
  }

  /** Several runs in a row; a run that crashes leaves the session unchanged. */
  function Replay(s: Session, words: Words, letters: seq<Letter>, inputs: seq<Input>): (r: Session)
    decreases |inputs|
    ensures r.quizOrder == s.quizOrder
  {
    if inputs == [] then s
    else Replay(Step(s, words, letters, inputs[0].clicks, inputs[0].draw).after, words, letters, inputs[1..])
  }

  /** Streamlit reports at most one button clicked per run. */
  predicate SingleButton(c: Clicks) {
    |c.optionKeys| + (if c.submit then 1 else 0) + (if c.next then 1 else 0) + (if c.playAgain then 1 else 0) <= 1
  }

  // ---------- Option generation ----------

  /** A generated option list has three entries: the correct word once and
      two other words of the dict. */
  lemma OptionDrawShape(values: seq<Word>, correct: Word, options: seq<Word>)
    requires IsOptionDraw(options, OtherWords(values, correct), correct)
    ensures |options| == 3
    ensures correct in options && multiset(options)[correct] == 1
    ensures forall k :: 0 <= k < |options| ==> options[k] == correct || options[k] in values
  {
    var x, y := DrawnPair(values, correct, options);
    var m := multiset(options);
    assert |options| == |m|;
    assert correct in m;
    forall k | 0 <= k < |options| ensures options[k] == correct || options[k] in values {
      assert options[k] in m;
    }
  }

  /** The two other words a generated option list was drawn with. */
  lemma DrawnPair(values: seq<Word>, correct: Word, options: seq<Word>) returns (x: Word, y: Word)
    requires IsOptionDraw(options, OtherWords(values, correct), correct)
    ensures multiset(options) == multiset{x, y, correct}
    ensures x in values && x != correct && y in values && y != correct
    ensures Distinct(values) ==> x != y
  {
    var other := OtherWords(values, correct);
    var i, j := SampleIndices(options, other, correct);
    x, y := other[i], other[j];
    assert x in other && y in other;
    if Distinct(values) {
      OtherWordsDistinct(values, correct);
    }
  }

  /** A sample with the correct word appended, shuffled, is an option draw. */
  lemma SampleDraw<T>(picked: seq<T>, other: seq<T>, correct: T, drawn: seq<T>, options: seq<T>)
    requires IsSample(picked, other) && drawn == picked + [correct]
    requires multiset(options) == multiset(drawn)
    ensures IsOptionDraw(options, other, correct)
  {
    var i, j :| 0 <= i < |other| && 0 <= j < |other| && i != j && picked == [other[i], other[j]];
    assert drawn == [other[i], other[j], correct];
  }

  lemma SampleIndices<T>(options: seq<T>, other: seq<T>, correct: T) returns (i: nat, j: nat)
    requires IsOptionDraw(options, other, correct)
    ensures i < |other| && j < |other| && i != j
    ensures multiset(options) == multiset{other[i], other[j], correct}
  {
    i, j :| 0 <= i < |other| && 0 <= j < |other| && i != j &&
      multiset(options) == multiset{other[i], other[j], correct};
  }

  /** When the dict's words are pairwise distinct, the three options are too. */
  lemma OptionDrawDistinct(values: seq<Word>, correct: Word, options: seq<Word>)
    requires Distinct(values)
    requires IsOptionDraw(options, OtherWords(values, correct), correct)
    ensures Distinct(options)
  {
    var x, y := DrawnPair(values, correct, options);
    PermutationOfDistinct(options, x, y, correct);
  }

  /** Any arrangement of three distinct words repeats none of them. */
  lemma PermutationOfDistinct<T>(options: seq<T>, x: T, y: T, z: T)
    requires x != y && x != z && y != z
    requires multiset(options) == multiset{x, y, z}
    ensures Distinct(options)
  {
    assert |options| == 3 by { assert |options| == |multiset(options)|; }
    assert x in multiset(options) && y in multiset(options) && z in multiset(options);
    forall i, j | 0 <= i < j < |options| ensures options[i] != options[j] {
      // x, y and z all occur among the three entries, so no two entries agree
      var k := 3 - i - j;
      assert forall w :: w in options ==> w == options[0] || w == options[1] || w == options[2];
      assert x in options && y in options && z in options;
      assert {options[i], options[j], options[k]} == {options[0], options[1], options[2]};
      if options[i] == options[j] {
        assert false;
      }
    }
  }

  /** With the dict a->apple, b->ball, c->cat, the question on "a" shows
      exactly apple, ball and cat, in some order. */
  lemma AppleBallCatOptions(options: seq<Word>)
    requires IsOptionDraw(options, OtherWords(Values(AppleBallCat()), "apple"), "apple")
    ensures multiset(options) == multiset{"apple", "ball", "cat"}
  {
    AppleBallCatOthers();
    OnlyTwoOthers(options, "ball", "cat", "apple");
  }

  /** With exactly two other words the sample takes both of them. */
  lemma OnlyTwoOthers<T>(options: seq<T>, a: T, b: T, correct: T)
    requires IsOptionDraw(options, [a, b], correct)
    ensures multiset(options) == multiset{a, b, correct}
  {
    var i, j := SampleIndices(options, [a, b], correct);
    if i == 1 {
      assert [a, b][i] == b && [a, b][j] == a;
      assert multiset{b, a, correct} == multiset{a, b, correct};
    }
  }

  /** The other words of the example dict, for the answer "apple". */
  lemma AppleBallCatOthers()
    ensures Values(AppleBallCat()) == ["apple", "ball", "cat"]
    ensures OtherWords(["apple", "ball", "cat"], "apple") == ["ball", "cat"]
  {
    assert "ball" != "apple" by { assert "ball"[0] != "apple"[0]; }
    assert "cat" != "apple" by { assert "cat"[0] != "apple"[0]; }
    assert ["apple", "ball", "cat"][1..] == ["ball", "cat"];
    assert ["ball", "cat"][1..] == ["cat"];
    assert OtherWords(["cat"], "apple") == ["cat"];
    assert OtherWords(["ball", "cat"], "apple") == ["ball", "cat"];
  }

  /** The three-word example dictionary. */
  function AppleBallCat(): Words {
    [("a", "apple"), ("b", "ball"), ("c", "cat")]
  }

  // ---------- Runs ----------

  /** Every run keeps the session's options a valid draw for the current question. */
  lemma StepKeepsOptionsFit(s: Session, words: Words, letters: seq<Letter>, clicks: Clicks, draw: seq<Word>)
    requires OptionsFit(s, words) && DrawFits(s, words, letters, draw)
    ensures OptionsFit(Step(s, words, letters, clicks, draw).after, words)
  {
    var r := Step(s, words, letters, clicks, draw);
    if r.outcome.Shown? {
      StepCrashes(s, words, letters, clicks, draw);
      StepGeneratesOnce(s, words, letters, clicks, draw);
      StepStays(s, words, letters, clicks, draw);
      if !(s.submitted && clicks.next) {
        assert Answer(r.after, words) == Answer(s, words);
        assert r.after.options == (if s.options == [] then draw else s.options);
      }
    }
  }

  /** With one button per run, as Streamlit reports them, Submit never takes
      effect: the option click and the Submit click land in different runs,
      and `selected` is reset to None at the start of each. */
  lemma {:induction false} SingleClickRunsNeverSubmit(s: Session, words: Words, letters: seq<Letter>, inputs: seq<Input>)
    decreases |inputs|
    requires !s.submitted
    requires forall k :: 0 <= k < |inputs| ==> SingleButton(inputs[k].clicks)
    ensures !Replay(s, words, letters, inputs).submitted
  {
    if inputs != [] {
      var c := inputs[0].clicks;
      assert SingleButton(c);
      var r := Step(s, words, letters, c, inputs[0].draw);
      if r.outcome.Shown? && c.submit {
        assert c.optionKeys == {};
        assert LastClicked(r.outcome.view.buttons, c.optionKeys).None?;
      }
      assert !r.after.submitted;
      SingleClickRunsNeverSubmit(r.after, words, letters, inputs[1..]);
    }
  }

  /** Once the index is past the end of the letters or of the question order,
      every run raises (in st.progress, or with IndexError) and nothing
      changes again. */
  lemma {:induction false} OutOfRangeIsStuck(s: Session, words: Words, letters: seq<Letter>, inputs: seq<Input>)
    decreases |inputs|
    requires s.quizIndex >= |letters| || s.quizIndex >= |s.quizOrder|
    ensures forall c, d :: Step(s, words, letters, c, d).outcome.Crashed?
    ensures Replay(s, words, letters, inputs) == s
  {
    if inputs != [] {
      OutOfRangeIsStuck(s, words, letters, inputs[1..]);
    }
  }

  /** Next on the last question without Play Again in the same run leaves the
      index at the number of letters, and the game is stuck from then on. */
  lemma FinishWithoutPlayAgainIsStuck(s: Session, words: Words, letters: seq<Letter>, clicks: Clicks, draw: seq<Word>, later: seq<Input>)
    requires s.quizIndex + 1 == |letters|
    requires s.submitted && clicks.next && !clicks.playAgain
    requires Step(s, words, letters, clicks, draw).outcome.Shown?
    ensures Step(s, words, letters, clicks, draw).after.quizIndex == |letters|
    ensures var after := Step(s, words, letters, clicks, draw).after;
      forall c, d :: Step(after, words, letters, c, d).outcome == Crashed(ProgressOutOfRange)
    ensures Replay(s, words, letters, [Input(clicks, draw)] + later) == Step(s, words, letters, clicks, draw).after
  {
    var after := Step(s, words, letters, clicks, draw).after;
    assert ([Input(clicks, draw)] + later)[1..] == later;
    OutOfRangeIsStuck(after, words, letters, later);
  }

  /** Answering: click an option together with Submit, then click Next.
      The question advances by one with its state cleared, and the second
      run's feedback is Correct exactly when the clicked word is the answer. */
  lemma AnswerThenNext(s: Session, words: Words, letters: seq<Letter>, w: Word, draw: seq<Word>, draw2: seq<Word>, again: bool)
    requires s.quizIndex < |letters| && s.quizIndex < |s.quizOrder| && Answer(s, words).Some?
    requires !s.submitted
    requires s.options == [] ==> |OtherWords(Values(words), Answer(s, words).value)| >= 2
    requires w != "" && w in (if s.options == [] then draw else s.options)
    ensures var r1 := Step(s, words, letters, Clicks({w}, true, false, false), draw);
            var r2 := Step(r1.after, words, letters, Clicks({}, false, true, again), draw2);
            r1.after.submitted &&
            r2.outcome.Shown? &&
            (r2.outcome.view.feedback == Some(Correct) <==> w == Answer(s, words).value) &&
            r2.after == Session(if s.quizIndex + 1 >= |letters| && again then 0 else s.quizIndex + 1,
                                s.quizOrder, [], None, false)
  {
    var correct := Answer(s, words).value;
    var buttons := if s.options == [] then draw else s.options;
    var k :| 0 <= k < |buttons| && buttons[k] == w;
    assert LastClicked(buttons, {w}) == Some(w);
    var c1 := Clicks({w}, true, false, false);
    StepResponds(s, words, letters, c1, draw, correct);
    var s1 := Session(s.quizIndex, s.quizOrder, buttons, Some(w), true);
    assert Step(s, words, letters, c1, draw).after == s1;
    var c2 := Clicks({}, false, true, again);
    StepResponds(s1, words, letters, c2, draw2, correct);
    assert LastClicked(buttons, {}) == None;
  }

  /** The runs of answering each question in turn: an option clicked with
      Submit (on the options `draws[k]`), then Next. */
  function AnswerInputs(answers: seq<Word>, draws: seq<seq<Word>>): (r: seq<Input>)
    requires |answers| == |draws|
    ensures |r| == |answers| + |answers|
  {
    if answers == [] then []
    else
      [Input(Clicks({answers[0]}, true, false, false), draws[0]),
       Input(Clicks({}, false, true, false), [])] + AnswerInputs(answers[1..], draws[1..])
  }

  /** Playing the game through: from any question, answering every remaining
      question with a word on its buttons and pressing Next after each ends
      with the index at the number of letters and the question state cleared. */
  lemma {:induction false} PlayThrough(s: Session, words: Words, letters: seq<Letter>,
                                       answers: seq<Word>, draws: seq<seq<Word>>)
    decreases |answers|
    requires |s.quizOrder| == |letters| && s.quizIndex <= |letters|
    requires |answers| == |draws| == |letters| - s.quizIndex
    requires s.options == [] && !s.submitted
    requires forall k :: s.quizIndex <= k < |letters| ==>
      Lookup(words, s.quizOrder[k]).Some? &&
      |OtherWords(Values(words), Lookup(words, s.quizOrder[k]).value)| >= 2
    requires forall k :: 0 <= k < |answers| ==> answers[k] != "" && answers[k] in draws[k]
    ensures var f := Replay(s, words, letters, AnswerInputs(answers, draws));
      f.quizIndex == |letters| && f.quizOrder == s.quizOrder && f.options == [] && !f.submitted
  {
    var inputs := AnswerInputs(answers, draws);
    if answers != [] {
      var r1 := Step(s, words, letters, inputs[0].clicks, inputs[0].draw);
      var r2 := Step(r1.after, words, letters, inputs[1].clicks, inputs[1].draw);
      AnswerThenNext(s, words, letters, answers[0], draws[0], [], false);
      var next := r2.after;
      assert next == Session(s.quizIndex + 1, s.quizOrder, [], None, false);
      var inputs' := AnswerInputs(answers[1..], draws[1..]);
      assert inputs[2..] == inputs';
      assert Replay(s, words, letters, inputs) == Replay(next, words, letters, inputs') by {
        assert inputs[1..][0] == inputs[1] && inputs[1..][1..] == inputs[2..];
      }
      forall k | 0 <= k < |answers[1..]| ensures answers[1..][k] != "" && answers[1..][k] in draws[1..][k] {
        assert answers[1..][k] == answers[k + 1] && draws[1..][k] == draws[k + 1];
      }
      PlayThrough(next, words, letters, answers[1..], draws[1..]);
    }
  }

  /** The apple example end to end: submitting "apple" on the question "a"
      and then pressing Next shows the Correct message. */
  lemma AppleIsCorrect(s: Session, words: Words, letters: seq<Letter>, draw: seq<Word>, draw2: seq<Word>)
    requires words == AppleBallCat()
    requires s.quizIndex < |letters| && s.quizIndex < |s.quizOrder| && s.quizOrder[s.quizIndex] == "a"
    requires s.options == [] && !s.submitted
    requires IsOptionDraw(draw, OtherWords(Values(words), "apple"), "apple")
    ensures var r1 := Step(s, words, letters, Clicks({"apple"}, true, false, false), draw);
            var r2 := Step(r1.after, words, letters, Clicks({}, false, true, false), draw2);
            r2.outcome.Shown? && r2.outcome.view.feedback == Some(Correct)
  {
    AppleBallCatOthers();
    AppleBallCatOptions(draw);
    assert "apple" in multiset(draw);
    assert Answer(s, words) == Some("apple") by {
      assert Lookup(words, "a") == Some("apple");
    }
    AnswerThenNext(s, words, letters, "apple", draw, draw2, false);
  }
}
