/** The game block of the script as it runs against `st.session_state`:
    the session fields are updated in place, one run at a time. */
module QuizState {
  import opened Wrappers
  import opened Catalog
  import opened Quiz

  /** random.sample(population, 2): two entries at distinct positions, in the
      order drawn; ValueError when the population has fewer than two. */
  method Sample(population: seq<Word>) returns (r: Result<seq<Word>, RunError>)
    ensures r.Failure? <==> |population| < 2
    ensures r.Failure? ==> r.error == SampleLargerThanPopulation
    ensures r.Success? ==> IsSample(r.value, population)
  {
    if |population| < 2 {
      return Failure(SampleLargerThanPopulation);
    }
    assert 0 <= 0 < |population|;
    var i :| 0 <= i < |population|;
    assert 0 <= (if i == 0 then 1 else 0) < |population|;
    var j :| 0 <= j < |population| && j != i;
    r := Success([population[i], population[j]]);
  }

  /** The game's part of `st.session_state`. */
  class QuizSession {
    var quizIndex: nat
    var quizOrder: seq<Letter>
    var options: seq<Word>
    var selectedOption: Option<Word>
    var submitted: bool

    function State(): Session
      reads this
    {
      Session(quizIndex, quizOrder, options, selectedOption, submitted)
    }

    /** The session state as the script finds it at the start of a run. */
    constructor (s: Session)
      ensures State() == s
    {
      quizIndex, quizOrder, options, selectedOption, submitted :=
        s.quizIndex, s.quizOrder, s.options, s.selectedOption, s.submitted;
    }

    /** random.shuffle(options): swaps each position, from the last down,
        with a randomly chosen position at or below it. */
    method ShuffleOptions()
      modifies this`options
      ensures |options| == |old(options)|
      ensures multiset(options) == multiset(old(options))
      ensures State() == old(State()).(options := options)
    {
      var i := |options|;
      while i > 1
        invariant 0 <= i <= |options| == |old(options)|
        invariant multiset(options) == multiset(old(options))
        invariant State() == old(State()).(options := options)
      {
        i := i - 1;
        var j :| 0 <= j <= i;
        options := options[i := options[j]][j := options[i]];
      }
    }

    /** Lines 30-33: when there are no options, draw two other words, add the
        correct one and shuffle; otherwise keep the options as they are. */
    method GenerateOptions(values: seq<Word>, correct: Word) returns (raised: Option<RunError>)
      modifies this`options
      ensures old(options) != [] ==> raised.None? && options == old(options)
      ensures old(options) == [] ==> (raised.Some? <==> |OtherWords(values, correct)| < 2)
      ensures raised.Some? ==> raised.value == SampleLargerThanPopulation && options == []
      ensures old(options) == [] && raised.None? ==> IsOptionDraw(options, OtherWords(values, correct), correct)
      ensures State() == old(State()).(options := options)
    {
      raised := None;
      if options == [] {
        var other := OtherWords(values, correct);
        var sample := Sample(other);
        if sample.Failure? {
          return Some(sample.error);
        }
        options := sample.value + [correct];
        ghost var drawn := options;
        ShuffleOptions();
        SampleDraw(sample.value, other, correct, drawn, options);
      }
    }

    /** Lines 36-40: the option-button loop. Every clicked option is stored in
        the local `selected` and in `selected_option`; the last one wins. */
    method RecordClicks(keys: set<Word>) returns (selected: Option<Word>)
      modifies this`selectedOption
      ensures selected == LastClicked(options, keys)
      ensures selectedOption == if selected.Some? then selected else old(selectedOption)
    {
      selected := None;
      var i := 0;
      while i < |options|
        invariant 0 <= i <= |options|
        invariant selected == LastClicked(options[..i], keys)
        invariant selectedOption == if selected.Some? then selected else old(selectedOption)
      {
        var option := options[i];
        assert options[..i + 1][..i] == options[..i];
        if option in keys {
          selected := Some(option);
          selectedOption := Some(option);
        }
        i := i + 1;
      }
      assert options[..i] == options;
    }

    /** Lines 36-73: the option buttons, the feedback, Submit and Next, once
        the current question and its options are in place. */
    method Respond(letters: seq<Letter>, clicks: Clicks, letter: Letter, correct: Word) returns (outcome: Outcome)
      modifies this
      ensures StepResult(State(), outcome) == Quiz.Respond(old(State()), letters, clicks, letter, correct)
    {
      var selected := RecordClicks(clicks.optionKeys);
      var feedback := Feedback(submitted, selectedOption, correct);
      var view := View(letter, correct, options, feedback, false);
      if clicks.submit && !submitted && Truthy(selected) {
        submitted := true;
        // experimental_rerun: the run ends here
        return Shown(view);
      }
      if submitted && clicks.next {
        quizIndex := quizIndex + 1;
        if quizIndex >= |letters| {
          view := view.(finished := true);
          if clicks.playAgain {
            quizIndex := 0;
          }
        }
        submitted := false;
        selectedOption := None;
        options := [];
        // experimental_rerun: the run ends here
      }
      outcome := Shown(view);
    }

    /** One run of the game block. `draw` is the option list in place after
        lines 30-33: the one this run generated, when it generated one. */
    method Run(words: Words, letters: seq<Letter>, clicks: Clicks) returns (outcome: Outcome, ghost draw: seq<Word>)
      modifies this
      ensures StepResult(State(), outcome) == Step(old(State()), words, letters, clicks, draw)
      ensures DrawFits(old(State()), words, letters, draw)
    {
      draw := [];
      // line 6 divides by len(letters); line 7 rejects a fraction above 1.0
      if |letters| == 0 {
        return Crashed(DivisionByZero), draw;
      }
      if quizIndex >= |letters| {
        return Crashed(ProgressOutOfRange), draw;
      }
      if quizIndex >= |quizOrder| {
        return Crashed(IndexOutOfRange), draw;
      }
      var letter := quizOrder[quizIndex];
      var found := Lookup(words, letter);
      if found.None? {
        return Crashed(MissingKey(letter)), draw;
      }
      outcome, draw := Ask(words, letters, clicks, letter, found.value);
    }

    /** Lines 30-73 of a run that found its letter and its word: the option
        generation and the response to the clicks. */
    method Ask(words: Words, letters: seq<Letter>, clicks: Clicks, letter: Letter, correct: Word)
        returns (outcome: Outcome, ghost draw: seq<Word>)
      requires quizIndex < |letters| && quizIndex < |quizOrder| && letter == quizOrder[quizIndex]
      requires Lookup(words, letter) == Some(correct)
      modifies this
      ensures StepResult(State(), outcome) == Step(old(State()), words, letters, clicks, draw)
      ensures DrawFits(old(State()), words, letters, draw)
    {
      draw := [];
      ghost var s0 := State();
      var generated := GenerateOptions(Values(words), correct);
      if generated.Some? {
        assert Step(s0, words, letters, clicks, draw) == StepResult(s0, Crashed(SampleLargerThanPopulation)) by {
          StepCrashes(s0, words, letters, clicks, draw);
        }
        return Crashed(generated.value), draw;
      }
      draw := options;
      assert DrawFits(s0, words, letters, draw) by {
        assert Answer(s0, words) == Some(correct);
      }
      outcome := Respond(letters, clicks, letter, correct);
      assert StepResult(State(), outcome) == Step(s0, words, letters, clicks, draw) by {
        StepResponds(s0, words, letters, clicks, draw, correct);
        assert s0.(options := draw) == s0.(options := if s0.options == [] then draw else s0.options);
      }
    }
  }
}
