# Word-matching quiz of the toddler learning app, modelled in Dafny

The app is a Streamlit script. On every user interaction Streamlit re-runs the
whole script top to bottom, and the only thing that survives from one run to
the next is `st.session_state`. The word-matching game block of `main.py`
shows the letter `quiz_order[quiz_index]` and three word buttons: the correct
word plus two other words of the `words` dictionary, drawn at random and
shuffled. It records which word was clicked, shows correct/incorrect feedback
once the answer is submitted, and moves to the next letter on Next. After the
last letter it offers Play Again.

This project models one run of that block as one step on the game's session
state:

- `Catalog` (catalog.dfy) holds the `words` dictionary as its entries in
  insertion order, the lookup `words[letter]`, `words.values()` and the
  `other_words` comprehension.
- `Quiz` (quiz.dfy) is the pure specification. `Session` holds the five
  session fields. `Step` is one run, given the session, the dictionary, the
  letter list, the buttons reported clicked and the option list the random
  generator produced. `Replay` chains runs. The lemmas state what a run and a
  sequence of runs do.
- `QuizState` (quiz_session.dfy) is the same run written the way the script
  works. Class `QuizSession` has the five fields and updates them in place.
  `GenerateOptions` draws a sample and shuffles the list in place.
  `RecordClicks` is the loop over the option buttons. `Run` performs the
  whole run, handing over to `Ask` once the letter and its word are found. `Run` is proved to leave exactly the state that `Quiz.Step`
  specifies and the same outcome.

Modelling choices, in the script's terms:

- Randomness. `random.sample(other_words, 2)` is a nondeterministic choice of
  two distinct positions. It fails with `SampleLargerThanPopulation` when
  there are fewer than two other words, as Python raises `ValueError`.
  `random.shuffle` is the swap loop that shuffles in place: each position from
  the last down is swapped with a nondeterministically chosen position at or
  below it. Any permutation can come out of it. `Step` takes the generated list
  (`draw`) as an input. `Run` returns it as a ghost result and proves that it
  is a valid draw (`DrawFits`).
- Exceptions. Line 6 raises `ZeroDivisionError` when `letters` is empty
  (`DivisionByZero`). Line 7 raises when the fraction passed to `st.progress`
  is above 1.0, which happens exactly when `quiz_index >= len(letters)`
  (`ProgressOutOfRange`). Line 10 raises `IndexError` when `quiz_index` is past
  the end of `quiz_order`. Line 11 raises `KeyError` for a missing letter, and
  line 32 raises `ValueError` from the sample. The run checks them in that
  order. Each becomes a `Crashed` outcome with the session unchanged, because
  nothing is assigned before those lines. Lines 38 and 50 can raise too; see
  "Left out".
- `st.experimental_rerun()` ends the step. In particular, a run in which
  Submit takes effect does not reach the Next handler.
- Python truthiness. `not st.session_state.options` is "the list is empty".
  The `selected` in the Submit guard is false for `None` and for the empty
  word `""` (`Truthy`).
- Clicks. Each run receives the set of option keys clicked (a button's key is
  its word) and three flags for Submit, Next and Play Again. The Play Again
  flag is read only where the script draws that button: inside the Next
  handler, after the last letter.

Three behaviours of the code are kept as written:

- Play Again only sets `quiz_index` to 0 (main.py:68-69). It does not draw a
  new question order.
- An option click is recorded in `selected_option` even after the answer has
  been submitted (main.py:37-40). The feedback of that run then compares the
  new selection.
- Submit is guarded by the local `selected`, which is reset to `None` at the
  start of every run (main.py:36, 57). Streamlit reports at most one button
  clicked per run, so the word click and the Submit click always land in
  different runs. The lemma `Quiz.SingleClickRunsNeverSubmit` shows that under
  this one-button-per-run condition the answer is never submitted. The model
  keeps this behaviour as written.

## Model

| member | source | states |
|---|---|---|
| `Catalog.Lookup` | main.py:11 | `words[letter]` is a value stored under that key; it is missing (KeyError) exactly when no entry has the key; with distinct keys it is the only value for the key |
| `Catalog.Values` | main.py:31 | `words.values()` lists the dictionary's words, one per entry, in dict order |
| `Catalog.OtherWords` | main.py:31 | `other_words` holds exactly the dictionary's words that differ from the correct word, as many as the words not equal to it |
| `Catalog.OtherWordsCount` | main.py:31 | `other_words` is the dictionary's words with every occurrence of the correct word removed: each other word occurs as often as in the dictionary |
| `Catalog.OtherWordsKeepOrder` | main.py:31 | the comprehension keeps dict order: `other_words` is the words at the increasing positions of `words.values()` that do not hold the correct word, and every such position is used |
| `Catalog.OtherWordsDistinct` | main.py:31 | if the dictionary's words are pairwise distinct, so are the other words |
| `Quiz.Truthy` | main.py:57 | the `selected` of the Submit guard counts as set only when it is a word other than `""` |
| `Quiz.Answer` | main.py:10-11 | the current question has a word exactly when the index is within `quiz_order` and its letter is a key of `words`; that word is stored under the letter |
| `Quiz.LastClicked` | main.py:36-40 | the option loop leaves in `selected` the last option in display order whose button was clicked; it is None exactly when no option button was clicked |
| `Quiz.Feedback` | main.py:42-47 | feedback is shown exactly when submitted; it is Correct exactly when the selection is the correct word; otherwise it names the correct word |
| `Quiz.Selection` | main.py:36-43 | the selection the feedback compares is the stored `selected_option` when no option was clicked in this run, and otherwise the last option, in display order, whose button was clicked (`Quiz.LastClicked`) |
| `Quiz.Respond` | main.py:36-73 | once the question and its options are in place a run always shows the page, with that letter, its word and the options on the buttons; what it does to the session is stated by `Quiz.StepSubmits`, `Quiz.StepFeedback`, `Quiz.StepNext` and `Quiz.StepStays`, which reach it through `Quiz.StepResponds` |
| `Quiz.Step` | main.py:10-73 | a run that raises leaves the session unchanged; no run changes the question order; the index stays, grows by one, or goes back to 0 only through Play Again after the last letter |
| `Quiz.StepCrashes` | main.py:6-32 | a run raises ZeroDivisionError exactly when there are no letters; the progress bar raises exactly when the index is at or past the number of letters; then IndexError exactly when the index is past the question order, KeyError, carrying the current letter, exactly for a letter missing from the dictionary, and the sample error exactly when options must be generated from fewer than two other words; a run that does not raise shows the current letter and its word |
| `Quiz.StepResponds` | main.py:10-36 | a run that gets past the progress bar, the lookups and the option generation continues with the options in place, as `Quiz.Respond` states |
| `Quiz.StepGeneratesOnce` | main.py:30-33 | options are generated only when the list is empty; a run that starts with options shows those same options and keeps them unless Next clears them |
| `Quiz.StepSubmits` | main.py:57-58 | from not submitted, a run submits exactly when Submit is clicked and a non-empty option is clicked in the same run; once submitted, the answer stays submitted until Next |
| `Quiz.StepFeedback` | main.py:42-47 | a run shows feedback exactly when the answer was already submitted; the feedback is Correct exactly when the selection (this run's click, else the stored one) is the correct word |
| `Quiz.StepNext` | main.py:62-72 | Next, handled only when submitted, increases the index by exactly one and clears options, selection and submitted; after the last letter the finish message is shown and Play Again in the same run resets the index to 0 |
| `Quiz.StepStays` | main.py:36-40 | a run without Next keeps the index and stores the last option clicked, or keeps the stored selection |
| `Quiz.Replay` | main.py:10-73 | a sequence of runs never changes the question order |
| `Quiz.OptionDrawShape` | main.py:31-33 | a generated option list has exactly three entries; the correct word occurs in it exactly once; the other two entries are words of the dictionary |
| `Quiz.DrawnPair` | main.py:31-33 | a generated option list is a rearrangement of two other words and the correct word; both other words differ from the correct one, and they differ from each other when the dictionary's words are distinct |
| `Quiz.SampleDraw` | main.py:32-33 | a sample of two other words with the correct word appended, shuffled into any order, is a valid option draw |
| `Quiz.OptionDrawDistinct` | main.py:31-33 | if the dictionary's words are pairwise distinct, the three options are pairwise distinct |
| `Quiz.AppleBallCatOptions` | main.py:30-33 | with the dictionary a to apple, b to ball, c to cat, the question on apple shows exactly apple, ball and cat in some order |
| `Quiz.StepKeepsOptionsFit` | main.py:30-72 | if the session's options are a valid draw for the current question, they remain one after any run with a valid random draw |
| `Quiz.SingleClickRunsNeverSubmit` | main.py:36-58 | over any sequence of runs with at most one button clicked each, an unsubmitted answer never becomes submitted |
| `Quiz.OutOfRangeIsStuck` | main.py:6-10 | once the index is at or past the number of letters, or past the question order, every run raises and the session never changes again |
| `Quiz.FinishWithoutPlayAgainIsStuck` | main.py:62-69 | Next on the last letter without Play Again in the same run sets the index to the number of letters; from then on every run raises in the progress bar and no later run changes the session |
| `Quiz.AnswerThenNext` | main.py:36-72 | clicking an option together with Submit, then clicking Next, submits the answer, shows Correct exactly when the clicked word is the correct one, and moves to the next index with the question's state cleared |
| `Quiz.PlayThrough` | main.py:10-72 | from any question, answering each remaining question with a word on its buttons and then pressing Next ends with the index at the number of letters and no options, selection state or submission left |
| `Quiz.AppleIsCorrect` | main.py:42-47 | on the letter a of the apple, ball, cat dictionary, submitting apple and then pressing Next shows the Correct message |
| `QuizState.Sample` | main.py:32 | `random.sample(other_words, 2)` fails exactly when fewer than two words are available; otherwise it returns the words at two distinct positions |
| `QuizState.QuizSession.ShuffleOptions` | main.py:33 | shuffling in place keeps the length of the options and the multiset of its entries, and changes no other field |
| `QuizState.QuizSession.GenerateOptions` | main.py:30-33 | non-empty options are left untouched; otherwise the sample error is raised exactly when there are fewer than two other words, and the new options are a valid draw; no other field changes |
| `QuizState.QuizSession.RecordClicks` | main.py:36-40 | `selected` is the last option clicked; `selected_option` becomes it, or keeps its old value when no option was clicked |
| `QuizState.QuizSession.Respond` | main.py:36-73 | the clicks, feedback, Submit and Next part of a run leaves exactly the state and view that `Quiz.Respond` specifies |
| `QuizState.QuizSession.Ask` | main.py:30-73 | from a found letter and word, the option generation and the response leave exactly the state and outcome of `Quiz.Step`, with a valid random draw |
| `QuizState.QuizSession.Run` | main.py:6-73 | a whole run leaves exactly the state and outcome of `Quiz.Step`, with a random draw that the generator can produce |

## Left out

- Streamlit rendering: the title, progress bar, caption, columns, images, audio
  (the Play Sound button), markdown, balloons and the success/error messages.
  Only the letter, the correct word, the option buttons, the correct/incorrect
  decision and whether the finish message is shown are part of the model.
- Asset file paths and the `FileNotFoundError` handler. These are filesystem
  I/O.
- The progress fraction `(quiz_index + 1) / len(letters)` as a floating-point
  value. The model keeps the two ways it fails: no letters at all, or a
  fraction above 1.0. In floating point, a fraction above 1.0 rounds down to
  1.0 only when there are at least 2^53 letters; that case is not modelled.
- The unguarded `st.image` of the correct word's picture (main.py:50). It
  raises when the picture file is missing. Files are outside the model, which
  assumes the picture exists.
- The definitions of `letters`, `words`, `quiz_order` and the initial session
  state. They are not in the shown block, so they are parameters: the
  constructor of `QuizSession` takes the session state as the run finds it.
- Streamlit's `DuplicateWidgetID` error at main.py:38, raised when two option
  buttons get the same key. With a dictionary whose words repeat, two options
  can be equal. The model does not raise there; it treats a click on that key
  as a click on each button with it. `Quiz.OptionDrawDistinct` shows that with
  distinct words the keys never repeat.
- The real random number generator and its distribution. The model allows any
  outcome the calls can produce.
- The page selection (`st.session_state.page`) and the other pages of the app.
- The flashcard viewer and the colour game. They are not in the shown file.
