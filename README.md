# terminle feedback engine, in Dafny

A model of the core of *terminle*, a terminal word-guessing game. It covers two parts.

- The feedback engine of `src/wordle.rs` (module `Wordle`, file `wordle.dfy`):
  - the `Hint` order `Gray < Yellow < Green`;
  - scoring a five-letter guess against the hidden word;
  - the append-only history of scored guesses;
  - the per-letter hint, which is the strongest feedback ever recorded for that letter.
- The session logic of `src/main.rs` (module `Session`, file `session.dfy`):
  - the input buffer, edited by typing and backspace;
  - the ordered checks a submission passes before it is scored (length, then vocabulary, then repetition);
  - the key loop, which runs until Esc or Control-C.

`Wrappers` (`wrappers.dfy`) holds the `Option` and `Result` datatypes.

Scoring is the pure `zip`/`map` of the source, written as the recursive `ScoreZip`. The hint is the source's `flatten` / `filter_map` / `reduce(max)` pipeline, written as `Flatten`, `Matching` and `Reduce` (a left fold with `max`). `Wordle.Wordle` is a class whose `guesses` field `Guess` appends to. `Session.App` is a class holding the key loop's state: the game, the input buffer and the last status. Its handlers change that state in place. The loop's state is also a value, `Session.LoopState`, holding the buffer, the history and the status. `Session.Step` gives the effect of one event on it, and `Session.Steps` the effect of a sequence of events. `HandleEvent` and `Run` are proved to change the object exactly as these functions say. The invariant `Valid()` says four things:
- the hidden word has five letters;
- the buffer never holds more than five characters;
- the recorded guesses never spell the same word twice;
- every recorded guess is in the accepted vocabulary.

The word lists (`WORDS`, `VALID`) come from a module that is not part of this model, so they are parameters: `Wordle.Wordle.constructor` takes the list of solutions and an index, and `Session.App.constructor` takes the accepted vocabulary.

Notes on behaviour:
- Guessing `trace` against `crane` scores the `a` Green, because both words have `a` at index 2 (`ScoreTraceAgainstCrane`).
- `Wordle::hint` takes a letter and no position. `src/main.rs` calls `hint(char, pos)` and `suggest(char, pos)`, which `src/wordle.rs` does not define, so the model uses `hint(char)`. `HandleCharacter` still reports the position (`len - 1`) at which the typed letter's hint is shown.
- The program has no win or game-over state.
- The daily challenge number is not reduced modulo the word count (see "Left out").

## Model

| member | source | states |
|---|---|---|
| `Wordle.HintOrderIsTotal` | src/wordle.rs:5-10 | The derived order on `Hint` is a total order, with Gray below Yellow below Green |
| `Wordle.Max` | src/wordle.rs:57-59 | `max` of two hints is one of them and is at least as large as both |
| `Wordle.ScoreZip` | src/wordle.rs:33-46 | The zip stops at the shorter word. Entry i carries guess letter i. It is Green iff that letter equals the solution letter under it; Yellow iff it differs but occurs anywhere in the solution; Gray otherwise |
| `Wordle.Score` | src/wordle.rs:32-46 | The same per-position rules against the hidden word. Two five-letter words give exactly five entries. Repeated letters are judged independently |
| `Wordle.ScoreSpellsGuess` | src/wordle.rs:33-46 | A scored guess spells the guess back whenever the solution is at least as long |
| `Wordle.ScoreTraceAgainstCrane` | src/wordle.rs:36-43 | `trace` against `crane` gives Gray, Green, Green, Yellow, Green |
| `Wordle.ScoreSolutionAllGreen` | src/wordle.rs:37-38 | Guessing the solution gives Green at every position |
| `Wordle.ScoreRepeatedLetters` | src/wordle.rs:39-43 | `eerie` against `there` gives Yellow to both leading `e`s: there is no per-letter budget |
| `Wordle.Flatten` | src/wordle.rs:54-55 | An entry is in the flattened history iff it is in some recorded guess |
| `Wordle.Matching` | src/wordle.rs:56 | The filtered hints are exactly those recorded with the letter |
| `Wordle.FoldMax` | src/wordle.rs:57-59 | The left fold with `max` returns the start value or an element, and bounds both |
| `Wordle.Reduce` | src/wordle.rs:57-59 | `reduce(max)` is None iff there is nothing to reduce; otherwise it is an element that bounds every element |
| `Wordle.LetterHint` | src/wordle.rs:53-60 | The hint is None iff the letter occurs in no recorded entry. Otherwise it is a hint recorded for the letter that is at least every hint recorded for it |
| `Wordle.LetterHintAppend` | src/wordle.rs:53-60 | After one more guess, the hint is the larger of the old hint and the new guess's hint |
| `Wordle.HintNeverDecreases` | src/wordle.rs:53-60 | Appending any number of guesses never lowers a letter's hint, and never takes a hint away |
| `Wordle.GreenStaysGreen` | src/wordle.rs:57-59 | Once a letter's hint is Green it stays Green |
| `Wordle.ExactMatchGivesGreen` | src/wordle.rs:37-49 | Recording a guess with a letter in its solution position makes that letter's hint Green |
| `Wordle.Wordle.constructor` | src/wordle.rs:21-24 | A new game takes entry n of the word list as the hidden word, and requires n to be in range. The history starts empty |
| `Wordle.Wordle.HintFor` | src/wordle.rs:53-60 | The game's hint for a letter is `LetterHint` over its recorded guesses: None iff the letter was never guessed, otherwise the strongest hint recorded for it |
| `Wordle.Wordle.Guess` | src/wordle.rs:27-50 | A guess of the wrong length is an error and leaves the history unchanged. Otherwise the result is the score of the guess, appended as the history's last element. Earlier entries and the hidden word are unchanged |
| `Session.Classify` | src/main.rs:112-121 | InvalidLength iff the length is not 5. InvalidWord iff the length is 5 and the word is not in the vocabulary. AlreadyGuessed iff it is valid and some recorded guess spells it. Accepted otherwise |
| `Session.LengthCheckedFirst` | src/main.rs:113-114 | A wrong-length submission is InvalidLength whatever the vocabulary and the history |
| `Session.AcceptedThenRepeated` | src/main.rs:115-128 | A word accepted and recorded is refused as AlreadyGuessed when submitted again |
| `Session.AcceptKeepsNoRepeats` | src/main.rs:117-128 | Recording an accepted word keeps the history free of two guesses spelling the same word |
| `Session.App.constructor` | src/main.rs:49-54 | The loop starts with an empty buffer and no status, on a game with no guesses |
| `Session.App.HandleCharacter` | src/main.rs:76-82 | The new buffer is `Typed` of the old one: a full buffer (5 characters) ignores the key, otherwise the character is appended. The appended character's hint is looked up at its own position, `len - 1`. The buffer never exceeds 5 |
| `Session.App.HandleBackspace` | src/main.rs:96-101 | The new buffer is `Erased` of the old one: an empty buffer is left alone, otherwise exactly the last character is removed |
| `Session.App.HandleEnter` | src/main.rs:109-155 | The status is the classification of the buffer. On a refusal, the history and the buffer are unchanged. On acceptance, the score is recorded exactly once and the buffer is cleared. The history keeps no repeats |
| `Session.Typed` | src/main.rs:77-81 | A full buffer ignores the key; a shorter one gets it appended. A buffer of at most five characters stays that way |
| `Session.Erased` | src/main.rs:97-101 | An empty buffer stays empty. Otherwise exactly the last character is removed and the prefix is kept |
| `Session.Step` | src/main.rs:62-67 | Quit and non-key events change nothing. The history changes only on an Enter whose submission is accepted: then the score is appended once, the buffer is cleared and the status reset. The status changes only on Enter |
| `Session.Steps` | src/main.rs:55-70 | Handling events in order only extends the history, by at most one guess per event |
| `Session.StepKeepsInvariant` | src/main.rs:62-67 | One event keeps the buffer within five characters and the history free of repeats and within the vocabulary. The history only grows |
| `Session.StepsKeepInvariant` | src/main.rs:55-70 | Any sequence of events keeps that invariant, and the history only grows |
| `Session.EnterClearsBuffer` | src/main.rs:123-153 | An accepted Enter records the word once and clears the buffer. An immediate second Enter records nothing and is refused for its length |
| `Session.ByteLength` | src/main.rs:77 | Rust's `String::len` counts UTF-8 bytes: between one and four per character, and exactly one per character for ASCII text |
| `Session.TypedAsWritten` | src/main.rs:77-81 | `handle_character` with its byte-length cap: the key is ignored iff the buffer is exactly five bytes, otherwise it is appended |
| `Session.ByteCapOvershoots` | src/main.rs:77-81 | With the cap tested on byte length, `abcd` followed by a two-byte letter is six bytes. From then on, while only characters are typed, every key is appended, and the buffer reaches seven characters. Conversely `abc` and a two-byte letter are already five bytes, so a fifth key is ignored where `Typed` appends it |
| `Session.App.HandleEvent` | src/main.rs:56-68 | The new state is `Step` of the old state and the event. Esc and Control-C end the loop and change nothing. A character is typed, Backspace erases, and Enter stores the status of the submission. Other keys and non-key events change nothing |
| `Session.App.Run` | src/main.rs:55-70 | Stops at the first quit event. The final state is `Steps` of the initial state over the events before it, so those events are handled in order. The invariant holds throughout |

## Findings

| source | as written | input that shows it | evidently intended | confidence | as-written member | corrected member |
|---|---|---|---|---|---|---|
| src/main.rs:77 | The buffer counts as full only when its byte length equals 5 (`guess.len() == 5`) | Type `abcd`, then `é` (two bytes in UTF-8): the buffer has 6 bytes. While only characters are typed the test never holds again, so every later key is appended | The buffer holds at most five characters | high; not executed | `Session.TypedAsWritten`, `Session.ByteCapOvershoots` | `Session.Typed` |

## Left out

- Terminal I/O is not modelled: raw mode, reading key events, colours, cursor moves and status messages. The key stream is a finite sequence of abstract events given to `Session.App.Run`. The colours chosen from a hint are not modelled either: `HandleCharacter` returns the hint it would colour by.
- I/O errors that end the loop early (the `?` on every terminal call) are not modelled.
- Status message strings and the `anyhow` error text are replaced by the `Status` and `GuessError` datatypes.
- `src/config.rs` is not part of this model: argument parsing, the random challenge, and the daily challenge computed from the local date. The challenge number is a parameter of `Wordle.Wordle.constructor`, which requires it to be in range. The daily number is the raw count of days since 2023-10-22, with no reduction modulo the word count, so that caller does not guarantee the requirement.
- The `words` module is not part of this model. `WORDS` and `VALID` are parameters. `Session.App.constructor` requires the hidden word to have five letters, as every entry of the word list does.
- Byte length versus character count is modelled only for the typing cap. Elsewhere, text is a sequence of characters and Rust's byte length `len()` is taken to be the character count; the two agree on ASCII letters. In the source, the cap `guess.len() == 5` counts bytes. One multi-byte key can take the buffer from 4 bytes to 6. After that, while only characters are typed, no key is ignored, so the buffer grows without limit; a Backspace that brings it back to exactly 5 bytes restores the cap (see "Findings"). The other way round, four characters can already be 5 bytes (`abc` and `é`), so the source ignores a fifth key that the model's `Typed` appends. The model's `HandleCharacter` caps at five characters instead. The length checks in `handle_enter` and `Wordle::guess` also count bytes: the model counts characters there. A non-ASCII word would be judged differently there too.
- `Session.App.HandleCharacter` looks the hint up by letter only. The position-taking `suggest(char, pos)` that `src/main.rs` calls has no definition in `src/wordle.rs`.
- `src/main.rs` compares the buffer with recorded guesses, which are lists of (letter, hint) pairs. The model reads that comparison as "some recorded guess spells the buffer" (`Session.Guessed`).
