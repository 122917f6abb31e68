/**
 * The session logic of src/main.rs: the input buffer edited key by key, the
 * checks a submission passes before it is scored, and the key loop that
 * drives them. Terminal output is not modelled.
 */
module Session {
  import opened Wrappers
  import opened Wordle

  /** Why a submission was refused. */
  datatype Status = InvalidWord | InvalidLength | AlreadyGuessed

  /** Some recorded guess spells `word`. */
  predicate Guessed(history: seq<GuessResult>, word: string)
  {
    exists g :: g in history && Spelled(g) == word
  }

  /**
   * The checks of a submission, in their fixed order: length first, then
   * membership of the accepted vocabulary `valid`, then repetition. `None`
   * means the submission is accepted.
   */
  function Classify(guess: string, valid: set<string>, history: seq<GuessResult>): (s: Option<Status>)
    ensures s == Some(InvalidLength) <==> |guess| != WordLength
    ensures s == Some(InvalidWord) <==> |guess| == WordLength && guess !in valid
    ensures s == Some(AlreadyGuessed) <==> |guess| == WordLength && guess in valid && Guessed(history, guess)
    ensures s == None <==> |guess| == WordLength && guess in valid && !Guessed(history, guess)
  {
    if |guess| != WordLength then Some(InvalidLength)
    else if guess !in valid then Some(InvalidWord)
    else if Guessed(history, guess) then Some(AlreadyGuessed)
    else None
  }

  /** The length check comes first: a word of the wrong length is refused the same way whatever the vocabulary and history. */
  lemma LengthCheckedFirst(guess: string, valid: set<string>, valid': set<string>, history: seq<GuessResult>, history': seq<GuessResult>)
    requires |guess| != WordLength
    ensures Classify(guess, valid, history) == Classify(guess, valid', history') == Some(InvalidLength)
  {
  }

  /** After a word is accepted and recorded, submitting it again is refused as already guessed. */
  lemma AcceptedThenRepeated(guess: string, solution: string, valid: set<string>, history: seq<GuessResult>)
    requires |solution| == WordLength
    requires Classify(guess, valid, history) == None
    ensures Classify(guess, valid, history + [Score(guess, solution)]) == Some(AlreadyGuessed)
  {
    var g := Score(guess, solution);
    ScoreSpellsGuess(guess, solution);
    assert g in history + [g];
  }

  /** No two recorded guesses spell the same word. */
  predicate NoRepeats(history: seq<GuessResult>)
  {
    forall i, j :: 0 <= i < j < |history| ==> Spelled(history[i]) != Spelled(history[j])
  }

  /** Recording an accepted word keeps the history free of repeats. */
  lemma {:induction false} AcceptKeepsNoRepeats(guess: string, solution: string, valid: set<string>, history: seq<GuessResult>)
    requires |solution| == WordLength
    requires NoRepeats(history)
    requires Classify(guess, valid, history) == None
    ensures NoRepeats(history + [Score(guess, solution)])
  {
    var h := history + [Score(guess, solution)];
    ScoreSpellsGuess(guess, solution);
    forall i, j | 0 <= i < j < |h| ensures Spelled(h[i]) != Spelled(h[j]) {
      if j == |history| {
        assert h[i] in history;
      }
    }
  }

  /** Keys the loop tells apart. */
  datatype KeyCode = Char(ch: char) | Esc | Backspace | Enter | OtherKey

  /** A terminal event; `control` holds when the modifiers are exactly Control. */
  datatype Event = Key(code: KeyCode, control: bool) | OtherEvent

  /** Esc, or Control with `c`, ends the session. */
  predicate IsQuit(e: Event)
  {
    e.Key? && (e.code == Esc || (e.code == Char('c') && e.control))
  }

  /** Typing `c`: a full buffer ignores it, otherwise it is appended. */
  function Typed(guess: string, c: char): (r: string)
    ensures |guess| <= WordLength ==> |r| <= WordLength
    ensures |guess| < WordLength ==> r == guess + [c]
    ensures |guess| == WordLength ==> r == guess
  {
    if |guess| == WordLength then guess else guess + [c]
  }

  /** Backspace: an empty buffer stays empty, otherwise the last character goes. */
  function Erased(guess: string): (r: string)
    ensures guess == [] ==> r == []
    ensures guess != [] ==> |r| == |guess| - 1 && r + [guess[|guess| - 1]] == guess
  {
    if guess == [] then [] else guess[..|guess| - 1]
  }

  /** What the key loop keeps between events: the word being typed, the recorded guesses and the last status. */
  datatype LoopState = LoopState(guess: string, history: seq<GuessResult>, status: Option<Status>)

  /**
   * The effect of one event on the key loop, for the hidden `word` and the
   * accepted vocabulary `valid`: quit events and non-key events change
   * nothing, a character is typed, Backspace erases, and Enter submits.
   */
  function Step(s: LoopState, e: Event, word: string, valid: set<string>): (r: LoopState)
    ensures IsQuit(e) || !e.Key? ==> r == s
    ensures r.history == s.history || r.history == s.history + [Score(s.guess, word)]
    ensures r.history != s.history <==>
              !IsQuit(e) && e.Key? && e.code == Enter && Classify(s.guess, valid, s.history) == None
    ensures r.history != s.history ==> r.guess == [] && r.status == None
    ensures r.status != s.status ==> e.Key? && e.code == Enter
  {
    if IsQuit(e) || !e.Key? then s
    else
      match e.code
      case Char(c) => s.(guess := Typed(s.guess, c))
      case Backspace => s.(guess := Erased(s.guess))
      case Enter =>
        var st := Classify(s.guess, valid, s.history);
        if st.Some? then s.(status := st)
        else LoopState([], s.history + [Score(s.guess, word)], None)
      case _ => s
  }

  /** The effect of a sequence of events, handled in order. */
  function Steps(s: LoopState, events: seq<Event>, word: string, valid: set<string>): (r: LoopState)
    ensures s.history <= r.history
    ensures |r.history| <= |s.history| + |events|
  {
    if events == [] then s
    else Step(Steps(s, events[..|events| - 1], word, valid), events[|events| - 1], word, valid)
  }

  /** The key loop's invariant: a buffer of at most five characters, and a history of distinct accepted words. */
  predicate StateOk(s: LoopState, valid: set<string>)
  {
    |s.guess| <= WordLength &&
    NoRepeats(s.history) &&
    forall g :: g in s.history ==> Spelled(g) in valid
  }

  /** One event keeps the invariant and only ever appends to the history. */
  lemma StepKeepsInvariant(s: LoopState, e: Event, word: string, valid: set<string>)
    requires |word| == WordLength
    requires StateOk(s, valid)
    ensures StateOk(Step(s, e, word, valid), valid)
    ensures s.history <= Step(s, e, word, valid).history
  {
    if !IsQuit(e) && e.Key? && e.code == Enter && Classify(s.guess, valid, s.history) == None {
      AcceptKeepsNoRepeats(s.guess, word, valid, s.history);
      ScoreSpellsGuess(s.guess, word);
    }
  }

  /** Any sequence of events keeps the invariant and only ever appends to the history. */
  lemma {:induction false} StepsKeepInvariant(s: LoopState, events: seq<Event>, word: string, valid: set<string>)
    requires |word| == WordLength
    requires StateOk(s, valid)
    ensures StateOk(Steps(s, events, word, valid), valid)
    ensures s.history <= Steps(s, events, word, valid).history
  {
    if events != [] {
      var front := events[..|events| - 1];
      StepsKeepInvariant(s, front, word, valid);
      StepKeepsInvariant(Steps(s, front, word, valid), events[|events| - 1], word, valid);
    }
  }

  /**
   * An accepted Enter records the word once and clears the buffer, so an
   * immediate second Enter records nothing and is refused for its length.
   */
  lemma EnterClearsBuffer(s: LoopState, word: string, valid: set<string>)
    requires |word| == WordLength
    requires Classify(s.guess, valid, s.history) == None
    ensures var once := Step(s, Key(Enter, false), word, valid);
            once.history == s.history + [Score(s.guess, word)] && once.guess == [] &&
            Step(once, Key(Enter, false), word, valid) == once.(status := Some(InvalidLength))
  {
  }

  // ---------------------------------------------------------------------
  // The buffer cap as written compares the UTF-8 byte length with five.
  // ---------------------------------------------------------------------

  /** Bytes in the UTF-8 encoding of `c`. */
  function Utf8Width(c: char): nat
  {
    if c as int < 0x80 then 1
    else if c as int < 0x800 then 2
    else if c as int < 0x10000 then 3
    else 4
  }

  /** Rust's `String::len`: the number of bytes of the UTF-8 encoding. */
  function ByteLength(s: string): (n: nat)
    ensures |s| <= n <= 4 * |s|
    ensures (forall i :: 0 <= i < |s| ==> s[i] as int < 0x80) ==> n == |s|
  {
    if s == [] then 0 else Utf8Width(s[0]) + ByteLength(s[1..])
  }

  /** The byte length of a concatenation is the sum of the byte lengths. */
  lemma {:induction false} ByteLengthConcat(a: string, b: string)
    ensures ByteLength(a + b) == ByteLength(a) + ByteLength(b)
  {
    if a != [] {
      assert (a + b)[1..] == a[1..] + b;
      ByteLengthConcat(a[1..], b);
    } else {
      assert a + b == b;
    }
  }

  /** `handle_character` as written: the buffer is full only when its byte length is exactly five. */
  function TypedAsWritten(guess: string, c: char): (r: string)
    ensures r == guess <==> ByteLength(guess) == WordLength
    ensures r != guess ==> r == guess + [c]
  {
    if ByteLength(guess) == WordLength then guess else guess + [c]
  }

  /**
   * A two-byte key typed after four letters takes the buffer to six bytes;
   * from then on, while only characters are typed, no key is ignored, so the
   * buffer grows past five characters. The other way round, three letters and
   * a two-byte key already make five bytes, so the fifth key is ignored.
   */
  lemma ByteCapOvershoots()
    ensures ByteLength("abcd" + ['é']) == 6
    ensures forall c :: TypedAsWritten("abcd", c) == "abcd" + [c]
    ensures forall guess, c :: ByteLength(guess) > WordLength ==> TypedAsWritten(guess, c) == guess + [c]
    ensures |TypedAsWritten(TypedAsWritten("abcd" + ['é'], 'x'), 'y')| == 7
    ensures TypedAsWritten("abc" + ['é'], 'x') == "abc" + ['é']
    ensures Typed("abc" + ['é'], 'x') == "abc" + ['é', 'x']
  {
    var t := "abcd" + ['é'];
    ByteLengthConcat("abcd", ['é']);
    assert ByteLength("abcd") == 4;
    ByteLengthConcat(t, ['x']);
    ByteLengthConcat("abc", ['é']);
    assert ByteLength("abc") == 3;
  }

  /**
   * The state of the key loop: the game, the accepted vocabulary, the word
   * being typed and the status of the last submission.
   */
  class App {
    const wordle: Wordle
    const valid: set<string>
    var guess: string
    var status: Option<Status>

    /** The loop's state as a value. */
    ghost function State(): LoopState
      reads this, wordle
    {
      LoopState(guess, wordle.guesses, status)
    }

    ghost predicate Valid()
      reads this, wordle
    {
      |wordle.word| == WordLength && StateOk(State(), valid)
    }

    /** A session on a fresh game whose hidden word comes from the word list. */
    constructor (wordle: Wordle, valid: set<string>)
      requires |wordle.word| == WordLength && wordle.guesses == []
      ensures Valid()
      ensures this.wordle == wordle && this.valid == valid
      ensures guess == [] && status == None
    {
      this.wordle := wordle;
      this.valid := valid;
      guess := [];
      status := None;
    }

    /**
     * Types `c`. A full buffer ignores it; otherwise `c` is appended and the
     * hint for it is looked up at its own position, the last one.
     */
    method HandleCharacter(c: char) returns (shown: Option<(nat, Option<Hint>)>)
      requires Valid()
      modifies `guess
      ensures Valid() && |guess| <= WordLength
      ensures guess == Typed(old(guess), c)
      ensures old(|guess|) == WordLength ==> shown == None
      ensures old(|guess|) < WordLength ==>
                shown == Some((|guess| - 1, LetterHint(wordle.guesses, c))) &&
                guess[shown.value.0] == c
    {
      if |guess| == WordLength {
        return None;
      }
      guess := guess + [c];
      var suggestion := wordle.HintFor(c);
      shown := Some((|guess| - 1, suggestion));
    }

    /** Deletes the last character typed; nothing to delete is a no-op. */
    method HandleBackspace()
      requires Valid()
      modifies `guess
      ensures Valid()
      ensures guess == Erased(old(guess))
    {
      if |guess| == 0 {
        return;
      }
      guess := guess[..|guess| - 1];
    }

    /**
     * Submits the buffer. A refused submission leaves the history and the
     * buffer as they were; an accepted one is scored, recorded once, and
     * the buffer is cleared.
     */
    method HandleEnter() returns (s: Option<Status>)
      requires Valid()
      modifies `guess, wordle
      ensures Valid()
      ensures wordle.word == old(wordle.word)
      ensures s == Classify(old(guess), valid, old(wordle.guesses))
      ensures s.Some? ==> guess == old(guess) && wordle.guesses == old(wordle.guesses)
      ensures s.None? ==>
                guess == [] &&
                wordle.guesses == old(wordle.guesses) + [Score(old(guess), wordle.word)]
    {
      s := Classify(guess, valid, wordle.guesses);
      if s.Some? {
        return;
      }
      AcceptKeepsNoRepeats(guess, wordle.word, valid, wordle.guesses);
      ScoreSpellsGuess(guess, wordle.word);
      var result := wordle.Guess(guess);
      guess := [];
    }

    /** One event of the key loop; reports whether it ends the session. */
    method HandleEvent(e: Event) returns (quit: bool)
      requires Valid()
      modifies this, wordle
      ensures Valid()
      ensures quit == IsQuit(e)
      ensures wordle.word == old(wordle.word)
      ensures State() == Step(old(State()), e, wordle.word, valid)
    {
      quit := IsQuit(e);
      if quit || !e.Key? {
        return;
      }
      match e.code {
        case Char(c) =>
          var _ := HandleCharacter(c);
        case Backspace =>
          HandleBackspace();
        case Enter =>
          status := HandleEnter();
        case Esc =>
        case OtherKey =>
      }
    }

    /**
     * The key loop over a finite stream of events: handles them in order and
     * stops at the first quit event, returning how many events came before it.
     */
    method Run(events: seq<Event>) returns (handled: nat)
      requires Valid()
      modifies this, wordle
      ensures Valid()
      ensures wordle.word == old(wordle.word)
      ensures handled <= |events|
      ensures forall i :: 0 <= i < handled ==> !IsQuit(events[i])
      ensures handled < |events| ==> IsQuit(events[handled])
      ensures State() == Steps(old(State()), events[..handled], wordle.word, valid)
    {
      handled := 0;
      while handled < |events|
        invariant Valid()
        invariant handled <= |events|
        invariant wordle.word == old(wordle.word)
        invariant forall i :: 0 <= i < handled ==> !IsQuit(events[i])
        invariant State() == Steps(old(State()), events[..handled], wordle.word, valid)
      {
        var quit := HandleEvent(events[handled]);
        if quit {
          assert Step(Steps(old(State()), events[..handled], wordle.word, valid), events[handled], wordle.word, valid)
              == Steps(old(State()), events[..handled], wordle.word, valid);
          return;
        }
        assert events[..handled + 1][..handled] == events[..handled];
        handled := handled + 1;
      }
    }
  }
}
