/**
 * The feedback engine of src/wordle.rs: scoring a guess against the hidden
 * word, the history of scored guesses, and the per-letter hint that is the
 * strongest feedback ever recorded for a letter.
 */
module Wordle {
  import opened Wrappers

  /** Number of letters in a word; every entry of the word list has this length. */
  const WordLength: nat := 5

  /** Feedback for one letter. The derived ordering follows declaration order: Gray < Yellow < Green. */
  datatype Hint = Gray | Yellow | Green

  function Rank(h: Hint): nat
  {
    match h
    case Gray => 0
    case Yellow => 1
    case Green => 2
  }

  /** The derived `Ord` on `Hint`. */
  predicate Le(a: Hint, b: Hint)
  {
    Rank(a) <= Rank(b)
  }

  /** `Le` is a total order: reflexive, antisymmetric, transitive and total. */
  lemma HintOrderIsTotal()
    ensures forall a :: Le(a, a)
    ensures forall a, b :: Le(a, b) && Le(b, a) ==> a == b
    ensures forall a, b, c :: Le(a, b) && Le(b, c) ==> Le(a, c)
    ensures forall a, b :: Le(a, b) || Le(b, a)
    ensures Le(Gray, Yellow) && Le(Yellow, Green) && !Le(Green, Yellow) && !Le(Yellow, Gray)
  {
  }

  /** `std::cmp::max`: the larger hint, and the second argument when the two compare equal. */
  function Max(a: Hint, b: Hint): (m: Hint)
    ensures m == a || m == b
    ensures Le(a, m) && Le(b, m)
  {
    if Le(a, b) then b else a
  }

  /** One scored letter of a guess: the letter typed and the feedback it got. */
  type Entry = (char, Hint)

  /** A scored guess, one entry per position (`Guess` in the source). */
  type GuessResult = seq<Entry>

  function Min(a: nat, b: nat): nat
  {
    if a <= b then a else b
  }

  /** The feedback for guess letter `g` standing over solution letter `s`. */
  function ScoreLetter(g: char, s: char, solution: string): Hint
  {
    if g == s then Green
    else if g in solution then Yellow
    else Gray
  }

  /**
   * The `zip`/`map` pipeline: pairs the remaining guess letters `g` with the
   * remaining solution letters `s` (stopping at the shorter) and scores each
   * pair against the whole `solution`.
   */
  function ScoreZip(g: string, s: string, solution: string): (r: GuessResult)
    ensures |r| == Min(|g|, |s|)
    ensures forall i :: 0 <= i < |r| ==> r[i].0 == g[i]
    ensures forall i :: 0 <= i < |r| ==> (r[i].1 == Green <==> g[i] == s[i])
    ensures forall i :: 0 <= i < |r| ==> (r[i].1 == Yellow <==> g[i] != s[i] && g[i] in solution)
    ensures forall i :: 0 <= i < |r| ==> (r[i].1 == Gray <==> g[i] != s[i] && g[i] !in solution)
  {
    if |g| == 0 || |s| == 0 then []
    else [(g[0], ScoreLetter(g[0], s[0], solution))] + ScoreZip(g[1..], s[1..], solution)
  }

  /**
   * Scores `guess` against `solution` position by position. Each occurrence of
   * a letter is judged on its own: there is no budget for repeated letters.
   */
  function Score(guess: string, solution: string): (r: GuessResult)
    ensures |r| == Min(|guess|, |solution|)
    ensures |guess| == WordLength && |solution| == WordLength ==> |r| == WordLength
    ensures forall i :: 0 <= i < |r| ==> r[i].0 == guess[i]
    ensures forall i :: 0 <= i < |r| ==> (r[i].1 == Green <==> guess[i] == solution[i])
    ensures forall i :: 0 <= i < |r| ==> (r[i].1 == Yellow <==> guess[i] != solution[i] && guess[i] in solution)
    ensures forall i :: 0 <= i < |r| ==> (r[i].1 == Gray <==> guess[i] != solution[i] && guess[i] !in solution)
  {
    ScoreZip(guess, solution, solution)
  }

  /** The word a scored guess spells. */
  function Spelled(g: GuessResult): (w: string)
    ensures |w| == |g|
    ensures forall i :: 0 <= i < |g| ==> w[i] == g[i].0
  {
    if g == [] then [] else [g[0].0] + Spelled(g[1..])
  }

  /** A scored guess spells the guess back whenever the solution is at least as long. */
  lemma ScoreSpellsGuess(guess: string, solution: string)
    requires |guess| <= |solution|
    ensures Spelled(Score(guess, solution)) == guess
  {
    var w := Spelled(Score(guess, solution));
    assert |w| == |guess|;
    forall i | 0 <= i < |w| ensures w[i] == guess[i] { }
  }

  /** A guess sharing letters with the solution, some in place and some not. */
  lemma ScoreTraceAgainstCrane()
    ensures Score("trace", "crane") == [('t', Gray), ('r', Green), ('a', Green), ('c', Yellow), ('e', Green)]
  {
    assert 't' !in "crane" && 'c' in "crane";
  }

  /** Guessing the solution itself gives Green everywhere. */
  lemma ScoreSolutionAllGreen(solution: string)
    ensures forall i :: 0 <= i < |solution| ==> Score(solution, solution)[i] == (solution[i], Green)
  {
  }

  /** A letter repeated in the guess is judged anew at each position. */
  lemma ScoreRepeatedLetters()
    ensures Score("eerie", "there") == [('e', Yellow), ('e', Yellow), ('r', Yellow), ('i', Gray), ('e', Green)]
  {
    assert 'e' in "there" && 'r' in "there" && 'i' !in "there";
  }

  // ---------------------------------------------------------------------
  // The hint for a letter: `flatten`, then `filter_map`, then `reduce(max)`.
  // ---------------------------------------------------------------------

  /** Every entry of every recorded guess, in order (`iter().flatten()`). */
  function Flatten(gs: seq<GuessResult>): (r: seq<Entry>)
    ensures forall e :: e in r <==> exists g :: g in gs && e in g
  {
    if gs == [] then [] else gs[0] + Flatten(gs[1..])
  }

  /** The hints recorded for letter `c`, in order (`filter_map`). */
  function Matching(es: seq<Entry>, c: char): (r: seq<Hint>)
    ensures forall h :: h in r <==> (c, h) in es
  {
    if es == [] then []
    else (if es[0].0 == c then [es[0].1] else []) + Matching(es[1..], c)
  }

  /** Left fold with `max` from the accumulator `acc`. */
  function FoldMax(acc: Hint, hs: seq<Hint>): (m: Hint)
    ensures m == acc || m in hs
    ensures Le(acc, m)
    ensures forall h :: h in hs ==> Le(h, m)
    decreases |hs|
  {
    if hs == [] then acc else FoldMax(Max(acc, hs[0]), hs[1..])
  }

  /** `reduce(max)`: nothing for an empty sequence, otherwise its largest hint. */
  function Reduce(hs: seq<Hint>): (r: Option<Hint>)
    ensures r.None? <==> hs == []
    ensures r.Some? ==> r.value in hs && forall h :: h in hs ==> Le(h, r.value)
  {
    if hs == [] then None else Some(FoldMax(hs[0], hs[1..]))
  }

  /** Letter `c` has been recorded with hint `h` in some guess of `gs`. */
  predicate Recorded(gs: seq<GuessResult>, c: char, h: Hint)
  {
    exists g :: g in gs && (c, h) in g
  }

  /** Letter `c` occurs in some recorded guess of `gs`. */
  predicate Occurs(gs: seq<GuessResult>, c: char)
  {
    exists g, e :: g in gs && e in g && e.0 == c
  }

  /**
   * The strongest hint ever recorded for `c`, or nothing when `c` was never
   * guessed.
   */
  function LetterHint(gs: seq<GuessResult>, c: char): (r: Option<Hint>)
    ensures r.None? <==> !Occurs(gs, c)
    ensures r.Some? ==> Recorded(gs, c, r.value)
    ensures r.Some? ==> forall h :: Recorded(gs, c, h) ==> Le(h, r.value)
  {
    var es := Flatten(gs);
    var hs := Matching(es, c);
    var r := Reduce(hs);
    assert r.Some? ==> (c, r.value) in es;
    assert forall h :: Recorded(gs, c, h) ==> (c, h) in es && h in hs;
    assert Occurs(gs, c) ==> exists h :: (c, h) in es by {
      if Occurs(gs, c) {
        var g, e :| g in gs && e in g && e.0 == c;
        assert (c, e.1) == e;
      }
    }
    r
  }

  /** `None` below every `Some`, and `Some` values by the hint order. */
  predicate AtLeast(a: Option<Hint>, b: Option<Hint>)
  {
    match b
    case None => true
    case Some(hb) => a.Some? && Le(hb, a.value)
  }

  /** The larger of two optional hints. */
  function Join(a: Option<Hint>, b: Option<Hint>): (r: Option<Hint>)
    ensures AtLeast(r, a) && AtLeast(r, b)
    ensures r == a || r == b
  {
    match a
    case None => b
    case Some(ha) =>
      match b
      case None => a
      case Some(hb) => Some(Max(ha, hb))
  }

  /**
   * Appending one guess combines the hints: the hint afterwards is the larger of
   * the hint before and the hint from the new guess alone.
   */
  lemma LetterHintAppend(gs: seq<GuessResult>, g: GuessResult, c: char)
    ensures LetterHint(gs + [g], c) == Join(LetterHint(gs, c), LetterHint([g], c))
  {
    var all, before, last := LetterHint(gs + [g], c), LetterHint(gs, c), LetterHint([g], c);
    var j := Join(before, last);
    forall h ensures Recorded(gs + [g], c, h) <==> Recorded(gs, c, h) || Recorded([g], c, h) {
      if Recorded(gs + [g], c, h) {
        var x :| x in gs + [g] && (c, h) in x;
        if x == g { assert x in [g]; } else { assert x in gs; }
      }
      if Recorded(gs, c, h) {
        var x :| x in gs && (c, h) in x;
        assert x in gs + [g];
      }
      if Recorded([g], c, h) {
        assert g in gs + [g];
      }
    }
    assert Occurs(gs + [g], c) <==> Occurs(gs, c) || Occurs([g], c) by {
      if Occurs(gs + [g], c) {
        var x, e :| x in gs + [g] && e in x && e.0 == c;
        if x == g { assert x in [g]; } else { assert x in gs; }
      }
      if Occurs(gs, c) {
        var x, e :| x in gs && e in x && e.0 == c;
        assert x in gs + [g];
      }
      if Occurs([g], c) {
        assert g in gs + [g];
      }
    }
    if all.Some? {
      assert j.Some?;
      assert Recorded(gs + [g], c, j.value);
      assert Le(j.value, all.value);
      assert Le(all.value, j.value);
      HintOrderIsTotal();
    }
  }

  /**
   * Recording more guesses never weakens the hint for any letter: every hint
   * recorded before is still recorded, so the maximum can only grow.
   */
  lemma HintNeverDecreases(gs: seq<GuessResult>, more: seq<GuessResult>, c: char)
    ensures AtLeast(LetterHint(gs + more, c), LetterHint(gs, c))
  {
    var before := LetterHint(gs, c);
    if before.Some? {
      var g :| g in gs && (c, before.value) in g;
      assert g in gs + more;
    }
  }

  /** Once a letter's hint is Green it stays Green whatever is guessed next. */
  lemma GreenStaysGreen(gs: seq<GuessResult>, more: seq<GuessResult>, c: char)
    requires LetterHint(gs, c) == Some(Green)
    ensures LetterHint(gs + more, c) == Some(Green)
  {
    HintNeverDecreases(gs, more, c);
  }

  /** A letter placed where the solution has it makes that letter's hint Green. */
  lemma ExactMatchGivesGreen(gs: seq<GuessResult>, guess: string, solution: string, i: nat)
    requires i < |guess| && i < |solution| && guess[i] == solution[i]
    ensures LetterHint(gs + [Score(guess, solution)], guess[i]) == Some(Green)
  {
    var g := Score(guess, solution);
    assert g[i] == (guess[i], Green);
    assert g in gs + [g];
    assert Recorded(gs + [g], guess[i], Green);
  }

  /** Reason `Wordle.Guess` can fail. */
  datatype GuessError = WrongLength

  /** A game: the hidden word and the guesses scored so far, oldest first. */
  class Wordle {
    var word: string
    var guesses: seq<GuessResult>

    /** A game on entry `challengeNumber` of the word list, with no guesses yet. */
    constructor (words: seq<string>, challengeNumber: nat)
      requires challengeNumber < |words|
      ensures word == words[challengeNumber]
      ensures guesses == []
    {
      word := words[challengeNumber];
      guesses := [];
    }

    /**
     * Scores `guess` and appends the result to the history; a guess of the
     * wrong length is refused and the history is left as it was.
     */
    method Guess(guess: string) returns (r: Result<GuessResult, GuessError>)
      modifies this
      ensures word == old(word)
      ensures |guess| != WordLength ==> r == Failure(WrongLength) && guesses == old(guesses)
      ensures |guess| == WordLength ==>
                r == Success(Score(guess, word)) && guesses == old(guesses) + [r.value]
    {
      if |guess| != WordLength {
        return Failure(WrongLength);
      }
      var result := Score(guess, word);
      guesses := guesses + [result];
      r := Success(result);
    }

    /** The strongest hint recorded so far for `c`, or nothing if `c` was never guessed. */
    function HintFor(c: char): (r: Option<Hint>)
      reads this
      ensures r == LetterHint(guesses, c)
    {
      LetterHint(guesses, c)
    }
  }
}
