/** Whole rounds: guessing every letter of the answer wins, a run of wrong
    letters costs one life each and loses exactly when the lives run out,
    and a concrete round on "python". */
module Play {
  import opened Chars
  import opened Words
  import opened Masking
  import opened State
  import opened Engine
  import opened Invariants

  /** Guess the letters one after another, all at time `now`. */
  function GuessAll(s: GameState, letters: seq<char>, now: real): (r: GameState)
    requires |s.masked| == |s.answer|
    ensures |r.masked| == |r.answer|
    decreases |letters|
  {
    if letters == [] then s else GuessAll(Guess(s, [letters[0]], now).1, letters[1..], now)
  }

  /** Every letter of `a` is among the guesses `g` or the letters still to
      be tried. */
  predicate Covers(a: string, g: set<char>, letters: seq<char>) {
    forall i :: 0 <= i < |a| && IsLetter(a[i]) ==> Lower(a[i]) in g || Lower(a[i]) in LowerAll(letters)
  }

  lemma {:induction false} GuessAllFromOver(s: GameState, letters: seq<char>, now: real)
    requires |s.masked| == |s.answer| && s.over
    ensures GuessAll(s, letters, now) == s
    decreases |letters|
  {
    if letters != [] {
      GuessAllFromOver(Guess(s, [letters[0]], now).1, letters[1..], now);
    }
  }

  /** Guessing (in any case) every distinct letter of the answer, before
      the time limit runs out, wins the round. */
  lemma {:induction false} GuessingEveryLetterWins(s: GameState, letters: seq<char>, now: real)
    requires Valid(s) && !s.over
    requires s.timeLimit > 0 && now - s.lastActionTime < s.timeLimit as real
    requires forall k :: 0 <= k < |letters| ==> IsLetter(letters[k]) && Lower(letters[k]) in LowerAll(s.answer)
    requires Covers(s.answer, s.guesses, letters)
    ensures GuessAll(s, letters, now).won && GuessAll(s, letters, now).over
    decreases |letters|
  {
    if letters == [] {
      FullyRevealedIff(s.answer, s.guesses);
      assert false;
    } else {
      var letter := [letters[0]];
      var s1 := Guess(s, letter, now).1;
      GuessPreservesValid(s, letter, now);
      assert AfterTimeout(s, now) == s;
      assert ValidGuess(letter);
      if s1.over {
        GuessAllFromOver(s1, letters[1..], now);
      } else {
        var rest := letters[1..];
        forall i | 0 <= i < |s.answer| && IsLetter(s.answer[i])
          ensures Lower(s.answer[i]) in s1.guesses || Lower(s.answer[i]) in LowerAll(rest)
        {
          if Lower(s.answer[i]) !in s.guesses {
            var k :| 0 <= k < |letters| && LowerAll(letters)[k] == Lower(s.answer[i]);
            if k > 0 {
              assert LowerAll(rest)[k - 1] == Lower(s.answer[i]);
            }
          }
        }
        GuessingEveryLetterWins(s1, rest, now);
      }
    }
  }

  /** Distinct new letters that are not in the answer, guessed before the
      time limit, cost one life each; the round is lost exactly when as many
      have been guessed as there were lives, and is still active before. */
  lemma {:induction false} MissesCostOneLifeEach(s: GameState, letters: seq<char>, now: real)
    requires Valid(s) && LivesValid(s) && !s.over
    requires s.timeLimit > 0 && now - s.lastActionTime < s.timeLimit as real
    requires |letters| <= s.lives
    requires forall k :: 0 <= k < |letters| ==> IsLetter(letters[k]) && Lower(letters[k]) !in LowerAll(s.answer)
    requires forall k :: 0 <= k < |letters| ==> Lower(letters[k]) !in s.guesses
    requires forall j, k :: 0 <= j < k < |letters| ==> Lower(letters[j]) != Lower(letters[k])
    ensures GuessAll(s, letters, now).lives == s.lives - |letters|
    ensures GuessAll(s, letters, now).over <==> |letters| == s.lives
    ensures !GuessAll(s, letters, now).won
    decreases |letters|
  {
    if letters != [] {
      var letter := [letters[0]];
      var s1 := Guess(s, letter, now).1;
      GuessPreservesValid(s, letter, now);
      assert AfterTimeout(s, now) == s;
      assert ValidGuess(letter) && Letter(letter) == Lower(letters[0]);
      var rest := letters[1..];
      if s1.over {
        assert rest == [];
      } else {
        assert forall k :: 0 <= k < |rest| ==> Lower(rest[k]) !in s1.guesses by {
          forall k | 0 <= k < |rest|
            ensures Lower(rest[k]) !in s1.guesses
          {
            assert rest[k] == letters[k + 1];
          }
        }
        MissesCostOneLifeEach(s1, rest, now);
      }
    }
  }

  /** An active round on "python" with a two-second limit. */
  predicate PythonAt(s: GameState, masked: string, lives: int, guesses: set<char>, last: real) {
    && s.answer == "python" && s.masked == masked && s.lives == lives
    && s.guesses == guesses && s.lastActionTime == last && s.timeLimit == 2
    && !s.over && !s.won
  }

  lemma PythonFresh(s0: GameState)
    requires FreshFor(s0, Config(Basic, 3, 2), 0.0) && s0.answer == "python"
    ensures PythonAt(s0, "______", 3, {}, 0.0)
  {
    assert forall i :: 0 <= i < 6 ==> IsLetter(s0.answer[i]);
    assert forall i :: 0 <= i < 6 ==> s0.masked[i] == "______"[i];
  }

  lemma PythonRevealP(a: string, m: string)
    requires a == "python" && m == "______"
    ensures 'p' in LowerAll(a)
    ensures Reveal(a, m, 'p') == "p_____"
  {
    assert LowerAll(a)[0] == 'p';
    var m' := Reveal(a, m, 'p');
    assert forall i :: 1 <= i < 6 ==> Lower(a[i]) != 'p';
    assert forall i :: 0 <= i < 6 ==> m'[i] == "p_____"[i];
  }

  lemma PythonHitP(s0: GameState)
    requires PythonAt(s0, "______", 3, {}, 0.0)
    ensures Guess(s0, "p", 1.0).0 == Hit("p_____", 3)
    ensures PythonAt(Guess(s0, "p", 1.0).1, "p_____", 3, {'p'}, 1.0)
  {
    assert AfterTimeout(s0, 1.0) == s0;
    assert ValidGuess("p") && Letter("p") == 'p';
    PythonRevealP(s0.answer, s0.masked);
    assert Placeholder in "p_____" by {
      assert "p_____"[1] == Placeholder;
    }
  }

  lemma PythonMissZ(s1: GameState)
    requires PythonAt(s1, "p_____", 3, {'p'}, 1.0)
    ensures Guess(s1, "z", 1.5).0 == Miss("p_____", 2)
    ensures PythonAt(Guess(s1, "z", 1.5).1, "p_____", 2, {'p', 'z'}, 1.5)
  {
    assert AfterTimeout(s1, 1.5) == s1;
    assert ValidGuess("z") && Letter("z") == 'z';
    assert forall i :: 0 <= i < 6 ==> Lower(s1.answer[i]) != 'z';
    assert 'z' !in LowerAll(s1.answer);
  }

  lemma PythonRepeatZ(s2: GameState)
    requires PythonAt(s2, "p_____", 2, {'p', 'z'}, 1.5)
    ensures Guess(s2, "z", 2.0) == (Repeat("p_____", 2), s2)
  {
    assert AfterTimeout(s2, 2.0) == s2;
    assert ValidGuess("z") && Letter("z") == 'z';
  }

  lemma PythonInvalid(s3: GameState)
    requires PythonAt(s3, "p_____", 2, {'p', 'z'}, 1.5)
    ensures Guess(s3, "1", 2.5) == (Invalid(InvalidReason), s3)
  {
    assert AfterTimeout(s3, 2.5) == s3;
    assert !ValidGuess("1");
  }

  /** Basic level, three lives, a two-second limit, and a random source
      that picks "python": 'p' hits, 'z' misses, 'z' again is a free repeat
      and '1' is rejected. */
  lemma PythonRound(s0: GameState)
    requires FreshFor(s0, Config(Basic, 3, 2), 0.0) && s0.answer == "python"
    ensures s0.masked == "______"
    ensures var g1 := Guess(s0, "p", 1.0);
      && g1.0 == Hit("p_____", 3)
      && var g2 := Guess(g1.1, "z", 1.5);
      && g2.0 == Miss("p_____", 2)
      && var g3 := Guess(g2.1, "z", 2.0);
      && g3.0 == Repeat("p_____", 2)
      && Guess(g3.1, "1", 2.5).0.Invalid?
  {
    PythonFresh(s0);
    PythonHitP(s0);
    var s1 := Guess(s0, "p", 1.0).1;
    PythonMissZ(s1);
    var s2 := Guess(s1, "z", 1.5).1;
    PythonRepeatZ(s2);
    PythonInvalid(s2);
  }
}
