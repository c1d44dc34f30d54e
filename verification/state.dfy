/** The engine's record of one round, its construction-time configuration,
    and the invariants every reachable record satisfies. */
module State {
  import opened Chars
  import opened Words
  import opened Masking

  /** One round. `masked` holds one character per character of `answer`;
      timestamps are seconds as reals (the Python engine's float clock). */
  datatype GameState = GameState(
    answer: string,
    masked: seq<char>,
    lives: int,
    guesses: set<char>,
    won: bool,
    over: bool,
    lastActionTime: real,
    timeLimit: int
  )

  /** What construction fixes for every round of a game. */
  datatype Config = Config(level: Level, lives: int, timeLimit: int)

  /** The engine: its configuration and the current round. */
  datatype Game = Game(config: Config, state: GameState)

  /** The invariants of every state the engine can reach. */
  predicate Valid(s: GameState) {
    && WellFormedAnswer(s.answer)
    && |s.masked| == |s.answer|
    && (forall c <- s.guesses :: IsLower(c))
    && (s.won ==> s.over)
    // a finished round shows the whole answer
    && (s.over ==> s.masked == s.answer)
    // an active round shows exactly the guessed letters
    && (!s.over ==> s.masked == Revealed(s.answer, s.guesses))
    // an active round still has something to guess
    && (!s.over ==> Placeholder in s.masked)
    // a round that ended without a win ran out of lives
    && (s.over && !s.won ==> s.lives <= 0)
  }

  /** The lives counter never goes negative and an active round has a life
      left; this holds when the configured lives are at least one. */
  predicate LivesValid(s: GameState) {
    s.lives >= 0 && (!s.over ==> s.lives >= 1)
  }

  /** Every slot is the placeholder or the answer's own character. */
  predicate SlotsConsistent(s: GameState) {
    && |s.masked| == |s.answer|
    && forall i :: 0 <= i < |s.masked| ==> s.masked[i] == Placeholder || s.masked[i] == s.answer[i]
  }

  /** A state just created for configuration `c` at time `now`. */
  predicate FreshFor(s: GameState, c: Config, now: real) {
    && s.answer in Pool(c.level)
    && |s.masked| == |s.answer|
    && (forall i :: 0 <= i < |s.answer| ==> (s.masked[i] == Placeholder <==> IsLetter(s.answer[i])))
    && (forall i :: 0 <= i < |s.answer| && !IsLetter(s.answer[i]) ==> s.masked[i] == s.answer[i])
    && s.lives == c.lives
    && s.guesses == {}
    && !s.won
    && !s.over
    && s.lastActionTime == now
    && s.timeLimit == c.timeLimit
  }

  /** The reference view and the invariants give consistent slots. */
  lemma ValidSlotsConsistent(s: GameState)
    requires Valid(s)
    ensures SlotsConsistent(s)
  {
    if !s.over {
      forall i | 0 <= i < |s.masked|
        ensures s.masked[i] == Placeholder || s.masked[i] == s.answer[i]
      {
        assert s.masked[i] == Revealed(s.answer, s.guesses)[i];
      }
    }
  }
}
