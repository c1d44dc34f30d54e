/** The Hangman engine's operations as pure transitions over `GameState`.

    The random source is an index `pick` into the level's list and the
    clock is an explicit timestamp `now`, so every transition is a
    deterministic function returning the new state (and, for `Guess`, the
    result record). */
module Engine {
  import opened Chars
  import opened Words
  import opened Masking
  import opened State

  /** The result record of a guess; every variant but `Invalid` carries the
      display and the lives left after the call. */
  datatype GuessResult =
    | Invalid(reason: string)
    | Repeat(display: string, lives: int)
    | Hit(display: string, lives: int)
    | Miss(display: string, lives: int)
    | Over(display: string, lives: int)

  const InvalidReason: string := "Enter a single A-Z letter."

  /** Construction defaults of the Python engine: six lives, fifteen seconds. */
  const DefaultLives: int := 6
  const DefaultTimeLimit: int := 15

  // ----- construction -----

  /** A fresh round for configuration `c`, answer chosen by `pick`. */
  function NewState(c: Config, pick: nat, now: real): (s: GameState)
    requires pick < |Pool(c.level)|
    ensures FreshFor(s, c, now)
    ensures Valid(s)
  {
    var answer := PickAnswer(c.level, pick);
    FreshStateValid(c, answer, now);
    GameState(answer, Mask(answer), c.lives, {}, false, false, now, c.timeLimit)
  }

  /** A state built from a list answer and its initial mask is fresh and
      meets every invariant. */
  lemma FreshStateValid(c: Config, answer: string, now: real)
    requires answer in Pool(c.level)
    ensures FreshFor(GameState(answer, Mask(answer), c.lives, {}, false, false, now, c.timeLimit), c, now)
    ensures Valid(GameState(answer, Mask(answer), c.lives, {}, false, false, now, c.timeLimit))
  {
    Words.PoolWellFormed(c.level);
    var k :| 0 <= k < |answer| && IsLetter(answer[k]);
    assert Mask(answer)[k] == Placeholder;
  }

  /** Construction: any level name other than "basic" or "intermediate" is
      rejected before a round is created. The level, lives and time limit
      default to "basic", `DefaultLives` and `DefaultTimeLimit`. */
  function New(pick: nat, now: real, levelName: string := "basic", lives: int := DefaultLives, timeLimit: int := DefaultTimeLimit): (r: Result<Game>)
    requires ParseLevel(levelName).Ok? ==> pick < |Pool(ParseLevel(levelName).value)|
    ensures r.Ok? <==> levelName == "basic" || levelName == "intermediate"
    ensures r.Err? ==> r.error == InvalidLevel(levelName)
    ensures r.Ok? ==> r.value.config == Config(ParseLevel(levelName).value, lives, timeLimit)
    ensures r.Ok? && levelName == "basic" ==> r.value.state.answer in BasicWords
    ensures r.Ok? && levelName == "intermediate" ==> r.value.state.answer in IntermediatePhrases
    ensures r.Ok? ==> FreshFor(r.value.state, r.value.config, now) && Valid(r.value.state)
  {
    match ParseLevel(levelName)
    case Err(e) => Err(e)
    case Ok(level) =>
      var c := Config(level, lives, timeLimit);
      Ok(Game(c, NewState(c, pick, now)))
  }

  /** Construction with every default: a basic round with six lives and a
      fifteen-second limit. */
  lemma DefaultConstruction(pick: nat, now: real)
    requires pick < |BasicWords|
    ensures New(pick, now).Ok?
    ensures New(pick, now).value.config == Config(Basic, 6, 15)
    ensures New(pick, now).value.state.answer in BasicWords
  {
  }

  /** Discard the current round and start a fresh one with the same
      configuration: full lives, no guesses, a new (possibly equal) answer. */
  function Reset(g: Game, pick: nat, now: real): (r: Game)
    requires pick < |Pool(g.config.level)|
    ensures r.config == g.config
    ensures FreshFor(r.state, g.config, now) && Valid(r.state)
    ensures r.state.lives == g.config.lives && r.state.guesses == {}
    ensures Placeholder in r.state.masked
  {
    Game(g.config, NewState(g.config, pick, now))
  }

  // ----- queries -----

  /** The masked characters joined into one string. */
  function Display(s: GameState): (d: string)
    ensures Valid(s) ==> |d| == |s.answer|
    ensures Valid(s) && s.over ==> d == s.answer
    ensures Valid(s) && !s.over ==> Placeholder in d
  {
    s.masked
  }

  /** The guess set, handed out by value. */
  function GuessedLetters(s: GameState): (r: set<char>)
    ensures Valid(s) ==> forall c <- r :: IsLower(c)
  {
    s.guesses
  }

  function IsOver(s: GameState): bool {
    s.over
  }

  function IsWon(s: GameState): (r: bool)
    ensures Valid(s) && r ==> IsOver(s)
  {
    s.won
  }

  // ----- transitions -----

  /** End the round, revealing the whole answer whatever was guessed. */
  function Finish(s: GameState, won: bool): (r: GameState)
    ensures r.over && r.won == won
    ensures r.masked == s.answer
    ensures r.answer == s.answer && r.lives == s.lives && r.guesses == s.guesses
    ensures r.lastActionTime == s.lastActionTime && r.timeLimit == s.timeLimit
  {
    s.(won := won, over := true, masked := s.answer)
  }

  /** Remove one life unless the round is over; the round is lost when the
      counter reaches zero or below. */
  function DeductLife(s: GameState): (r: GameState)
    ensures s.over ==> r == s
    ensures !s.over ==> r.lives == s.lives - 1
    ensures !s.over ==> (r.over <==> r.lives <= 0)
    ensures r.over && !s.over ==> !r.won && r.masked == s.answer
    ensures !r.over ==> r.masked == s.masked && r.won == s.won
    ensures r.answer == s.answer && r.guesses == s.guesses
    ensures r.lastActionTime == s.lastActionTime && r.timeLimit == s.timeLimit
  {
    if s.over then s
    else
      var t := s.(lives := s.lives - 1);
      if t.lives <= 0 then Finish(t, false) else t
  }

  /** The inactivity penalty: when the round is active and at least
      `timeLimit` seconds have passed since the last action, one life is
      deducted (however long the wait) and the clock restarts at `now`.
      The flag says whether a life was deducted. */
  function ApplyTimeout(s: GameState, now: real): (r: (bool, GameState))
    ensures r.0 <==> !s.over && now - s.lastActionTime >= s.timeLimit as real
    ensures !r.0 ==> r.1 == s
    ensures r.0 ==> r.1.lives == s.lives - 1 && r.1.lastActionTime == now
    ensures r.0 ==> (r.1.over <==> r.1.lives <= 0)
    ensures r.0 && r.1.over ==> !r.1.won && r.1.masked == s.answer
    ensures !r.1.over ==> r.1.masked == s.masked && r.1.won == s.won
    ensures r.1.answer == s.answer && r.1.guesses == s.guesses && r.1.timeLimit == s.timeLimit
  {
    if !s.over && now - s.lastActionTime >= s.timeLimit as real then
      (true, DeductLife(s).(lastActionTime := now))
    else
      (false, s)
  }

  /** Polling for inactivity without a guess. */
  function Tick(s: GameState, now: real): (r: (bool, GameState))
    ensures r.0 <==> !s.over && now - s.lastActionTime >= s.timeLimit as real
    ensures s.lives - 1 <= r.1.lives <= s.lives
    ensures s.over ==> r.1 == s
  {
    ApplyTimeout(s, now)
  }

  /** The state every guess path after the first "over" check starts from:
      the state left by the timeout check. */
  function AfterTimeout(s: GameState, now: real): GameState {
    ApplyTimeout(s, now).1
  }

  /** The lower-cased guessed letter of a valid guess. */
  function Letter(letter: string): (l: char)
    requires ValidGuess(letter)
    ensures IsLower(l)
  {
    Lower(letter[0])
  }

  /** An accepted new letter `l`: record it, restart the clock, then either
      reveal its positions (a hit, which wins once nothing is hidden) or
      deduct a life (a miss). */
  function Accept(t: GameState, l: char, now: real): (r: (GuessResult, GameState))
    requires |t.masked| == |t.answer| && !t.over
    ensures r.0.Hit? || r.0.Miss?
    ensures r.1.guesses == t.guesses + {l} && r.1.lastActionTime == now
    ensures r.0.Hit? <==> l in LowerAll(t.answer)
    // a hit costs nothing and reveals exactly the matching positions
    ensures r.0.Hit? ==> r.1.lives == t.lives
    ensures r.0.Hit? && !r.1.over ==> r.1.masked == Reveal(t.answer, t.masked, l) && r.1.won == t.won
    ensures r.0.Hit? && r.1.over ==> r.1.masked == t.answer && r.1.won
    ensures r.0.Hit? ==> (r.1.over <==> Placeholder !in Reveal(t.answer, t.masked, l))
    // a miss costs one life and loses the round at zero
    ensures r.0.Miss? ==> r.1.lives == t.lives - 1
    ensures r.0.Miss? ==> (r.1.over <==> r.1.lives <= 0)
    ensures r.0.Miss? && r.1.over ==> !r.1.won && r.1.masked == t.answer
    ensures r.0.Miss? && !r.1.over ==> r.1.masked == t.masked && r.1.won == t.won
    ensures r.0.display == r.1.masked && r.0.lives == r.1.lives
    ensures r.1.answer == t.answer && r.1.timeLimit == t.timeLimit
  {
    var u := t.(guesses := t.guesses + {l}, lastActionTime := now);
    if l in LowerAll(u.answer) then
      var revealed := u.(masked := Reveal(u.answer, u.masked, l));
      var v := if Placeholder !in revealed.masked then Finish(revealed, true) else revealed;
      (Hit(Display(v), v.lives), v)
    else
      var v := DeductLife(u);
      (Miss(Display(v), v.lives), v)
  }

  /** One guess at time `now`: the "over" check, the timeout check, the
      "over" check again, validation, the repeat check, then hit or miss. */
  function Guess(s: GameState, letter: string, now: real): (r: (GuessResult, GameState))
    requires |s.masked| == |s.answer|
    // a finished round ignores the guess
    ensures s.over ==> r == (Over(s.masked, s.lives), s)
    // the timeout check ends the round: report it, evaluate nothing
    ensures !s.over && AfterTimeout(s, now).over ==> r == (Over(s.answer, AfterTimeout(s, now).lives), AfterTimeout(s, now))
    // invalid input changes nothing beyond the timeout check
    ensures r.0.Invalid? <==> !AfterTimeout(s, now).over && !ValidGuess(letter)
    ensures r.0.Invalid? ==> r.0.reason == InvalidReason && r.1 == AfterTimeout(s, now)
    // a repeated letter changes nothing beyond the timeout check
    ensures r.0.Repeat? <==> !AfterTimeout(s, now).over && ValidGuess(letter) && Letter(letter) in s.guesses
    ensures r.0.Repeat? ==> r.1 == AfterTimeout(s, now)
    // a new letter is accepted on the state the timeout check left
    ensures r.0.Hit? || r.0.Miss? <==> !AfterTimeout(s, now).over && ValidGuess(letter) && Letter(letter) !in s.guesses
    ensures r.0.Hit? || r.0.Miss? ==> r == Accept(AfterTimeout(s, now), Letter(letter), now)
    // the reported display and lives are those of the new state
    ensures !r.0.Invalid? ==> r.0.display == r.1.masked && r.0.lives == r.1.lives
    // what no guess changes
    ensures r.1.answer == s.answer && r.1.timeLimit == s.timeLimit
    ensures |r.1.masked| == |r.1.answer|
    ensures s.guesses <= r.1.guesses
    ensures s.lives - 2 <= r.1.lives <= s.lives
  {
    if s.over then (Over(Display(s), s.lives), s)
    else
      var t := ApplyTimeout(s, now).1;
      if t.over then (Over(Display(t), t.lives), t)
      else if !ValidGuess(letter) then (Invalid(InvalidReason), t)
      else
        var l := Lower(letter[0]);
        if l in t.guesses then (Repeat(Display(t), t.lives), t)
        else Accept(t, l, now)
  }
}
