/** The state invariants are kept by every operation, a finished round is
    frozen, and the guess history only grows. */
module Invariants {
  import opened Chars
  import opened Words
  import opened Masking
  import opened State
  import opened Engine

  // ----- single operations -----

  lemma DeductLifePreservesValid(s: GameState)
    requires Valid(s)
    ensures Valid(DeductLife(s))
    ensures LivesValid(s) ==> LivesValid(DeductLife(s))
  {
  }

  lemma TimeoutPreservesValid(s: GameState, now: real)
    requires Valid(s)
    ensures Valid(ApplyTimeout(s, now).1)
    ensures LivesValid(s) ==> LivesValid(ApplyTimeout(s, now).1)
  {
    DeductLifePreservesValid(s);
  }

  lemma AcceptPreservesValid(t: GameState, l: char, now: real)
    requires Valid(t) && !t.over
    requires IsLower(l) && l !in t.guesses
    ensures Valid(Accept(t, l, now).1)
    ensures LivesValid(t) ==> LivesValid(Accept(t, l, now).1)
  {
    var r := Accept(t, l, now);
    if r.0.Hit? {
      RevealExtendsView(t.answer, t.guesses, l);
    } else {
      MissKeepsView(t.answer, t.guesses, l);
    }
  }

  lemma GuessPreservesValid(s: GameState, letter: string, now: real)
    requires Valid(s)
    ensures Valid(Guess(s, letter, now).1)
    ensures LivesValid(s) ==> LivesValid(Guess(s, letter, now).1)
  {
    TimeoutPreservesValid(s, now);
    var t := AfterTimeout(s, now);
    if !s.over && !t.over && ValidGuess(letter) && Letter(letter) !in s.guesses {
      AcceptPreservesValid(t, Letter(letter), now);
    }
  }

  /** A fresh round meets `LivesValid` exactly when at least one life is
      configured. */
  lemma NewStateLives(c: Config, pick: nat, now: real)
    requires pick < |Pool(c.level)|
    ensures LivesValid(NewState(c, pick, now)) <==> c.lives >= 1
  {
  }

  /** A timeout that is followed by a miss on the same guess costs two
      lives in one call. */
  lemma LateMissCostsTwoLives(s: GameState, letter: string, now: real)
    requires Valid(s) && !s.over && s.lives >= 2
    requires now - s.lastActionTime >= s.timeLimit as real
    requires ValidGuess(letter) && Letter(letter) !in s.guesses
    requires Letter(letter) !in LowerAll(s.answer)
    ensures Guess(s, letter, now).0.Miss?
    ensures Guess(s, letter, now).1.lives == s.lives - 2
  {
  }

  // ----- sequences of operations -----

  /** The operations a caller can apply to a round. */
  datatype Op =
    | GuessOp(letter: string, now: real)
    | TickOp(now: real)
    | DeductOp

  function Step(s: GameState, op: Op): (r: GameState)
    requires |s.masked| == |s.answer|
    ensures |r.masked| == |r.answer|
    ensures r.answer == s.answer && s.guesses <= r.guesses
    ensures s.over ==> r == s
    ensures r.lives <= s.lives
  {
    match op
    case GuessOp(letter, now) => Guess(s, letter, now).1
    case TickOp(now) => Tick(s, now).1
    case DeductOp => DeductLife(s)
  }

  function Run(s: GameState, ops: seq<Op>): (r: GameState)
    requires |s.masked| == |s.answer|
    ensures |r.masked| == |r.answer|
    decreases |ops|
  {
    if ops == [] then s else Run(Step(s, ops[0]), ops[1..])
  }

  lemma StepPreservesValid(s: GameState, op: Op)
    requires Valid(s)
    ensures Valid(Step(s, op))
    ensures LivesValid(s) ==> LivesValid(Step(s, op))
  {
    match op
    case GuessOp(letter, now) => GuessPreservesValid(s, letter, now);
    case TickOp(now) => TimeoutPreservesValid(s, now);
    case DeductOp => DeductLifePreservesValid(s);
  }

  /** Every state reachable from a valid one is valid. */
  lemma {:induction false} RunPreservesValid(s: GameState, ops: seq<Op>)
    requires Valid(s)
    ensures Valid(Run(s, ops))
    ensures LivesValid(s) ==> LivesValid(Run(s, ops))
    decreases |ops|
  {
    if ops != [] {
      StepPreservesValid(s, ops[0]);
      RunPreservesValid(Step(s, ops[0]), ops[1..]);
    }
  }

  /** Once the round is over, no sequence of operations changes it. */
  lemma {:induction false} OverIsAbsorbing(s: GameState, ops: seq<Op>)
    requires |s.masked| == |s.answer| && s.over
    ensures Run(s, ops) == s
    decreases |ops|
  {
    if ops != [] {
      OverIsAbsorbing(Step(s, ops[0]), ops[1..]);
    }
  }

  /** Along any run the answer is fixed, guesses only grow, lives never
      rise, and a finished or won round stays so. */
  lemma {:induction false} RunMonotone(s: GameState, ops: seq<Op>)
    requires |s.masked| == |s.answer|
    ensures Run(s, ops).answer == s.answer
    ensures s.guesses <= Run(s, ops).guesses
    ensures Run(s, ops).lives <= s.lives
    ensures s.over ==> Run(s, ops).over && Run(s, ops).won == s.won
    decreases |ops|
  {
    if ops != [] {
      RunMonotone(Step(s, ops[0]), ops[1..]);
    }
  }
}
