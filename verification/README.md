# Hangman game engine in Dafny

This project models the game-state engine of a small Hangman game (`HangmanGame` in
`hangman/engine.py`). The engine keeps one round in a `GameState` record. The record holds
the secret answer, a per-character mask, a lives counter, the set of guessed letters, the
`won`/`over` flags, the time of the last action and the inactivity time limit.

Every engine operation is a pure function over an immutable `GameState`:

- construction and `reset`;
- `guess`;
- the inactivity check (`tick` and `_apply_timeout_if_any`);
- `deduct_life`;
- the internal `_finish`.

The random source is an index `pick` into the level's word or phrase list. The clock is an
explicit timestamp `now`, a real number of seconds. So every transition is deterministic.
`guess` returns a `(GuessResult, GameState)` pair. `GuessResult` has the variants `Invalid`,
`Repeat`, `Hit`, `Miss` and `Over`, like the source's result dictionary.

Modules:

- `Chars` (chars.dfy): the ASCII letter test, lower-casing, the maskability test
  `_mask_char`, and the guess validation.
- `Words` (words.dfy): the two fixed answer lists, the `basic` / `intermediate` levels, the
  configuration error for any other level name, and the random choice.
- `Masking` (masking.dfy): the initial mask and the reveal step. Both are checked against a
  reference view `Revealed(answer, guesses)`, which is what a player who has tried exactly
  those letters should see.
- `State` (state.dfy): the `GameState`, `Config` and `Game` records. It also defines the
  invariant `Valid`, which says:
  - the mask has the answer's length;
  - guesses are lower-case letters;
  - `won` implies `over`;
  - a finished round shows the whole answer;
  - an active round shows exactly the reference view and still has a placeholder;
  - a round that ended without a win has run out of lives.
- `Engine` (engine.dfy): the operations.
- `Invariants` (invariants.dfy): every operation keeps `Valid`, a finished round is frozen,
  and guesses only grow along any run of operations.
- `Play` (play.dfy): whole-round properties, plus the three-lives scenario on the answer
  "python".

The construction defaults (level "basic", six lives, fifteen seconds) are the default
parameter values of `Engine.New`, through the constants `Engine.DefaultLives` and
`Engine.DefaultTimeLimit`.

Two behaviours of the code are worth noting:

- A guess first runs the timeout check, and that check can deduct a life. If the guess
  then misses, it deducts a second life. So one `guess` call can cost two lives
  (`Invariants.LateMissCostsTwoLives`). Only `deduct_life` and `tick` are limited to one
  life per call.
- `lives` is not kept non-negative if the configured lives are 0 or less: the first miss
  takes it below zero. `State.LivesValid` ("lives >= 0, and an active round has a life")
  holds from construction exactly when at least one life is configured
  (`Invariants.NewStateLives`). Every operation preserves it.

## Model

| member | source | states |
|---|---|---|
| `Chars.MaskChar` | hangman/engine.py:20-21 | a character is masked exactly when it is an ASCII letter, so the placeholder itself is never masked |
| `Chars.ValidGuess` | hangman/engine.py:113-114 | a guess is accepted exactly when it is one character and that character is an ASCII letter; its lower-case form is then one of a-z |
| `Words.ParseLevel` | hangman/engine.py:38-41 | only the exact names "basic" and "intermediate" are levels; any other name is an `InvalidLevel` error carrying that name |
| `Words.PickAnswer` | hangman/engine.py:50-53 | the answer comes from the basic word list for the basic level and from the phrase list otherwise, and it is playable (no placeholder character, at least one letter) |
| `Words.EntryWellFormed` | hangman/engine.py:7-18 | each entry of the chosen list, taken by index, contains a letter and no placeholder character |
| `Words.PoolWellFormed` | hangman/engine.py:7-18 | every entry of both lists contains a letter and no placeholder character |
| `Masking.Mask` | hangman/engine.py:55-56 | the initial mask has the answer's length, hides exactly the letter positions, shows every other character as is, and equals the reference view for no guesses |
| `Masking.Reveal` | hangman/engine.py:124-128 | revealing a letter sets every position whose letter matches it case-insensitively to the answer's own character (original case) and leaves all other slots unchanged |
| `Masking.RevealExtendsView` | hangman/engine.py:121-128 | revealing a newly guessed letter in the view for guesses g gives the view for g plus that letter |
| `Masking.MissKeepsView` | hangman/engine.py:124-134 | adding a letter that occurs nowhere in the answer does not change the view |
| `Masking.FullyRevealedIff` | hangman/engine.py:129-130 | the view has no placeholder exactly when every letter of the answer has been guessed, and exactly when it equals the answer |
| `Masking.PlaceholderCount` | hangman/engine.py:55-56 | the initial display holds as many placeholders as the answer has letters |
| `State.ValidSlotsConsistent` | hangman/engine.py:126-128 | in every valid state each slot is the placeholder or the answer's character at that position |
| `Engine.NewState` | hangman/engine.py:58-69 | a new round draws its answer from the level's list and has the initial mask, the configured lives and time limit, no guesses, neither won nor over, the clock at `now`, and meets every invariant |
| `Engine.FreshStateValid` | hangman/engine.py:58-69 | a state built from a list answer and its initial mask is fresh and valid |
| `Engine.New` | hangman/engine.py:38-47 | construction fails with `InvalidLevel` exactly for level names other than "basic" and "intermediate"; otherwise it stores the configuration and a fresh valid round whose answer is from the matching list |
| `Engine.DefaultConstruction` | hangman/engine.py:38-47 | with every default, construction succeeds with the basic level, six lives and a fifteen-second limit, and the answer is a basic word |
| `Engine.Reset` | hangman/engine.py:155-156 | reset keeps the configuration and starts a fresh valid round: configured lives, empty guesses, at least one placeholder showing |
| `Engine.Display` | hangman/engine.py:72-74 | in a valid state the display has the answer's length, is the answer once the round is over, and shows a placeholder while it is active |
| `Engine.GuessedLetters` | hangman/engine.py:84-86 | in a valid state the guessed letters handed out are all lower-case letters |
| `Engine.IsWon` | hangman/engine.py:152-153 | in a valid state a won round is over |
| `Engine.Finish` | hangman/engine.py:143-147 | finishing sets `over` and the given `won`, replaces the mask by the full answer, and keeps lives, guesses and timestamps |
| `Engine.DeductLife` | hangman/engine.py:136-141 | on a finished round nothing changes; otherwise exactly one life is taken, and the round is lost (not won, answer revealed) exactly when the counter reaches zero or below |
| `Engine.ApplyTimeout` | hangman/engine.py:89-97 | a life is deducted exactly when the round is active and at least the time limit has passed since the last action; then exactly one life goes however long the wait, and the clock restarts at `now`; otherwise nothing changes |
| `Engine.Tick` | hangman/engine.py:99-101 | polling reports a deduction under the same condition, costs at most one life, and leaves a finished round alone |
| `Engine.Accept` | hangman/engine.py:116-134 | an accepted new letter is added to the guesses, lower-cased, and restarts the clock. A hit costs no life and reveals exactly the matching positions; it wins exactly when no placeholder is left. A miss costs one life and loses exactly at zero |
| `Engine.Guess` | hangman/engine.py:103-134 | a finished round reports `Over` and changes nothing. The timeout check runs first, and a round it ends reports `Over`. Invalid input and repeated letters change nothing beyond the timeout check. Only a valid new letter is accepted. Lives fall by at most two |
| `Invariants.DeductLifePreservesValid` | hangman/engine.py:136-147 | deducting a life keeps every state invariant and the lives invariant |
| `Invariants.TimeoutPreservesValid` | hangman/engine.py:89-97 | the timeout check keeps every state invariant and the lives invariant |
| `Invariants.AcceptPreservesValid` | hangman/engine.py:116-134 | accepting a new letter keeps the mask equal to the view of the enlarged guess set, or finishes the round with the answer revealed |
| `Invariants.GuessPreservesValid` | hangman/engine.py:103-134 | every guess keeps every state invariant and the lives invariant |
| `Invariants.NewStateLives` | hangman/engine.py:60-66 | a fresh round satisfies the lives invariant exactly when at least one life is configured |
| `Invariants.LateMissCostsTwoLives` | hangman/engine.py:107-108 | a wrong new letter guessed after the time limit has passed costs two lives in one call |
| `Invariants.Step` | hangman/engine.py:99-141 | no operation changes the answer, removes a guess or adds a life, and none changes a finished round |
| `Invariants.StepPreservesValid` | hangman/engine.py:99-141 | each of guess, tick and deduct_life keeps the invariants |
| `Invariants.RunPreservesValid` | hangman/engine.py:103-147 | every state reachable from a valid one by any sequence of operations is valid |
| `Invariants.OverIsAbsorbing` | hangman/engine.py:103-111 | once the round is over, no sequence of operations changes the state |
| `Invariants.RunMonotone` | hangman/engine.py:116-121 | along any run the answer is fixed, guesses only grow, lives never rise, and a finished round stays finished with the same outcome |
| `Play.GuessAllFromOver` | hangman/engine.py:104-105 | a finished round ignores any series of guesses |
| `Play.GuessingEveryLetterWins` | hangman/engine.py:124-131 | guessing, in either case and within the time limit, letters that occur in the answer and together cover all of its letters wins the round |
| `Play.MissesCostOneLifeEach` | hangman/engine.py:132-141 | k distinct new wrong letters, guessed within the time limit, cost exactly k lives; the round is lost exactly when k equals the lives left and is never won |
| `Play.PythonFresh` | hangman/engine.py:55-69 | a fresh round on "python" shows six placeholders with three lives |
| `Play.PythonRevealP` | hangman/engine.py:124-128 | revealing 'p' in "python" shows "p_____" |
| `Play.PythonHitP` | hangman/engine.py:121-131 | guessing "p" is a hit showing "p_____" with three lives |
| `Play.PythonMissZ` | hangman/engine.py:132-134 | then guessing "z" is a miss leaving two lives |
| `Play.PythonRepeatZ` | hangman/engine.py:116-119 | guessing "z" again is a repeat that changes nothing |
| `Play.PythonInvalid` | hangman/engine.py:113-114 | guessing "1" is invalid and changes nothing |
| `Play.PythonRound` | hangman/engine.py:103-134 | with three lives and a two-second limit on "python": 'p' hits, 'z' misses, 'z' repeats, '1' is invalid |

## Left out

- The terminal front end (hangman/cli.py) and the graphical front end (hangman/main.py) are
  left out. They are input/output, a background reading thread and a self-rescheduling UI
  timer.
- Randomness: `rng.choice` is an index `pick` below the list's length. Uniformity is not
  modelled. A reset may pick the same answer again, so the model does not claim the answer
  changes.
- Clock: `time.time()` and the optional `now` argument are one explicit real timestamp. When
  no `now` is given, the source reads the clock twice in one guess: once in the timeout
  check and once when it records the accepted letter. The model uses a single reading for
  both.
- Floating point: timestamps are exact reals. Float rounding in `now - last_action_time` is
  not modelled.
- Case folding is ASCII only. Python's `str.lower()` also maps some non-ASCII characters
  onto a-z; the Kelvin sign, for example, becomes "k". So the source would accept some
  non-ASCII guesses that the model rejects.
- The `answer` and `remaining_lives` properties and `is_over` are plain reads of the
  `answer`, `lives` and `over` fields; they carry no contract.
- The engine mutates its state in place. The model returns a new state, and `Game` pairs
  the configuration with the current round.
- Engine.Tick: its contract gives only the deduction condition, the one-life bound and the
  frozen finished round. The rest of its behaviour is the contract of
  `Engine.ApplyTimeout`, which it calls.
- Engine.Guess: requires the mask to be as long as the answer. Every state the engine
  builds has this shape: `_new_state` builds the mask from the answer
  (hangman/engine.py:55-56, 62) and `_finish` replaces it by the answer
  (hangman/engine.py:147). With a shorter mask, the source would raise an index error only
  on a hit at a position at or past the mask's end (hangman/engine.py:128).
