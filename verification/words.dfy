/** The fixed answer sources, the two difficulty levels and the
    configuration error raised for any other level name. */
module Words {
  import opened Chars

  const BasicWords: seq<string> := [
    "python", "variable", "module", "program", "object", "string",
    "game", "package", "australia", "boolean", "world", "happy", "dictionary"
  ]

  const IntermediatePhrases: seq<string> := [
    "open source software",
    "artificial intelligence",
    "once in a blue moon",
    "hangman game",
    "jaw dropping experience"
  ]

  datatype Level = Basic | Intermediate

  /** The one error construction can report. */
  datatype ConfigError = InvalidLevel(name: string)

  datatype Result<+T> = Ok(value: T) | Err(error: ConfigError)

  /** Level names are matched exactly (case-sensitive). */
  function ParseLevel(name: string): (r: Result<Level>)
    ensures r.Ok? <==> name == "basic" || name == "intermediate"
    ensures r == Ok(Basic) <==> name == "basic"
    ensures r == Ok(Intermediate) <==> name == "intermediate"
    ensures r.Err? ==> r.error == InvalidLevel(name)
  {
    if name == "basic" then Ok(Basic)
    else if name == "intermediate" then Ok(Intermediate)
    else Err(InvalidLevel(name))
  }

  /** The list the random choice draws from. */
  function Pool(level: Level): seq<string> {
    if level == Basic then BasicWords else IntermediatePhrases
  }

  /** The random choice, with the random source's index passed in. */
  function PickAnswer(level: Level, pick: nat): (answer: string)
    requires pick < |Pool(level)|
    ensures answer in Pool(level)
    ensures level == Basic ==> answer in BasicWords
    ensures level == Intermediate ==> answer in IntermediatePhrases
    ensures WellFormedAnswer(answer)
  {
    PoolWellFormed(level);
    Pool(level)[pick]
  }

  /** An answer the engine can play: no character of it looks like the
      placeholder, and it has at least one letter to guess. */
  predicate WellFormedAnswer(a: string) {
    && (forall i :: 0 <= i < |a| ==> a[i] != Placeholder)
    && (exists i :: 0 <= i < |a| && IsLetter(a[i]))
  }

  /** Every list entry is playable. */
  lemma EntryWellFormed(level: Level, k: nat)
    requires k < |Pool(level)|
    ensures WellFormedAnswer(Pool(level)[k])
  {
    var w := Pool(level)[k];
    assert IsLetter(w[0]);
  }

  lemma PoolWellFormed(level: Level)
    ensures forall w <- Pool(level) :: WellFormedAnswer(w)
  {
    forall k | 0 <= k < |Pool(level)|
      ensures WellFormedAnswer(Pool(level)[k])
    {
      EntryWellFormed(level, k);
    }
  }
}
