/** Building and updating the masked view of an answer.

    `Revealed(a, g)` is the reference view: what a player who has tried the
    lower-case letters `g` should see of the answer `a`. The engine never
    computes it; the lemmas below show that the initial mask and each
    revealing step agree with it. */
module Masking {
  import opened Chars

  /** A position stays hidden while it holds a letter whose lower-case form
      has not been guessed. */
  predicate Hidden(c: char, g: set<char>) {
    IsLetter(c) && Lower(c) !in g
  }

  function Revealed(a: string, g: set<char>): (m: seq<char>)
    ensures |m| == |a|
  {
    seq(|a|, i requires 0 <= i < |a| => if Hidden(a[i], g) then Placeholder else a[i])
  }

  /** The initial mask: every ASCII letter becomes the placeholder, every
      other character (spaces, punctuation) is visible from the start. */
  function Mask(a: string): (m: seq<char>)
    ensures |m| == |a|
    ensures forall i :: 0 <= i < |a| ==> (m[i] == Placeholder <==> IsLetter(a[i]) || a[i] == Placeholder)
    ensures forall i :: 0 <= i < |a| && !IsLetter(a[i]) ==> m[i] == a[i]
    ensures m == Revealed(a, {})
  {
    if a == [] then []
    else [if MaskChar(a[0]) then Placeholder else a[0]] + Mask(a[1..])
  }

  /** Reveal every position whose letter matches `l` case-insensitively,
      keeping the answer's own casing there; all other slots keep `m`. */
  function Reveal(a: string, m: seq<char>, l: char): (m': seq<char>)
    requires |m| == |a|
    ensures |m'| == |a|
    ensures forall i :: 0 <= i < |a| && IsLetter(a[i]) && Lower(a[i]) == l ==> m'[i] == a[i]
    ensures forall i :: 0 <= i < |a| && !(IsLetter(a[i]) && Lower(a[i]) == l) ==> m'[i] == m[i]
  {
    if a == [] then []
    else [if MaskChar(a[0]) && Lower(a[0]) == l then a[0] else m[0]] + Reveal(a[1..], m[1..], l)
  }

  /** Revealing a newly guessed letter in the reference view gives the
      reference view of the enlarged guess set. */
  lemma RevealExtendsView(a: string, g: set<char>, l: char)
    requires IsLower(l)
    ensures Reveal(a, Revealed(a, g), l) == Revealed(a, g + {l})
  {
    var m, m' := Reveal(a, Revealed(a, g), l), Revealed(a, g + {l});
    forall i | 0 <= i < |a|
      ensures m[i] == m'[i]
    {
      if IsLetter(a[i]) && Lower(a[i]) == l {
        assert !Hidden(a[i], g + {l});
      }
    }
  }

  /** A letter that occurs nowhere in the answer changes nothing in view. */
  lemma MissKeepsView(a: string, g: set<char>, l: char)
    requires l !in LowerAll(a)
    ensures Revealed(a, g + {l}) == Revealed(a, g)
  {
    var m, m' := Revealed(a, g + {l}), Revealed(a, g);
    forall i | 0 <= i < |a|
      ensures m[i] == m'[i]
    {
      assert LowerAll(a)[i] == Lower(a[i]);
    }
  }

  /** For an answer free of placeholder characters, the view shows no
      placeholder exactly when every letter of the answer has been guessed,
      and it is then the answer itself. */
  lemma FullyRevealedIff(a: string, g: set<char>)
    requires forall i :: 0 <= i < |a| ==> a[i] != Placeholder
    ensures Placeholder !in Revealed(a, g) <==> forall i :: 0 <= i < |a| && IsLetter(a[i]) ==> Lower(a[i]) in g
    ensures Placeholder !in Revealed(a, g) <==> Revealed(a, g) == a
  {
    var m := Revealed(a, g);
    if Placeholder !in m {
      forall i | 0 <= i < |a| && IsLetter(a[i])
        ensures Lower(a[i]) in g
      {
        assert m[i] != Placeholder;
      }
      assert m == a;
    } else {
      var k :| 0 <= k < |m| && m[k] == Placeholder;
      assert Hidden(a[k], g);
      assert m != a;
    }
  }

  /** Number of occurrences of `c` in `s`. */
  function Count(s: seq<char>, c: char): nat {
    if s == [] then 0 else (if s[0] == c then 1 else 0) + Count(s[1..], c)
  }

  /** Number of ASCII letters in `s`. */
  function LetterCount(s: string): nat {
    if s == [] then 0 else (if IsLetter(s[0]) then 1 else 0) + LetterCount(s[1..])
  }

  /** The initial display holds one placeholder per letter of the answer. */
  lemma {:induction false} PlaceholderCount(a: string)
    requires forall i :: 0 <= i < |a| ==> a[i] != Placeholder
    ensures Count(Mask(a), Placeholder) == LetterCount(a)
  {
    if a != [] {
      PlaceholderCount(a[1..]);
      assert Mask(a) == [if MaskChar(a[0]) then Placeholder else a[0]] + Mask(a[1..]);
      assert Mask(a)[1..] == Mask(a[1..]);
    }
  }
}
