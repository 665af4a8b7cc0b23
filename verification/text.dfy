/** Python's `str.lower()`, restricted to the ASCII letters that the
    modelled comparisons can match. */
module Text {

  /** An ASCII capital maps to its small letter; everything else is kept. */
  function LowerChar(c: char): char
  {
    if 'A' <= c <= 'Z' then (c as int + 32) as char else c
  }

  /** The ASCII capital of a small letter; everything else is kept. */
  function UpperChar(c: char): char
  {
    if 'a' <= c <= 'z' then (c as int - 32) as char else c
  }

  /** `s.lower()`. */
  function Lower(s: string): (r: string)
    ensures |r| == |s| && forall i | 0 <= i < |s| :: r[i] == LowerChar(s[i])
  {
    if s == [] then [] else [LowerChar(s[0])] + Lower(s[1..])
  }

  /** A string with no capitals. */
  predicate IsLower(t: string)
  {
    forall i | 0 <= i < |t| :: !('A' <= t[i] <= 'Z')
  }

  /** A character lowers to a character with no capital exactly when it
      is that character or its capital. */
  lemma LowerCharMatches(c: char, d: char)
    requires !('A' <= d <= 'Z')
    ensures LowerChar(c) == d <==> c == d || c == UpperChar(d)
  {
  }

  /** s spells t with each letter in either case. */
  predicate SpellsIgnoringCase(s: string, t: string)
  {
    |s| == |t| && forall i | 0 <= i < |t| :: s[i] == t[i] || s[i] == UpperChar(t[i])
  }

  /** s lowers to the lower-case word t exactly when s spells t with each
      letter in either case. */
  lemma LowerMatchesIff(s: string, t: string)
    requires IsLower(t)
    ensures Lower(s) == t <==> SpellsIgnoringCase(s, t)
  {
    if Lower(s) == t {
      forall i | 0 <= i < |t| ensures s[i] == t[i] || s[i] == UpperChar(t[i]) {
        LowerCharMatches(s[i], t[i]);
      }
    }
    if SpellsIgnoringCase(s, t) {
      forall i | 0 <= i < |t| ensures Lower(s)[i] == t[i] {
        LowerCharMatches(s[i], t[i]);
      }
    }
  }
}
