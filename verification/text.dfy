/**
 * Case-insensitive substring search, as the name filter, the table search
 * box and the row search use it: both sides are lower-cased, then the
 * query must occur somewhere in the text.
 */
module Text {

  function LowerChar(c: char): char {
    if 'A' <= c <= 'Z' then (c as int - 'A' as int + 'a' as int) as char else c
  }

  /** `s.lower()`, restricted to the ASCII letters. */
  function Lower(s: string): (t: string)
    ensures |t| == |s|
    ensures forall i :: 0 <= i < |s| ==> t[i] == LowerChar(s[i])
  {
    if s == [] then [] else [LowerChar(s[0])] + Lower(s[1..])
  }

  predicate OccursAt(needle: string, hay: string, i: int) {
    0 <= i && i + |needle| <= |hay| && hay[i..i + |needle|] == needle
  }

  /** Python's `needle in hay` on strings. */
  predicate Contains(hay: string, needle: string) {
    exists i | 0 <= i <= |hay| - |needle| :: OccursAt(needle, hay, i)
  }

  predicate ContainsIgnoringCase(hay: string, needle: string) {
    Contains(Lower(hay), Lower(needle))
  }

  /** Lower-casing twice is lower-casing once. */
  lemma {:induction false} LowerIdempotent(s: string)
    ensures Lower(Lower(s)) == Lower(s)
  {
    var once := Lower(s);
    var twice := Lower(once);
    assert |twice| == |once|;
    forall i | 0 <= i < |s|
      ensures twice[i] == once[i]
    {
      assert once[i] == LowerChar(s[i]);
    }
  }

  /** The match ignores case: lower-casing either side first changes nothing. */
  lemma CaseBlind(hay: string, needle: string)
    ensures ContainsIgnoringCase(Lower(hay), needle) == ContainsIgnoringCase(hay, needle)
    ensures ContainsIgnoringCase(hay, Lower(needle)) == ContainsIgnoringCase(hay, needle)
  {
    LowerIdempotent(hay);
    LowerIdempotent(needle);
  }

  /** Every text contains the empty query. */
  lemma EmptyQueryMatches(hay: string)
    ensures ContainsIgnoringCase(hay, "")
  {
    assert OccursAt(Lower(""), Lower(hay), 0);
  }
}
