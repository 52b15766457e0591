/** ASCII case folding.
 *
 *  The sanitizer lower-cases element and attribute names with
 *  `String.prototype.toLowerCase` and matches its two URL patterns with the
 *  regular-expression `i` flag.  On the names and patterns involved both come
 *  down to mapping 'A'..'Z' onto 'a'..'z' and leaving every other character
 *  alone, which is what this module provides.
 */
module Text {

  /** The lower-case form of one character: only 'A'..'Z' change. */
  function LowerChar(c: char): char
  {
    if 'A' <= c <= 'Z' then (c as int - 'A' as int + 'a' as int) as char else c
  }

  /** The lower-case form of a string, character by character. */
  function Lower(s: string): string
  {
    seq(|s|, i requires 0 <= i < |s| => LowerChar(s[i]))
  }

  /** A string that lower-casing leaves as it is. */
  predicate IsLower(s: string)
  {
    forall i :: 0 <= i < |s| ==> !('A' <= s[i] <= 'Z')
  }

  /** Lower-casing yields a lower-case string, and a lower-case string is its
   *  own lower-case form; so lower-casing twice is lower-casing once. */
  lemma LowerIsLower(s: string)
    ensures IsLower(Lower(s))
    ensures IsLower(s) ==> Lower(s) == s
    ensures Lower(Lower(s)) == Lower(s)
  {
    var t := Lower(s);
    assert forall i :: 0 <= i < |t| ==> !('A' <= t[i] <= 'Z');
    LowerOfLower(t);
    if IsLower(s) {
      LowerOfLower(s);
    }
  }

  /** Lower-casing a string that has no upper-case letter changes nothing. */
  lemma LowerOfLower(s: string)
    requires IsLower(s)
    ensures Lower(s) == s
  {
    assert forall i :: 0 <= i < |s| ==> Lower(s)[i] == s[i];
  }

  /** Lower-casing works character by character, so it distributes over
   *  concatenation. */
  lemma LowerAppend(s: string, t: string)
    ensures Lower(s + t) == Lower(s) + Lower(t)
  {
    assert forall i :: 0 <= i < |s + t| ==> Lower(s + t)[i] == (Lower(s) + Lower(t))[i];
  }
}
