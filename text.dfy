/** Case-insensitive comparison of user names. The store compares
    `a.toLowerCase() === b.toLowerCase()`; this model lower-cases ASCII letters. */
module Text {

  predicate IsUpper(c: char) {
    'A' <= c <= 'Z'
  }

  function LowerChar(c: char): char {
    if IsUpper(c) then (c as int + 32) as char else c
  }

  /** The lower-cased string: same length, each character lower-cased. */
  function Lower(s: string): (r: string)
    ensures |r| == |s|
    ensures forall i :: 0 <= i < |s| ==> r[i] == LowerChar(s[i])
  {
    if s == [] then [] else [LowerChar(s[0])] + Lower(s[1..])
  }

  /** Two characters are the same letter up to case. */
  predicate SameLetter(x: char, y: char) {
    x == y || (IsUpper(x) && x as int + 32 == y as int) || (IsUpper(y) && y as int + 32 == x as int)
  }

  /** Two names that differ only in the case of their letters. */
  predicate EqualIgnoringCase(a: string, b: string) {
    |a| == |b| && forall i :: 0 <= i < |a| ==> SameLetter(a[i], b[i])
  }

  lemma SameLetterIsSameLower(x: char, y: char)
    ensures SameLetter(x, y) <==> LowerChar(x) == LowerChar(y)
  {
  }

  /** Comparing lower-cased names is exactly comparing names up to case. */
  lemma {:induction false} LowerEqualIff(a: string, b: string)
    ensures Lower(a) == Lower(b) <==> EqualIgnoringCase(a, b)
  {
    if Lower(a) == Lower(b) {
      forall i | 0 <= i < |a| ensures SameLetter(a[i], b[i]) {
        SameLetterIsSameLower(a[i], b[i]);
      }
    }
    if EqualIgnoringCase(a, b) {
      forall i | 0 <= i < |a| ensures Lower(a)[i] == Lower(b)[i] {
        SameLetterIsSameLower(a[i], b[i]);
      }
    }
  }
}
