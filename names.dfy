/** Case-insensitive name comparison, as used by the duplicate-name check of
    the booking form. Lower-casing is restricted to ASCII letters. */
module Names {

  predicate IsUpper(c: char) {
    'A' <= c <= 'Z'
  }

  /** Lower-case of one character: ASCII capitals map to their small letter,
      every other character is left alone. */
  function Lower(c: char): (d: char)
    ensures !IsUpper(d)
    ensures IsUpper(c) ==> d != c && d as int - c as int == 'a' as int - 'A' as int
    ensures !IsUpper(c) ==> d == c
  {
    if IsUpper(c) then (c as int - 'A' as int + 'a' as int) as char else c
  }

  /** Lower-case of a whole string, character by character. */
  function LowerStr(s: string): (t: string)
    ensures |t| == |s|
    ensures forall i :: 0 <= i < |s| ==> t[i] == Lower(s[i])
  {
    seq(|s|, i requires 0 <= i < |s| => Lower(s[i]))
  }

  /** Two names collide when their lower-case forms are equal. */
  predicate SameName(a: string, b: string) {
    LowerStr(a) == LowerStr(b)
  }

  /** Lower-casing twice is lower-casing once, so a lower-cased name collides
      with the name it came from. */
  lemma LowerStrIdempotent(s: string)
    ensures LowerStr(LowerStr(s)) == LowerStr(s)
    ensures SameName(LowerStr(s), s)
  {
  }

  /** The collision test ignores case letter by letter and nothing else:
      names collide exactly when they have the same length and agree at every
      position after lower-casing. */
  lemma SameNameCharwise(a: string, b: string)
    ensures SameName(a, b) <==> |a| == |b| && forall i :: 0 <= i < |a| ==> Lower(a[i]) == Lower(b[i])
  {
  }
}
