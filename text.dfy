/** Character-level helpers shared by the status check, the search and the validators. */
module Text {

  /** ASCII lower-casing of one character; every other character is left alone. */
  function LowerChar(c: char): char
  {
    if 'A' <= c <= 'Z' then (c as int + 32) as char else c
  }

  /** ASCII lower-casing of a string. */
  function Lower(s: string): (r: string)
    ensures |r| == |s|
    ensures forall i :: 0 <= i < |s| ==> r[i] == LowerChar(s[i])
  {
    if s == [] then [] else [LowerChar(s[0])] + Lower(s[1..])
  }

  /** `q` occurs in `s` as a contiguous substring. */
  predicate Contains(s: string, q: string)
  {
    exists k :: 0 <= k <= |s| - |q| && q <= s[k..]
  }
}
