/** Letter case of ASCII characters. */
module Text {
  function ToUpper(c: char): char { if 'a' <= c <= 'z' then c - 'a' + 'A' else c }
  function ToLower(c: char): char { if 'A' <= c <= 'Z' then c - 'A' + 'a' else c }

  function Lower(s: string): (r: string)
    ensures |r| == |s| && forall i :: 0 <= i < |s| ==> r[i] == ToLower(s[i])
  {
    seq(|s|, i requires 0 <= i < |s| => ToLower(s[i]))
  }

  /** The 26 small letters have capitals, and the other way round; nothing else changes. */
  lemma CaseLaw(c: char)
    ensures 'a' <= c <= 'z' ==> 'A' <= ToUpper(c) <= 'Z' && ToUpper(c) - 'A' == c - 'a'
    ensures 'A' <= c <= 'Z' ==> 'a' <= ToLower(c) <= 'z' && ToLower(c) - 'a' == c - 'A'
    ensures !('a' <= c <= 'z') ==> ToUpper(c) == c
    ensures !('A' <= c <= 'Z') ==> ToLower(c) == c
  {
  }
}
