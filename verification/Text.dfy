/** The few string operations the modelled code takes from its standard
    libraries, for ASCII text. */
module Text {
  import opened Ordering

  function LowerChar(c: char): char {
    if 'A' <= c <= 'Z' then c - 'A' + 'a' else c
  }

  function ToLower(s: string): (r: string)
    ensures |r| == |s| && forall i :: 0 <= i < |s| ==> r[i] == LowerChar(s[i])
  {
    seq(|s|, i requires 0 <= i < |s| => LowerChar(s[i]))
  }

  /** Case folding moves the letters A to Z and nothing else. */
  lemma LowerAlphabet(c: char)
    ensures ToLower("ABCDEFGHIJKLMNOPQRSTUVWXYZ") == "abcdefghijklmnopqrstuvwxyz"
    ensures c !in "ABCDEFGHIJKLMNOPQRSTUVWXYZ" ==> ToLower([c]) == [c]
  {
    var upper, lower := "ABCDEFGHIJKLMNOPQRSTUVWXYZ", "abcdefghijklmnopqrstuvwxyz";
    forall i | 0 <= i < |upper| ensures LowerChar(upper[i]) == lower[i] { }
    if 'A' <= c <= 'Z' {
      var i := (c - 'A') as int;
      assert upper[i] == c;
    }
  }

  predicate HasPrefix(s: string, p: string) {
    |p| <= |s| && s[..|p|] == p
  }

  predicate HasSuffix(s: string, p: string) {
    |p| <= |s| && s[|s| - |p|..] == p
  }

  /** Go's `strings.TrimSuffix`. */
  function TrimSuffix(s: string, p: string): string {
    if HasSuffix(s, p) then s[..|s| - |p|] else s
  }

  /** Rust's `strip_suffix`. */
  function StripSuffix(s: string, p: string): Option<string> {
    if HasSuffix(s, p) then Some(s[..|s| - |p|]) else None
  }

  /** Rust's `strip_prefix`. */
  function StripPrefix(s: string, p: string): Option<string> {
    if HasPrefix(s, p) then Some(s[|p|..]) else None
  }

  predicate Contains(s: string, p: string) {
    exists i :: 0 <= i <= |s| - |p| && HasPrefix(s[i..], p)
  }
}
