/**
 * Character classes and the `str` operations both tools rely on.
 *
 * Python's `\s`, `\w`, `str.isspace`, `str.strip` and `str.lower` are Unicode-aware;
 * this model restricts them to ASCII.
 */
module Text {

  /** `\s` of a `str` pattern and `str.isspace()`, on ASCII: space, \t \n \v \f \r and \x1c-\x1f. */
  predicate IsSpace(c: char) {
    c == ' ' || (9 <= c as int <= 13) || (28 <= c as int <= 31)
  }

  /** `\w` on ASCII: letters, digits and the underscore. */
  predicate IsWord(c: char) {
    ('a' <= c <= 'z') || ('A' <= c <= 'Z') || ('0' <= c <= '9') || c == '_'
  }

  /** A line as `readlines()` yields it: a newline, if any, only as its last character. */
  predicate IsLine(s: string) {
    forall i :: 0 <= i < |s| - 1 ==> s[i] != '\n'
  }

  /** The line without its trailing newline. */
  function Body(s: string): (b: string)
    ensures b <= s && |s| - 1 <= |b|
    ensures IsLine(s) ==> '\n' !in b
  {
    if |s| > 0 && s[|s| - 1] == '\n' then s[..|s| - 1] else s
  }

  /** The end of the run of characters satisfying `P` that starts at `i`: how far a greedy `P*` reaches. */
  function RunEnd(s: string, i: nat, P: char -> bool): (j: nat)
    requires i <= |s|
    ensures i <= j <= |s|
    ensures forall k :: i <= k < j ==> P(s[k])
    ensures j == |s| || !P(s[j])
    decreases |s| - i
  {
    if i < |s| && P(s[i]) then RunEnd(s, i + 1, P) else i
  }

  /** The start of the run of characters satisfying `P` that ends at `j`. */
  function RunStart(s: string, j: nat, P: char -> bool): (i: nat)
    requires j <= |s|
    ensures i <= j
    ensures forall k :: i <= k < j ==> P(s[k])
    ensures i == 0 || !P(s[i - 1])
    decreases j
  {
    if j > 0 && P(s[j - 1]) then RunStart(s, j - 1, P) else j
  }

  /** A run is determined by where it stops: any `j` with the two properties is the run's end. */
  lemma RunEndAt(s: string, i: nat, j: nat, P: char -> bool)
    requires i <= j <= |s|
    requires forall k :: i <= k < j ==> P(s[k])
    requires j == |s| || !P(s[j])
    ensures RunEnd(s, i, P) == j
  {
  }

  lemma RunStartAt(s: string, i: nat, j: nat, P: char -> bool)
    requires i <= j <= |s|
    requires forall k :: i <= k < j ==> P(s[k])
    requires i == 0 || !P(s[i - 1])
    ensures RunStart(s, j, P) == i
  {
  }

  /** `t in s` for strings: `t` occurs as a contiguous piece of `s`. */
  predicate Contains(s: string, t: string)
    decreases |s|
  {
    |t| <= |s| && (s[..|t|] == t || (|s| > 0 && Contains(s[1..], t)))
  }

  lemma {:induction false} ContainsAt(s: string, t: string, i: nat)
    requires i + |t| <= |s| && s[i..i + |t|] == t
    ensures Contains(s, t)
    decreases i
  {
    if i > 0 && s[..|t|] != t {
      assert s[1..][i - 1..i - 1 + |t|] == s[i..i + |t|];
      ContainsAt(s[1..], t, i - 1);
    }
  }

  function LowerChar(c: char): char {
    if 'A' <= c <= 'Z' then (c as int + 32) as char else c
  }

  /** `str.lower()` on ASCII. */
  function Lower(s: string): (r: string)
    ensures |r| == |s|
  {
    seq(|s|, i requires 0 <= i < |s| => LowerChar(s[i]))
  }

  /** `str.strip()`: the string without its leading and trailing whitespace. */
  function Strip(s: string): string {
    var t := s[RunEnd(s, 0, IsSpace)..];
    t[..RunStart(t, |t|, IsSpace)]
  }

  /** What stripping keeps is a piece of the string, from the first non-whitespace character on. */
  lemma StripKeeps(s: string)
    ensures RunEnd(s, 0, IsSpace) + |Strip(s)| <= |s|
    ensures forall k :: 0 <= k < |Strip(s)| ==> Strip(s)[k] == s[RunEnd(s, 0, IsSpace) + k]
  {
  }

  /** Stripping a non-blank piece padded with whitespace on both sides gives back the piece. */
  lemma StripPaddedWhole(u: string, a: nat, w: nat)
    requires a < w <= |u|
    requires forall k :: 0 <= k < a ==> IsSpace(u[k])
    requires forall k :: w <= k < |u| ==> IsSpace(u[k])
    requires !IsSpace(u[a]) && !IsSpace(u[w - 1])
    ensures Strip(u) == u[a..w]
  {
    RunEndAt(u, 0, a, IsSpace);
    var t := u[a..];
    RunStartAt(t, w - a, |t|, IsSpace);
  }

  /** The same for a slice `s[lo..hi]` around the piece `s[a..w]`. */
  lemma StripPadded(s: string, lo: nat, a: nat, w: nat, hi: nat)
    requires lo <= a < w <= hi <= |s|
    requires forall k :: lo <= k < a ==> IsSpace(s[k])
    requires forall k :: w <= k < hi ==> IsSpace(s[k])
    requires !IsSpace(s[a]) && !IsSpace(s[w - 1])
    ensures Strip(s[lo..hi]) == s[a..w]
  {
    SpacesInSlice(s, lo, hi, lo, a);
    SpacesInSlice(s, lo, hi, w, hi);
    SliceOfSlice(s, lo, hi, a, w);
    StripPaddedWhole(s[lo..hi], a - lo, w - lo);
  }

  lemma SpacesInSlice(s: string, lo: nat, hi: nat, i: nat, j: nat)
    requires lo <= i <= j <= hi <= |s|
    requires forall k :: i <= k < j ==> IsSpace(s[k])
    ensures forall k :: i - lo <= k < j - lo ==> IsSpace(s[lo..hi][k])
  {
  }

  lemma SliceOfSlice(s: string, lo: nat, hi: nat, i: nat, j: nat)
    requires lo <= i < j <= hi <= |s|
    ensures s[lo..hi][i - lo] == s[i] && s[lo..hi][j - lo - 1] == s[j - 1]
    ensures s[lo..hi][i - lo..j - lo] == s[i..j]
  {
    var u := s[lo..hi][i - lo..j - lo];
    assert |u| == j - i;
    assert forall k :: 0 <= k < |u| ==> u[k] == s[i + k];
  }

  /** A word character is not whitespace. */
  lemma WordIsNotSpace(c: char)
    requires IsWord(c)
    ensures !IsSpace(c)
  {
  }

  /** `s.split(sep)`: the pieces between the occurrences of `sep`, one more piece than separators. */
  function Split(s: string, sep: char): (r: seq<string>)
    ensures |r| >= 1
    decreases |s|
  {
    var i := RunEnd(s, 0, c => c != sep);
    if i == |s| then [s] else [s[..i]] + Split(s[i + 1..], sep)
  }

  /** In a string that opens with `sep`, the second piece is what lies up to the next `sep`. */
  lemma SplitSecond(s: string, sep: char, c: nat)
    requires 0 < c < |s| && s[0] == sep && s[c] == sep
    requires forall k :: 1 <= k < c ==> s[k] != sep
    ensures |Split(s, sep)| >= 2 && Split(s, sep)[1] == s[1..c]
  {
    RunEndAt(s, 0, 0, c => c != sep);
    var t := s[1..];
    RunEndAt(t, 0, c - 1, c => c != sep);
  }

  /** A string holding the separator splits into at least two pieces, so `split(sep)[1]` exists. */
  lemma SplitTwoPieces(s: string, sep: char)
    requires sep in s
    ensures |Split(s, sep)| >= 2
  {
  }
}
