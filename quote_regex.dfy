/**
 * The search `(.+)(\w:\s+)(\")(.+?)(\")(.*)` of ansible-unifier.py:39 on one line.
 *
 * On a line (a newline only at its end) a match always starts at column 0, since
 * `(.+)` can take any prefix, and Python's backtracking picks, in this order,
 * the longest `(.+)` — the last key that works —, then the longest `\s+`, then
 * the shortest `(.+?)`: the first double quote after the opening one.
 */
module QuoteRegex {
  import opened Wrappers
  import opened Text

  /**
   * The positions of a match: `p` is the key's last word character (group 1 is
   * everything before it), `q` the opening double quote and `r` the closing one.
   */
  datatype QuoteMatch = QuoteMatch(p: nat, q: nat, r: nat)

  /** The pattern matches from column 0 with group 1 = `ln[..p]`, `\s+` ending at `s`, and the closing quote at `r`. */
  predicate RegexMatch(ln: string, p: nat, s: nat, r: nat) {
    && 1 <= p && p + 3 <= s && s + 2 <= r && r < |ln|
    && (forall k :: 0 <= k < p ==> ln[k] != '\n')
    && IsWord(ln[p]) && ln[p + 1] == ':'
    && (forall k :: p + 2 <= k < s ==> IsSpace(ln[k]))
    && ln[s] == '"'
    && (forall k :: s + 1 <= k < r ==> ln[k] != '\n')
    && ln[r] == '"'
  }

  /** The match Python reports: no other match comes before it in backtracking order. */
  ghost predicate Preferred(ln: string, m: QuoteMatch) {
    && RegexMatch(ln, m.p, m.q, m.r)
    && forall p: nat, s: nat, r: nat :: RegexMatch(ln, p, s, r) ==>
         p < m.p || (p == m.p && (s < m.q || (s == m.q && m.r <= r)))
  }

  /** Whether the pattern matches with group 1 ending just before `p`, and where. */
  function MatchAt(ln: string, p: nat): (m: Option<QuoteMatch>)
    ensures m.Some? ==> m.value.p == p
  {
    if 1 <= p && p + 2 <= |ln| && IsWord(ln[p]) && ln[p + 1] == ':' then
      var q := RunEnd(ln, p + 2, IsSpace);
      if p + 2 < q && q + 2 <= |ln| && ln[q] == '"' then
        var r := RunEnd(ln, q + 2, c => c != '"');
        if r < |ln| then Some(QuoteMatch(p, q, r)) else None
      else None
    else None
  }

  /** The match with the largest `p` not above `p`. */
  function MatchFrom(ln: string, p: nat): Option<QuoteMatch>
    decreases p
  {
    if p == 0 then None
    else if MatchAt(ln, p).Some? then MatchAt(ln, p)
    else MatchFrom(ln, p - 1)
  }

  /** `re.search(...)` on a line, as positions. */
  function FindMatch(ln: string): (m: Option<QuoteMatch>)
    ensures m.Some? ==> 1 <= m.value.p && m.value.p + 3 <= m.value.q && m.value.q + 2 <= m.value.r < |ln|
    ensures m.Some? ==> IsWord(ln[m.value.p]) && ln[m.value.p + 1] == ':'
    ensures m.Some? ==> ln[m.value.q] == '"' && ln[m.value.r] == '"'
  {
    MatchFromFacts(ln, |ln|);
    MatchFrom(ln, |ln|)
  }

  lemma {:induction false} MatchFromFacts(ln: string, p: nat)
    ensures var m := MatchFrom(ln, p);
      m.Some? ==> m.value.p <= p && MatchAt(ln, m.value.p) == m
    ensures var m := MatchFrom(ln, p);
      forall p' :: (if m.Some? then m.value.p else 0) < p' <= p ==> MatchAt(ln, p').None?
    decreases p
  {
    if p > 0 && MatchAt(ln, p).None? {
      MatchFromFacts(ln, p - 1);
    }
  }

  /** What `MatchAt` finds is a match of the pattern. */
  lemma MatchAtSound(ln: string, p: nat)
    requires IsLine(ln) && MatchAt(ln, p).Some?
    ensures var m := MatchAt(ln, p).value; RegexMatch(ln, m.p, m.q, m.r)
  {
  }

  /** Any match with group 1 ending at `p` is found by `MatchAt`, with the same `\s+` and a closing quote no later. */
  lemma MatchAtFirst(ln: string, p: nat, s: nat, r: nat)
    requires RegexMatch(ln, p, s, r)
    ensures MatchAt(ln, p).Some?
    ensures MatchAt(ln, p).value.q == s && MatchAt(ln, p).value.r <= r
  {
    RunEndAt(ln, p + 2, s, IsSpace);
    var r0 := RunEnd(ln, s + 2, c => c != '"');
    assert r0 <= r;
  }

  /**
   * On a line, `FindMatch` agrees with Python's `re.search`: it finds a match
   * exactly when the pattern matches somewhere, and then the one backtracking
   * reaches first.
   */
  lemma FindMatchIsSearch(ln: string)
    requires IsLine(ln)
    ensures FindMatch(ln).Some? ==> Preferred(ln, FindMatch(ln).value)
    ensures FindMatch(ln).None? ==> forall p: nat, s: nat, r: nat :: !RegexMatch(ln, p, s, r)
  {
    var m := FindMatch(ln);
    MatchFromFacts(ln, |ln|);
    if m.Some? {
      MatchAtSound(ln, m.value.p);
    }
    forall p: nat, s: nat, r: nat | RegexMatch(ln, p, s, r)
      ensures m.Some? && (p < m.value.p || (p == m.value.p && (s < m.value.q || (s == m.value.q && m.value.r <= r))))
    {
      MatchAtFirst(ln, p, s, r);
    }
  }
}
