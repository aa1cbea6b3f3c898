/**
 * Recognising the variable table of a role's README.md (ansible-sanity.py:93-99):
 * a line that matches the row pattern and not the header pattern contributes
 * the trimmed text of its first cell.
 */
module Readme {
  import opened Text
  import opened Lists

  /**
   * `re.match(r"^\|\s+\w+\s+\|\s+.*\|$", ln)`, scanned greedily: after the opening `|`
   * come a run of whitespace, a run of word characters and a run of whitespace,
   * then `|`, whitespace, and the line ends with `|` (before its newline, if any).
   */
  predicate MatchesRow(ln: string) {
    var b := Body(ln);
    |b| > 0 && b[0] == '|' &&
    var a := RunEnd(b, 1, IsSpace);
    var w := RunEnd(b, a, IsWord);
    var c := RunEnd(b, w, IsSpace);
    1 < a < w < c && c + 3 <= |b| && b[c] == '|' && IsSpace(b[c + 1]) && b[|b| - 1] == '|'
  }

  /** Where `$` (no MULTILINE) matches: at the end, or just before a newline that ends the string. */
  predicate DollarAt(s: string, i: nat) {
    i == |s| || (i == |s| - 1 && s[i] == '\n')
  }

  /**
   * The row pattern as a regular expression: `a`, `w`, `c`, `d`, `e` are the places
   * where `\s+`, `\w+`, `\s+`, `\|`, `\s+`, `.*` and the final `\|` may start.
   */
  ghost predicate RowRegex(ln: string, a: nat, w: nat, c: nat, d: nat, e: nat) {
    1 < a < w < c && c + 1 < d <= e < |ln| &&
    ln[0] == '|' &&
    (forall k :: 1 <= k < a ==> IsSpace(ln[k])) &&
    (forall k :: a <= k < w ==> IsWord(ln[k])) &&
    (forall k :: w <= k < c ==> IsSpace(ln[k])) &&
    ln[c] == '|' &&
    (forall k :: c + 1 <= k < d ==> IsSpace(ln[k])) &&
    (forall k :: d <= k < e ==> ln[k] != '\n') &&
    ln[e] == '|' && DollarAt(ln, e + 1)
  }

  /** The greedy scan accepts a line exactly when the regular expression has a match on it. */
  lemma RowMatchIff(ln: string)
    requires IsLine(ln)
    ensures MatchesRow(ln) <==> exists a: nat, w: nat, c: nat, d: nat, e: nat :: RowRegex(ln, a, w, c, d, e)
  {
    if MatchesRow(ln) {
      RowMatchSound(ln);
    }
    if exists a: nat, w: nat, c: nat, d: nat, e: nat :: RowRegex(ln, a, w, c, d, e) {
      var a: nat, w: nat, c: nat, d: nat, e: nat :| RowRegex(ln, a, w, c, d, e);
      RowMatchComplete(ln, a, w, c, d, e);
    }
  }

  lemma RowMatchSound(ln: string)
    requires IsLine(ln) && MatchesRow(ln)
    ensures var b := Body(ln);
      var a := RunEnd(b, 1, IsSpace);
      var w := RunEnd(b, a, IsWord);
      var c := RunEnd(b, w, IsSpace);
      RowRegex(ln, a, w, c, c + 2, |b| - 1)
  {
    var b := Body(ln);
    assert DollarAt(ln, |b|);
    var a := RunEnd(b, 1, IsSpace);
    var w := RunEnd(b, a, IsWord);
    RegexOfRuns(ln, b, a, w, RunEnd(b, w, IsSpace));
  }

  /** Runs found in the body of a line are runs of the line itself. */
  lemma RegexOfRuns(ln: string, b: string, a: nat, w: nat, c: nat)
    requires b <= ln && '\n' !in b && DollarAt(ln, |b|)
    requires 1 < a < w < c && c + 3 <= |b| && b[0] == '|' && b[c] == '|' && IsSpace(b[c + 1]) && b[|b| - 1] == '|'
    requires forall k :: 1 <= k < a ==> IsSpace(b[k])
    requires forall k :: a <= k < w ==> IsWord(b[k])
    requires forall k :: w <= k < c ==> IsSpace(b[k])
    ensures RowRegex(ln, a, w, c, c + 2, |b| - 1)
  {
    assert forall k :: 0 <= k < |b| ==> b[k] == ln[k];
  }

  lemma RowMatchComplete(ln: string, a: nat, w: nat, c: nat, d: nat, e: nat)
    requires RowRegex(ln, a, w, c, d, e)
    ensures MatchesRow(ln)
  {
    var b := Body(ln);
    assert |b| == e + 1;
    RunsInBody(ln, b, a, w, c);
  }

  /** Runs of the line that end before its last character are the greedy runs of its body. */
  lemma RunsInBody(ln: string, b: string, a: nat, w: nat, c: nat)
    requires b <= ln && 1 < a < w < c && c + 1 < |b|
    requires forall k :: 1 <= k < a ==> IsSpace(ln[k])
    requires forall k :: a <= k < w ==> IsWord(ln[k])
    requires forall k :: w <= k < c ==> IsSpace(ln[k])
    requires !IsSpace(ln[c])
    ensures RunEnd(b, 1, IsSpace) == a && RunEnd(b, a, IsWord) == w && RunEnd(b, w, IsSpace) == c
    ensures b[0] == ln[0] && b[c] == ln[c] && b[c + 1] == ln[c + 1] && b[|b| - 1] == ln[|b| - 1]
  {
    assert forall k :: 0 <= k < |b| ==> b[k] == ln[k];
    WordIsNotSpace(ln[a]);
    RunEndAt(b, 1, a, IsSpace);
    RunEndAt(b, a, w, IsWord);
    RunEndAt(b, w, c, IsSpace);
  }

  /** The word run of a matched row: where the first cell's text sits. */
  function WordRun(ln: string): string
    requires MatchesRow(ln)
  {
    var b := Body(ln);
    var a := RunEnd(b, 1, IsSpace);
    b[a..RunEnd(b, a, IsWord)]
  }

  /** `ln.split('|')[1].strip()`: the first cell, without its surrounding whitespace. */
  function CellName(ln: string): string
    requires '|' in ln
  {
    SplitTwoPieces(ln, '|');
    Strip(Split(ln, '|')[1])
  }

  /** On a matched row the first cell exists and its trimmed text is its non-empty run of word characters. */
  lemma RowName(ln: string)
    requires MatchesRow(ln)
    ensures '|' in ln
    ensures CellName(ln) == WordRun(ln)
    ensures |CellName(ln)| > 0 && forall k :: 0 <= k < |CellName(ln)| ==> IsWord(CellName(ln)[k])
  {
    var b := Body(ln);
    var a := RunEnd(b, 1, IsSpace);
    var w := RunEnd(b, a, IsWord);
    var c := RunEnd(b, w, IsSpace);
    CellOfRow(ln, b, a, w, c);
  }

  /** A row whose first cell is whitespace, a word run and whitespace has that word run as its name. */
  lemma CellOfRow(ln: string, b: string, a: nat, w: nat, c: nat)
    requires b == Body(ln) && 1 < a < w < c < |b| && b[0] == '|' && b[c] == '|'
    requires forall k :: 1 <= k < a ==> IsSpace(b[k])
    requires forall k :: a <= k < w ==> IsWord(b[k])
    requires forall k :: w <= k < c ==> IsSpace(b[k])
    ensures '|' in ln && CellName(ln) == b[a..w]
    ensures forall k :: 0 <= k < w - a ==> IsWord(CellName(ln)[k])
  {
    forall k | 1 <= k < c
      ensures b[k] != '|'
    {
      if k < a {
      } else if k < w {
      }
    }
    FirstCellOfRow(ln, b, c);
    WordIsNotSpace(b[a]);
    WordIsNotSpace(b[w - 1]);
    StripPadded(b, 1, a, w, c);
  }

  /** The first cell of a row is the text between the opening `|` and the next one. */
  lemma FirstCellOfRow(ln: string, b: string, c: nat)
    requires b == Body(ln) && 0 < c < |b| && b[0] == '|' && b[c] == '|'
    requires forall k :: 1 <= k < c ==> b[k] != '|'
    ensures '|' in ln && |Split(ln, '|')| >= 2 && Split(ln, '|')[1] == b[1..c]
  {
    assert forall k :: 0 <= k < |b| ==> b[k] == ln[k];
    SplitSecond(ln, '|', c);
  }

  /** A piece of a prefix pattern: a literal, or a `\s+` run. */
  datatype Piece = Lit(text: string) | Spaces

  /** Greedy prefix match of `ps` against `s` from position `i`, as `re.match` runs it. */
  predicate MatchesFrom(s: string, i: nat, ps: seq<Piece>)
    requires i <= |s|
    decreases ps
  {
    if ps == [] then true
    else
      match ps[0]
      case Lit(t) => i + |t| <= |s| && s[i..i + |t|] == t && MatchesFrom(s, i + |t|, ps[1..])
      case Spaces => var j := RunEnd(s, i, IsSpace); i < j && MatchesFrom(s, j, ps[1..])
  }

  /** The pieces as a regular expression: a `\s+` run may stop anywhere after its first character. */
  ghost predicate RegexFrom(s: string, i: nat, ps: seq<Piece>)
    requires i <= |s|
    decreases ps, 0
  {
    if ps == [] then true
    else if ps[0].Lit? then
      var t := ps[0].text;
      i + |t| <= |s| && s[i..i + |t|] == t && RegexFrom(s, i + |t|, ps[1..])
    else
      RegexSpaces(s, i, ps[1..])
  }

  /** `\s+` from `i`, stopping at some `j` from which the `rest` matches. */
  ghost predicate RegexSpaces(s: string, i: nat, rest: seq<Piece>)
    requires i <= |s|
    decreases rest, 1
  {
    exists j: nat :: i < j <= |s| && (forall k :: i <= k < j ==> IsSpace(s[k])) && RegexFrom(s, j, rest)
  }

  /** Every `\s+` is followed by a literal that starts with a non-space character. */
  predicate Greedy(ps: seq<Piece>) {
    forall k :: 0 <= k < |ps| - 1 && ps[k].Spaces? ==>
      ps[k + 1].Lit? && |ps[k + 1].text| > 0 && !IsSpace(ps[k + 1].text[0])
  }

  /** For such patterns the greedy scan loses no match: backtracking a `\s+` run never helps. */
  lemma {:induction false} GreedyIsExact(s: string, i: nat, ps: seq<Piece>)
    requires i <= |s| && Greedy(ps)
    ensures MatchesFrom(s, i, ps) <==> RegexFrom(s, i, ps)
    decreases ps
  {
    if ps != [] {
      assert Greedy(ps[1..]);
      match ps[0]
      case Lit(t) =>
        if i + |t| <= |s| {
          GreedyIsExact(s, i + |t|, ps[1..]);
        }
      case Spaces =>
        var j0 := RunEnd(s, i, IsSpace);
        if MatchesFrom(s, i, ps) {
          GreedyIsExact(s, j0, ps[1..]);
        }
        if RegexFrom(s, i, ps) {
          assert RegexSpaces(s, i, ps[1..]);
          var j: nat :| i < j <= |s| && (forall k :: i <= k < j ==> IsSpace(s[k])) && RegexFrom(s, j, ps[1..]);
          SpacesStopAtLiteral(s, i, j, ps[1..]);
          GreedyIsExact(s, j0, ps[1..]);
        }
    }
  }

  /** A `\s+` run followed by a literal that opens with a non-space stops where the greedy scan stops. */
  lemma SpacesStopAtLiteral(s: string, i: nat, j: nat, rest: seq<Piece>)
    requires i < j <= |s| && (forall k :: i <= k < j ==> IsSpace(s[k])) && RegexFrom(s, j, rest)
    requires rest != [] ==> rest[0].Lit? && |rest[0].text| > 0 && !IsSpace(rest[0].text[0])
    ensures i < RunEnd(s, i, IsSpace)
    ensures RegexFrom(s, RunEnd(s, i, IsSpace), rest)
  {
    if rest != [] {
      var t := rest[0].text;
      assert s[j] == t[0] by {
        assert s[j..j + |t|][0] == s[j];
      }
      RunEndAt(s, i, j, IsSpace);
    }
  }

  const HeaderPattern: seq<Piece> := [
    Lit("|"), Spaces, Lit("Variable"), Spaces, Lit("|"), Spaces, Lit("Description"),
    Spaces, Lit("|"), Spaces, Lit("Default"), Spaces, Lit("|")]

  /** `re.match(r"\|\s+Variable\s+\|\s+Description\s+\|\s+Default\s+\|", ln)`: a prefix match. */
  predicate MatchesHeader(ln: string) {
    MatchesFrom(ln, 0, HeaderPattern)
  }

  lemma HeaderIsRegex(ln: string)
    ensures MatchesHeader(ln) <==> RegexFrom(ln, 0, HeaderPattern)
  {
    HeaderIsGreedy();
    GreedyIsExact(ln, 0, HeaderPattern);
  }

  /** In the header pattern every `\s+` is followed by a word or a `|`. */
  lemma HeaderIsGreedy()
    ensures Greedy(HeaderPattern)
  {
    forall k | 0 <= k < |HeaderPattern| - 1 && HeaderPattern[k].Spaces?
      ensures HeaderPattern[k + 1].Lit? && |HeaderPattern[k + 1].text| > 0 && !IsSpace(HeaderPattern[k + 1].text[0])
    {
      var t := HeaderPattern[k + 1].text;
      assert t == "Variable" || t == "Description" || t == "Default" || t == "|";
      assert t[0] in {'V', 'D', '|'};
    }
  }

  /** A table data row: it matches the row pattern and not the header pattern. */
  predicate Collects(ln: string) {
    MatchesRow(ln) && !MatchesHeader(ln)
  }

  /** What one line contributes: its first cell's name when it is a data row, nothing otherwise. */
  function Entry(ln: string): seq<string> {
    if Collects(ln) then RowName(ln); [CellName(ln)] else []
  }

  /** The names the loop over the README's lines appends, in line order. */
  function ReadmeNames(lines: seq<string>): seq<string> {
    Flatten(Map(lines, Entry))
  }

  /** Every collected name is a non-empty run of word characters, taken from a data row. */
  lemma ReadmeNamesAreWords(lines: seq<string>, k: nat)
    requires k < |ReadmeNames(lines)|
    ensures |ReadmeNames(lines)[k]| > 0
    ensures forall j :: 0 <= j < |ReadmeNames(lines)[k]| ==> IsWord(ReadmeNames(lines)[k][j])
    ensures exists i :: 0 <= i < |lines| && Collects(lines[i]) && ReadmeNames(lines)[k] == WordRun(lines[i])
  {
    var i, p := FlattenIndex(Map(lines, Entry), k);
    MapAt(lines, Entry, i);
    EntryIsWordRun(lines[i]);
    assert ReadmeNames(lines)[k] == WordRun(lines[i]);
  }

  /** A line that contributes a name contributes exactly its word run. */
  lemma EntryIsWordRun(ln: string)
    requires Entry(ln) != []
    ensures Collects(ln) && Entry(ln) == [WordRun(ln)]
    ensures |WordRun(ln)| > 0 && forall j :: 0 <= j < |WordRun(ln)| ==> IsWord(WordRun(ln)[j])
  {
    RowName(ln);
  }

  /** The last line adds its word run when it is a data row, and nothing otherwise. */
  lemma ReadmeNamesSnoc(lines: seq<string>)
    requires lines != []
    ensures ReadmeNames(lines) == ReadmeNames(lines[..|lines| - 1]) +
      (if Collects(lines[|lines| - 1]) then [WordRun(lines[|lines| - 1])] else [])
  {
    var n := |lines| - 1;
    assert Map(lines, Entry) == Map(lines[..n], Entry) + [Entry(lines[n])];
    assert Map(lines, Entry)[..n] == Map(lines[..n], Entry);
    if Collects(lines[n]) {
      RowName(lines[n]);
    }
  }

  /** Each data row of the file has its name collected. */
  lemma DataRowsCollected(lines: seq<string>, i: nat)
    requires i < |lines| && Collects(lines[i])
    ensures WordRun(lines[i]) in ReadmeNames(lines)
  {
    MapAt(lines, Entry, i);
    RowName(lines[i]);
    FlattenMember(Map(lines, Entry), i, 0);
  }

  /**
   * A line whose first cell holds no word character, such as a Markdown separator
   * row `|---|---|` or `| :--- |`, never contributes a name.
   */
  lemma SeparatorRowIgnored(ln: string)
    requires |Split(ln, '|')| >= 2
    requires forall k :: 0 <= k < |Split(ln, '|')[1]| ==> !IsWord(Split(ln, '|')[1][k])
    ensures !Collects(ln)
  {
    if MatchesRow(ln) {
      WordInFirstCell(ln);
    }
  }

  /** The first cell of a matched row holds a word character. */
  lemma WordInFirstCell(ln: string)
    requires MatchesRow(ln)
    ensures |Split(ln, '|')| >= 2
    ensures exists k :: 0 <= k < |Split(ln, '|')[1]| && IsWord(Split(ln, '|')[1][k])
  {
    RowName(ln);
    var cell := Split(ln, '|')[1];
    StripKeeps(cell);
    assert Strip(cell) == CellName(ln);
    assert IsWord(cell[RunEnd(cell, 0, IsSpace)]);
  }
}
