/**
 * The line rewriter of ansible-unifier.py:32-68: in every YAML file each line
 * may have its double-quoted value requoted with single quotes, and a final
 * `: yes` / `: no` turned into `: True` / `: False`; a file is rewritten, and
 * counted, when one of its lines was changed.
 */
module Unifier {
  import opened Wrappers
  import opened Text
  import opened Lists
  import opened QuoteRegex

  /** `ln_match.groups()`, when the search finds a match. */
  function Groups(ln: string): (g: Option<seq<string>>)
    ensures g.Some? <==> FindMatch(ln).Some?
  {
    var m := FindMatch(ln);
    if m.None? then None
    else
      var QuoteMatch(p, q, r) := m.value;
      Some([ln[..p], ln[p..q], ln[q..q + 1], ln[q + 1..r], ln[r..r + 1], Body(ln)[r + 1..]])
  }

  /** `re.sub(r"'", '"', s)`. */
  function Swap(s: string): string {
    seq(|s|, i requires 0 <= i < |s| => if s[i] == '\'' then '"' else s[i])
  }

  /** The text with a newline at its end, added when it has none. */
  function WithNewline(s: string): string {
    if |s| > 0 && s[|s| - 1] == '\n' then s else s + "\n"
  }

  /** The requoted line: both quotes single, the single quotes inside double, and a final newline. */
  function Requoted(g: seq<string>): string
    requires |g| == 6
  {
    g[0] + g[1] + "'" + Swap(g[3]) + "'" + WithNewline(g[5])
  }

  /** `list(s)`: the one-character strings of `s`. */
  function Chars(s: string): (cs: seq<string>)
    ensures |cs| == |s|
  {
    seq(|s|, i requires 0 <= i < |s| => [s[i]])
  }

  /** ansible-unifier.py:39-51: the quote step, after `re.search`. */
  function QuoteStep(ln: string): string {
    if '"' in ln then
      var g := Groups(ln);
      if g.Some? then Requoted(g.value) else ln
    else ln
  }

  predicate EndsWith(s: string, t: string) {
    |t| <= |s| && s[|s| - |t|..] == t
  }

  /**
   * `re.sub(pat + "$", rep, s)` for a `pat` without newline: `$` matches at the
   * end of `s` and just before a newline that ends it, so only an occurrence
   * closing the line's body is replaced.
   */
  function DollarSub(s: string, pat: string, rep: string): string {
    var b := Body(s);
    if EndsWith(b, pat) then b[..|b| - |pat|] + rep + s[|b|..] else s
  }

  /** ansible-unifier.py:52-56. */
  function YesStep(ln: string): string {
    if Contains(Lower(ln), "yes") then DollarSub(ln, ": yes", ": True") else ln
  }

  /** ansible-unifier.py:57-61. */
  function NoStep(ln: string): string {
    if Contains(Lower(ln), "no") then DollarSub(ln, ": no", ": False") else ln
  }

  /** The line appended to `f_newlines`. */
  function Rewritten(ln: string): string {
    NoStep(YesStep(QuoteStep(ln)))
  }

  /** Whether the line sets `f_changed`: the quote pattern matched, or a yes/no substitution changed the line. */
  predicate Flagged(ln: string) {
    var q := QuoteStep(ln);
    var y := YesStep(q);
    ('"' in ln && Groups(ln).Some?) || y != q || NoStep(y) != y
  }

  /** The file's lines after the rewrite: `f_newlines`. */
  function RewrittenFile(lines: seq<string>): (r: seq<string>) {
    Map(lines, Rewritten)
  }

  /** `f_changed` after the loop has run over `lines`: some line raised it. */
  predicate FileFlagged(lines: seq<string>) {
    Any(lines, Flagged)
  }

  /** The content of a file after the run: rewritten when `f_changed` was raised, untouched otherwise. */
  function AfterRun(lines: seq<string>): seq<string> {
    if FileFlagged(lines) then RewrittenFile(lines) else lines
  }

  /** Whether the rewrite changes the content of a file. */
  predicate Changes(lines: seq<string>) {
    RewrittenFile(lines) != lines
  }

  /** Every entry is a line as `readlines()` yields it. */
  predicate AllLines(lines: seq<string>) {
    forall i :: 0 <= i < |lines| ==> IsLine(lines[i])
  }

  /** ansible-unifier.py:42-50: the edits of the `oldline` list, then its join. */
  method Requote(groups: seq<string>) returns (ln: string)
    requires |groups| == 6
    ensures ln == Requoted(groups)
  {
    var oldline := groups;
    if '\'' in oldline[3] {
      oldline := oldline[3 := Swap(oldline[3])];
    } else {
      SwapWithoutSingleQuote(oldline[3]);
    }
    oldline := oldline[2 := "'"][4 := "'"];
    assert oldline[5..] == [groups[5]];
    FlattenOne(groups[5]);
    var oldlineLast := Flatten(oldline[5..]);
    var head := oldline[..5];
    assert head == [groups[0], groups[1], "'", Swap(groups[3]), "'"];
    if !(|oldlineLast| > 0 && oldlineLast[|oldlineLast| - 1] == '\n') {
      oldline := head + Chars(oldlineLast + "\n");
    } else {
      assert oldline == head + [oldlineLast];
    }
    JoinLine(groups, head, oldlineLast, oldline);
    ln := Flatten(oldline);
  }

  /** ansible-unifier.py:37-62 for one line: the rewritten line, and whether it sets `f_changed`. */
  method RewriteLine(line: string) returns (ln: string, changed: bool)
    ensures ln == Rewritten(line) && changed == Flagged(line)
  {
    ln := line;
    changed := false;
    if '"' in ln {
      var lnMatch := Groups(ln);
      if lnMatch.Some? {
        ln := Requote(lnMatch.value);
        changed := true;
      }
    }
    if Contains(Lower(ln), "yes") {
      var lnOrig := ln;
      ln := DollarSub(ln, ": yes", ": True");
      if ln != lnOrig {
        changed := true;
      }
    }
    if Contains(Lower(ln), "no") {
      var lnOrig := ln;
      ln := DollarSub(ln, ": no", ": False");
      if ln != lnOrig {
        changed := true;
      }
    }
  }

  /** The loop of ansible-unifier.py:37-62 over one file: `f_newlines` and `f_changed`. */
  method RewriteFile(lines: seq<string>) returns (newlines: seq<string>, changed: bool)
    ensures newlines == RewrittenFile(lines)
    ensures changed == FileFlagged(lines)
  {
    newlines := [];
    changed := false;
    var i := 0;
    while i < |lines|
      invariant 0 <= i <= |lines|
      invariant newlines == Map(lines[..i], Rewritten)
      invariant changed == FileFlagged(lines[..i])
    {
      var ln, lineChanged := RewriteLine(lines[i]);
      MapStep(lines, Rewritten, i);
      AnyStep(lines, Flagged, i);
      if lineChanged {
        changed := true;
      }
      newlines := newlines + [ln];
      i := i + 1;
    }
    assert lines[..i] == lines;
  }

  /**
   * ansible-unifier.py:32-68 over the YAML files found: the content of each file
   * afterwards (a file none of whose lines changed is left as it was), and
   * `ymls_changed`.
   */
  method Unify(files: seq<seq<string>>) returns (contents: seq<seq<string>>, ymlsChanged: nat)
    ensures contents == Map(files, AfterRun)
    ensures ymlsChanged == Count(files, FileFlagged)
  {
    contents := [];
    ymlsChanged := 0;
    var i := 0;
    while i < |files|
      invariant 0 <= i <= |files|
      invariant contents == Map(files[..i], AfterRun)
      invariant ymlsChanged == Count(files[..i], FileFlagged)
    {
      MapStep(files, AfterRun, i);
      CountStep(files, FileFlagged, i);
      var newlines, fChanged := RewriteFile(files[i]);
      if fChanged {
        contents := contents + [newlines];
        ymlsChanged := ymlsChanged + 1;
      } else {
        contents := contents + [files[i]];
      }
      i := i + 1;
    }
    assert files[..i] == files;
  }

  lemma SwapWithoutSingleQuote(s: string)
    requires '\'' !in s
    ensures Swap(s) == s
  {
  }

  lemma FlattenOne(s: string)
    ensures Flatten([s]) == s
  {
    assert [s][..0] == [];
  }

  lemma {:induction false} FlattenChars(s: string)
    ensures Flatten(Chars(s)) == s
    decreases |s|
  {
    if s != [] {
      var init := s[..|s| - 1];
      FlattenChars(init);
      assert Chars(s)[..|s| - 1] == Chars(init);
      assert s == init + [s[|s| - 1]];
    }
  }

  lemma FlattenFive(g: seq<string>)
    requires |g| == 5
    ensures Flatten(g) == g[0] + g[1] + g[2] + g[3] + g[4]
  {
    assert g[..1][..0] == [];
    assert Flatten(g[..1]) == g[0];
    assert g[..2][..1] == g[..1];
    assert Flatten(g[..2]) == g[0] + g[1];
    assert g[..3][..2] == g[..2];
    assert Flatten(g[..3]) == g[0] + g[1] + g[2];
    assert g[..4][..3] == g[..3];
    assert Flatten(g[..4]) == g[0] + g[1] + g[2] + g[3];
    assert g[..5][..4] == g[..4];
  }

  /** Joining the edited pieces gives the requoted line, whether the last group stays whole or is split into characters with a newline added. */
  lemma JoinLine(groups: seq<string>, head: seq<string>, last: string, oldline: seq<string>)
    requires |groups| == 6 && head == [groups[0], groups[1], "'", Swap(groups[3]), "'"] && last == groups[5]
    requires oldline == if |last| > 0 && last[|last| - 1] == '\n' then head + [last] else head + Chars(last + "\n")
    ensures Flatten(oldline) == Requoted(groups)
  {
    FlattenFive(head);
    if |last| > 0 && last[|last| - 1] == '\n' {
      FlattenOne(last);
      FlattenConcat(head, [last]);
    } else {
      FlattenChars(last + "\n");
      FlattenConcat(head, Chars(last + "\n"));
    }
  }

  /** On a match, the quote step's output piece by piece. */
  lemma QuoteStepPieces(ln: string)
    requires IsLine(ln) && FindMatch(ln).Some?
    ensures var m := FindMatch(ln).value;
      var b := Body(ln);
      && m.r < |b|
      && QuoteStep(ln) == ln[..m.q] + "'" + Swap(ln[m.q + 1..m.r]) + "'" + b[m.r + 1..] + "\n"
  {
    var m := FindMatch(ln).value;
    var b := Body(ln);
    assert ln[m.q] in ln;
    assert ln[m.r] != '\n';
    var g := Groups(ln).value;
    assert g[0] + g[1] == ln[..m.q];
    assert WithNewline(g[5]) == g[5] + "\n" by {
      if |g[5]| > 0 {
        assert g[5][|g[5]| - 1] in b;
      }
    }
  }

  /**
   * On a match the quote step keeps the line up to the opening quote, turns the
   * two quotes into single quotes and every single quote between them into a
   * double quote, keeps the rest of the line's body, and ends the line with
   * exactly one newline.
   */
  lemma QuoteStepShape(ln: string)
    requires IsLine(ln) && FindMatch(ln).Some?
    ensures var m := FindMatch(ln).value;
      var out := QuoteStep(ln);
      var b := Body(ln);
      && m.r < |b|
      && |out| == |b| + 1
      && out[..m.q] == ln[..m.q]
      && out[m.q] == '\'' && out[m.r] == '\''
      && (forall i :: m.q < i < m.r ==> out[i] == if ln[i] == '\'' then '"' else ln[i])
      && out[m.r + 1..|b|] == b[m.r + 1..]
      && out[|b|] == '\n'
  {
    var m := FindMatch(ln).value;
    QuoteStepPieces(ln);
    MatchShape(ln, Body(ln), m.q, m.r, QuoteStep(ln));
  }

  /** The facts of `QuoteStepShape` for a line assembled from the pieces of a match at `q` and `r`. */
  lemma MatchShape(ln: string, b: string, q: nat, r: nat, out: string)
    requires q < r < |b| <= |ln|
    requires out == ln[..q] + "'" + Swap(ln[q + 1..r]) + "'" + b[r + 1..] + "\n"
    ensures |out| == |b| + 1
    ensures out[..q] == ln[..q]
    ensures out[q] == '\'' && out[r] == '\''
    ensures forall i :: q < i < r ==> out[i] == if ln[i] == '\'' then '"' else ln[i]
    ensures out[r + 1..|b|] == b[r + 1..]
    ensures out[|b|] == '\n'
  {
    var inner := ln[q + 1..r];
    RequotedShape(ln[..q], inner, b[r + 1..]);
    forall i | q < i < r
      ensures inner[i - q - 1] == ln[i]
    {
    }
  }

  /** Where each piece of a requoted line lands. */
  lemma RequotedShape(pre: string, inner: string, rest: string)
    ensures var out := pre + "'" + Swap(inner) + "'" + rest + "\n";
      var r := |pre| + |inner| + 1;
      && |out| == r + |rest| + 2
      && out[..|pre|] == pre
      && out[|pre|] == '\'' && out[r] == '\''
      && (forall i :: |pre| < i < r ==> out[i] == if inner[i - |pre| - 1] == '\'' then '"' else inner[i - |pre| - 1])
      && out[r + 1..|out| - 1] == rest
      && out[|out| - 1] == '\n'
  {
    var out := pre + "'" + Swap(inner) + "'" + rest + "\n";
    var r := |pre| + |inner| + 1;
    assert out[..|pre|] == pre;
    assert out[r + 1..|out| - 1] == rest;
  }

  /** The quote step changes a line exactly when the pattern matches it; a line without `"` is left alone. */
  lemma QuoteStepChangesIff(ln: string)
    ensures QuoteStep(ln) != ln <==> FindMatch(ln).Some?
    ensures '"' !in ln ==> QuoteStep(ln) == ln
  {
    if FindMatch(ln).Some? {
      var m := FindMatch(ln).value;
      assert ln[m.q] in ln;
      var g := Groups(ln).value;
      assert |g[0] + g[1]| == m.q;
      assert QuoteStep(ln)[m.q] != ln[m.q];
    }
  }

  /**
   * Group 1 cannot be empty, so a key needs a character before its last word
   * character: a line with no `:` after its second character is never requoted.
   */
  lemma NoKeyNoRequote(ln: string)
    requires forall k :: 2 <= k < |ln| ==> ln[k] != ':'
    ensures QuoteStep(ln) == ln
  {
    QuoteStepChangesIff(ln);
  }

  /** `k: "v"` with its one-character key in column 0 keeps its double quotes. */
  lemma OneCharKeyNotRequoted()
    ensures QuoteStep("k: \"v\"\n") == "k: \"v\"\n"
  {
    NoKeyNoRequote("k: \"v\"\n");
  }

  /** `DollarSub` changes its text exactly when the body ends with `pat`, and then only that ending. */
  lemma DollarSubSpec(s: string, pat: string, rep: string)
    requires |pat| != |rep|
    ensures var b := Body(s);
      DollarSub(s, pat, rep) != s <==> EndsWith(b, pat)
    ensures var b := Body(s);
      EndsWith(b, pat) ==>
        DollarSub(s, pat, rep) == b[..|b| - |pat|] + rep + s[|b|..]
        && |DollarSub(s, pat, rep)| == |s| + |rep| - |pat|
  {
  }

  /** Lower-casing a line keeps a piece `t` of it found at `i` as `Lower(t)`. */
  lemma LowerHas(ln: string, i: nat, t: string)
    requires i + |t| <= |ln| && ln[i..i + |t|] == t
    ensures Contains(Lower(ln), Lower(t))
  {
    assert Lower(ln)[i..i + |t|] == Lower(t);
    ContainsAt(Lower(ln), Lower(t), i);
  }

  /** The lower-cased pre-check of the yes step never blocks the substitution: it could be left out. */
  lemma YesPrecheckRedundant(ln: string)
    ensures YesStep(ln) == DollarSub(ln, ": yes", ": True")
  {
    var b := Body(ln);
    if EndsWith(b, ": yes") {
      var i := |b| - 3;
      assert ln[i..i + 3] == b[i..i + 3] == "yes";
      LowerHas(ln, i, "yes");
      assert Lower("yes") == "yes";
    }
  }

  /** The lower-cased pre-check of the no step never blocks the substitution either. */
  lemma NoPrecheckRedundant(ln: string)
    ensures NoStep(ln) == DollarSub(ln, ": no", ": False")
  {
    var b := Body(ln);
    if EndsWith(b, ": no") {
      var i := |b| - 2;
      assert ln[i..i + 2] == b[i..i + 2] == "no";
      LowerHas(ln, i, "no");
      assert Lower("no") == "no";
    }
  }

  /**
   * The substitution is case-sensitive although the pre-check lower-cases the
   * line: a final `: Yes` passes the pre-check and is left as it is.
   */
  lemma YesIsCaseSensitive(ln: string)
    requires EndsWith(Body(ln), ": Yes")
    ensures Contains(Lower(ln), "yes") && YesStep(ln) == ln
  {
    var b := Body(ln);
    var i := |b| - 3;
    assert ln[i..i + 3] == b[i..i + 3] == "Yes";
    LowerHas(ln, i, "Yes");
    assert Lower("Yes") == "yes";
    assert b[|b| - 3] == 'Y';
  }

  /** Likewise a final `: No` passes the no step's pre-check and is left as it is. */
  lemma NoIsCaseSensitive(ln: string)
    requires EndsWith(Body(ln), ": No")
    ensures Contains(Lower(ln), "no") && NoStep(ln) == ln
  {
    var b := Body(ln);
    var i := |b| - 2;
    assert ln[i..i + 2] == b[i..i + 2] == "No";
    LowerHas(ln, i, "No");
    assert Lower("No") == "no";
    assert b[|b| - 2] == 'N';
  }

  /** The yes and no steps only ever lengthen a line they change. */
  lemma StepsLengthen(ln: string)
    ensures YesStep(ln) == ln || |YesStep(ln)| == |ln| + 1
    ensures NoStep(ln) == ln || |NoStep(ln)| == |ln| + 3
  {
    DollarSubSpec(ln, ": yes", ": True");
    DollarSubSpec(ln, ": no", ": False");
  }

  /** `f_changed` is raised by a line exactly when its rewritten form differs from it. */
  lemma FlaggedIffChanged(ln: string)
    requires IsLine(ln)
    ensures Flagged(ln) <==> Rewritten(ln) != ln
  {
    var q := QuoteStep(ln);
    var y := YesStep(q);
    QuoteStepChangesIff(ln);
    if FindMatch(ln).Some? {
      QuoteStepShape(ln);
    }
    StepsLengthen(q);
    StepsLengthen(y);
  }

  /** Over a file of lines, `f_changed` is raised exactly when some line is rewritten, and the file then takes the new lines. */
  lemma FileFlaggedIffChanged(lines: seq<string>)
    requires AllLines(lines)
    ensures FileFlagged(lines) <==> Changes(lines)
    ensures AfterRun(lines) == RewrittenFile(lines)
  {
    forall x | x in lines ensures Flagged(x) <==> Rewritten(x) != x {
      FlaggedIffChanged(x);
    }
    AnyChangedIff(lines, Rewritten, Flagged);
  }

  /** On files of lines, `ymls_changed` is the number of files whose content the rewrite changes. */
  lemma CountFlaggedIsChangedFiles(files: seq<seq<string>>)
    requires forall f :: f in files ==> AllLines(f)
    ensures Count(files, FileFlagged) == Count(files, Changes)
    ensures Count(files, FileFlagged) <= |files|
    ensures Count(files, FileFlagged) == 0 <==> forall i :: 0 <= i < |files| ==> !Changes(files[i])
  {
    forall f | f in files ensures FileFlagged(f) <==> Changes(f) {
      FileFlaggedIffChanged(f);
    }
    CountSame(files, FileFlagged, Changes);
    CountBounds(files, Changes);
    AnyIff(files, Changes);
  }
}
