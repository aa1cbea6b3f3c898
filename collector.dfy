/**
 * Collecting a role's declarations (ansible-sanity.py:72-99): every top-level key
 * of a YAML file under `vars/` or `defaults/` becomes a (name, type) entry of that
 * kind, and every data row of a README.md a documented name.
 */
module Collector {
  import opened Lists
  import opened OrderedMaps
  import opened YamlValues
  import opened Readme

  /** The directory a YAML file sits in, which decides the list its keys go to. */
  datatype DeclDir = VarsDir | DefaultsDir

  /**
   * What `yaml.safe_load` returned for a file: a mapping (key -> type of its value),
   * or something the loop cannot index by key (None for an empty file, a scalar,
   * a list of strings), on which it raises the TypeError that is caught.
   */
  datatype YamlDoc = Loaded(entries: Mapping<TypeTag>) | NotMapping

  /** One of the files found for a role, in the order the directory walk found them. */
  datatype RoleFile = YamlFile(dir: DeclDir, doc: YamlDoc) | ReadmeFile(lines: seq<string>)

  /** `[var, type(loaded[var])]`: a declared name and the type of its value. */
  datatype Decl = Decl(name: string, tag: TypeTag)

  /** `collected_vars[role]`: the `vars`, `defaults` and `readme` lists. */
  datatype Collected = Collected(vars: seq<Decl>, defaults: seq<Decl>, readme: seq<string>)

  /** One entry per top-level key, in the mapping's order. */
  function Decls(entries: Mapping<TypeTag>): seq<Decl> {
    seq(|entries|, i requires 0 <= i < |entries| => Decl(entries[i].key, entries[i].value))
  }

  /** The lists after one more file has been read. */
  function AddFile(c: Collected, f: RoleFile): Collected {
    match f
    case YamlFile(dir, Loaded(es)) =>
      if dir == VarsDir then c.(vars := c.vars + Decls(es)) else c.(defaults := c.defaults + Decls(es))
    case YamlFile(_, NotMapping) => c
    case ReadmeFile(lines) => c.(readme := c.readme + ReadmeNames(lines))
  }

  /** `collected_vars[role]` after the loop over the role's files. */
  function CollectSpec(files: seq<RoleFile>): Collected
    decreases |files|
  {
    if files == [] then Collected([], [], [])
    else AddFile(CollectSpec(files[..|files| - 1]), files[|files| - 1])
  }

  /** The positions of the files that print "has no valid YAML content", in order. */
  function Warnings(files: seq<RoleFile>): seq<nat>
    decreases |files|
  {
    if files == [] then []
    else
      var n := |files| - 1;
      Warnings(files[..n]) + (if files[n].YamlFile? && files[n].doc.NotMapping? then [n] else [])
  }

  /** The loop of ansible-sanity.py:74-99 for one role. */
  method Collect(files: seq<RoleFile>) returns (c: Collected, warned: seq<nat>)
    ensures c == CollectSpec(files)
    ensures warned == Warnings(files)
  {
    c := Collected([], [], []);
    warned := [];
    var i := 0;
    while i < |files|
      invariant 0 <= i <= |files|
      invariant c == CollectSpec(files[..i])
      invariant warned == Warnings(files[..i])
    {
      assert files[..i + 1][..i] == files[..i];
      match files[i] {
        case YamlFile(dir, Loaded(es)) =>
          c := AddKeys(c, dir, es);
        case YamlFile(_, NotMapping) =>
          warned := warned + [i];
        case ReadmeFile(lines) =>
          c := AddRows(c, lines);
      }
      i := i + 1;
    }
    assert files[..i] == files;
  }

  /** ansible-sanity.py:87-88: one entry per top-level key, appended to the list of the file's directory. */
  method AddKeys(c0: Collected, dir: DeclDir, es: Mapping<TypeTag>) returns (c: Collected)
    ensures c == AddFile(c0, YamlFile(dir, Loaded(es)))
  {
    c := c0;
    var j := 0;
    while j < |es|
      invariant 0 <= j <= |es|
      invariant c == AddFile(c0, YamlFile(dir, Loaded(es[..j])))
    {
      assert Decls(es[..j + 1]) == Decls(es[..j]) + [Decl(es[j].key, es[j].value)];
      if dir == VarsDir {
        c := c.(vars := c.vars + [Decl(es[j].key, es[j].value)]);
      } else {
        c := c.(defaults := c.defaults + [Decl(es[j].key, es[j].value)]);
      }
      j := j + 1;
    }
    assert es[..j] == es;
  }

  /** ansible-sanity.py:94-98: the first cell of every data row, in line order. */
  method AddRows(c0: Collected, lines: seq<string>) returns (c: Collected)
    ensures c == AddFile(c0, ReadmeFile(lines))
  {
    c := c0;
    var j := 0;
    while j < |lines|
      invariant 0 <= j <= |lines|
      invariant c == c0.(readme := c0.readme + ReadmeNames(lines[..j]))
    {
      var ln := lines[j];
      ReadmeNamesSnoc(lines[..j + 1]);
      assert lines[..j + 1][..j] == lines[..j];
      if MatchesRow(ln) && !MatchesHeader(ln) {
        RowName(ln);
        c := c.(readme := c.readme + [CellName(ln)]);
      }
      j := j + 1;
    }
    assert lines[..j] == lines;
  }

  /** The declarations of one file, or none. */
  function VarsOf(f: RoleFile): seq<Decl> {
    if f.YamlFile? && f.dir == VarsDir && f.doc.Loaded? then Decls(f.doc.entries) else []
  }

  function DefaultsOf(f: RoleFile): seq<Decl> {
    if f.YamlFile? && f.dir == DefaultsDir && f.doc.Loaded? then Decls(f.doc.entries) else []
  }

  function ReadmeOf(f: RoleFile): seq<string> {
    if f.ReadmeFile? then ReadmeNames(f.lines) else []
  }

  /**
   * Each list is the files' contributions one after another, in file order: every
   * key of every mapping once, repeats across files kept; files that did not load
   * to a mapping contribute nothing.
   */
  lemma {:induction false} CollectedInFileOrder(files: seq<RoleFile>)
    ensures CollectSpec(files).vars == Flatten(Map(files, VarsOf))
    ensures CollectSpec(files).defaults == Flatten(Map(files, DefaultsOf))
    ensures CollectSpec(files).readme == Flatten(Map(files, ReadmeOf))
    decreases |files|
  {
    if files != [] {
      var n := |files| - 1;
      CollectedInFileOrder(files[..n]);
      FlattenMapSnoc(files, VarsOf);
      FlattenMapSnoc(files, DefaultsOf);
      FlattenMapSnoc(files, ReadmeOf);
    }
  }

  /**
   * A file that did not load to a mapping is warned about, adds nothing, and the
   * files after it are still read: the lists are those of the same walk without it.
   */
  lemma {:induction false} SkippedFileHarmless(files: seq<RoleFile>, n: nat)
    requires n < |files| && files[n].YamlFile? && files[n].doc.NotMapping?
    ensures n in Warnings(files)
    ensures VarsOf(files[n]) == [] && DefaultsOf(files[n]) == [] && ReadmeOf(files[n]) == []
    ensures CollectSpec(files) == CollectSpec(files[..n] + files[n + 1..])
  {
    WarnedAt(files, n);
    assert files == files[..n] + [files[n]] + files[n + 1..];
    SkipNotMapping(files[..n], files[n], files[n + 1..]);
  }

  lemma {:induction false} WarnedAt(files: seq<RoleFile>, n: nat)
    requires n < |files| && files[n].YamlFile? && files[n].doc.NotMapping?
    ensures n in Warnings(files)
    decreases |files|
  {
    var last := |files| - 1;
    if n < last {
      assert files[..last][n] == files[n];
      WarnedAt(files[..last], n);
    }
  }

  /** Reading one more file. */
  lemma CollectSnoc(files: seq<RoleFile>, f: RoleFile)
    ensures CollectSpec(files + [f]) == AddFile(CollectSpec(files), f)
  {
    assert (files + [f])[..|files|] == files;
  }

  /** Dropping a file that did not load to a mapping, wherever it sits, leaves the lists as they are. */
  lemma {:induction false} SkipNotMapping(before: seq<RoleFile>, f: RoleFile, after: seq<RoleFile>)
    requires f.YamlFile? && f.doc.NotMapping?
    ensures CollectSpec(before + [f] + after) == CollectSpec(before + after)
    decreases |after|
  {
    if after == [] {
      CollectSnoc(before, f);
      assert before + [f] + after == before + [f];
      assert before + after == before;
    } else {
      var n := |after| - 1;
      var g, rest := after[n], after[..n];
      assert after == rest + [g];
      SkipNotMapping(before, f, rest);
      var withF, withoutF := before + [f] + rest, before + rest;
      assert before + [f] + after == withF + [g];
      assert before + after == withoutF + [g];
      CollectSnoc(withF, g);
      CollectSnoc(withoutF, g);
    }
  }
}
