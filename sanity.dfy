/**
 * The whole analysis of ansible-sanity.py:47-157: the playbook is loaded, the
 * files of every role it includes are collected, every role's issues are found,
 * and the issues of all roles are counted.
 */
module Sanity {
  import opened Wrappers
  import opened Lists
  import opened OrderedMaps
  import opened Playbook
  import opened Collector
  import opened Analyzer

  /** A "has no valid YAML content" warning: the role, and the position of the file among the role's files. */
  datatype Warning = Warning(role: string, file: nat)

  /** What the run produces: `issues`, `issues_count`, and the warnings printed while collecting. */
  datatype Outcome = Outcome(issues: Mapping<RoleIssues>, count: nat, warnings: seq<Warning>)

  /**
   * The files the directory walk finds under `roles/<role>`, in walk order; a
   * role without a directory has none.
   */
  function FilesOf(tree: map<string, seq<RoleFile>>, role: string): seq<RoleFile> {
    if role in tree then tree[role] else []
  }

  /** `collected_vars` after its loop has run over `roles`: each role bound to what collecting its files gives. */
  function CollectAll(roles: seq<string>, tree: map<string, seq<RoleFile>>): Mapping<Collected> {
    PutAll(roles, r => CollectSpec(FilesOf(tree, r)))
  }

  /** The warnings of one role, tagged with its name. */
  function Tagged(role: string, ns: seq<nat>): (r: seq<Warning>)
    ensures |r| == |ns|
    ensures forall i :: 0 <= i < |ns| ==> r[i] == Warning(role, ns[i])
  {
    seq(|ns|, i requires 0 <= i < |ns| => Warning(role, ns[i]))
  }

  /** Every warning printed while collecting the files of `roles`, role by role. */
  function AllWarnings(roles: seq<string>, tree: map<string, seq<RoleFile>>): seq<Warning>
    decreases |roles|
  {
    if roles == [] then []
    else
      var r := roles[|roles| - 1];
      AllWarnings(roles[..|roles| - 1], tree) + Tagged(r, Warnings(FilesOf(tree, r)))
  }

  /** `issues` after its loop has run over `roles`. */
  function Report(roles: seq<string>, pbook: Mapping<VarTypes>, collected: Mapping<Collected>): Mapping<RoleIssues>
    requires forall r :: r in roles ==> r in Keys(pbook) && r in Keys(collected)
    decreases |roles|
  {
    if roles == [] then []
    else
      var r := roles[|roles| - 1];
      Put(Report(roles[..|roles| - 1], pbook, collected), r, Classification(Get(pbook, r), Get(collected, r)))
  }

  /** `list(issues[role].values())`: the seven lists in the order the dictionary literal gives them. */
  function CategoryLists(ri: RoleIssues): seq<seq<string>> {
    [ri.defaults, ri.undeclared, ri.absent, ri.notInReadme, ri.notInRole, ri.notInPbook, ri.typeMismatch]
  }

  /** `issues_count`: the length of the lists of lists of every role, flattened twice. */
  function IssueCount(issues: Mapping<RoleIssues>): nat {
    |Flatten(Flatten(seq(|issues|, i requires 0 <= i < |issues| => CategoryLists(issues[i].value))))|
  }

  /** The number of entries in one role's seven lists. */
  function RoleTotal(ri: RoleIssues): nat {
    |ri.defaults| + |ri.undeclared| + |ri.absent| + |ri.notInReadme| + |ri.notInRole| + |ri.notInPbook| + |ri.typeMismatch|
  }

  /** The number of entries in the lists of all roles, added up role by role. */
  function TotalIssues(issues: Mapping<RoleIssues>): nat
    decreases |issues|
  {
    if issues == [] then 0
    else TotalIssues(issues[..|issues| - 1]) + RoleTotal(issues[|issues| - 1].value)
  }

  /** A role with no issue of any kind. */
  predicate Clean(ri: RoleIssues) {
    ri.defaults == [] && ri.undeclared == [] && ri.absent == [] && ri.notInReadme == []
    && ri.notInRole == [] && ri.notInPbook == [] && ri.typeMismatch == []
  }

  /** The run on a playbook and the role files it can reach, up to the printing of the results. */
  function AnalyzeSpec(playbook: seq<Play>, tree: map<string, seq<RoleFile>>): Result<Outcome, LoadError> {
    var loaded := LoadSpec(playbook);
    if loaded.Err? then Err(loaded.error)
    else
      var pbook := loaded.value;
      var roles := Keys(pbook);
      var collected := CollectAll(roles, tree);
      CollectAllKeys(roles, tree);
      var issues := Report(roles, pbook, collected);
      Ok(Outcome(issues, IssueCount(issues), AllWarnings(roles, tree)))
  }

  /** ansible-sanity.py:47-157: load, collect role by role, classify role by role, count. */
  method Analyze(playbook: seq<Play>, tree: map<string, seq<RoleFile>>) returns (r: Result<Outcome, LoadError>)
    ensures r == AnalyzeSpec(playbook, tree)
  {
    var loaded := Load(playbook);
    if loaded.Err? {
      return Err(loaded.error);
    }
    var pbook := loaded.value;
    var roles := Keys(pbook);
    var collected, warnings := CollectRoles(roles, tree);
    CollectAllKeys(roles, tree);
    var issues := ClassifyRoles(roles, pbook, collected);
    r := Ok(Outcome(issues, IssueCount(issues), warnings));
  }

  /** The loop of ansible-sanity.py:72-99 over the roles, and the warnings it prints. */
  method CollectRoles(roles: seq<string>, tree: map<string, seq<RoleFile>>) returns (collected: Mapping<Collected>, warnings: seq<Warning>)
    ensures collected == CollectAll(roles, tree)
    ensures warnings == AllWarnings(roles, tree)
  {
    collected, warnings := [], [];
    var i := 0;
    while i < |roles|
      invariant 0 <= i <= |roles|
      invariant collected == CollectAll(roles[..i], tree)
      invariant warnings == AllWarnings(roles[..i], tree)
    {
      var role := roles[i];
      CollectStep(roles, tree, i);
      var c, warned := Collect(FilesOf(tree, role));
      collected := Put(collected, role, c);
      warnings := warnings + Tagged(role, warned);
      i := i + 1;
    }
    assert roles[..i] == roles;
  }

  /** One more role walked: its entry is put and its warnings appended. */
  lemma CollectStep(roles: seq<string>, tree: map<string, seq<RoleFile>>, i: nat)
    requires i < |roles|
    ensures CollectAll(roles[..i + 1], tree) == Put(CollectAll(roles[..i], tree), roles[i], CollectSpec(FilesOf(tree, roles[i])))
    ensures AllWarnings(roles[..i + 1], tree) == AllWarnings(roles[..i], tree) + Tagged(roles[i], Warnings(FilesOf(tree, roles[i])))
  {
    assert roles[..i + 1][..i] == roles[..i];
  }

  /** The loop of ansible-sanity.py:105-141 over the roles. */
  method ClassifyRoles(roles: seq<string>, pbook: Mapping<VarTypes>, collected: Mapping<Collected>) returns (issues: Mapping<RoleIssues>)
    requires forall r :: r in roles ==> r in Keys(pbook) && r in Keys(collected)
    ensures issues == Report(roles, pbook, collected)
  {
    issues := [];
    var j := 0;
    while j < |roles|
      invariant 0 <= j <= |roles|
      invariant issues == Report(roles[..j], pbook, collected)
    {
      ReportStep(roles, pbook, collected, j);
      var role := roles[j];
      var ri := Classify(Get(pbook, role), Get(collected, role));
      issues := Put(issues, role, ri);
      j := j + 1;
    }
    assert roles[..j] == roles;
  }

  /** One more role classified, as the loop over the roles does it. */
  lemma ReportStep(roles: seq<string>, pbook: Mapping<VarTypes>, collected: Mapping<Collected>, j: nat)
    requires forall r :: r in roles ==> r in Keys(pbook) && r in Keys(collected)
    requires j < |roles|
    ensures Report(roles[..j + 1], pbook, collected) ==
      Put(Report(roles[..j], pbook, collected), roles[j], Classification(Get(pbook, roles[j]), Get(collected, roles[j])))
  {
    assert roles[..j + 1][..j] == roles[..j];
  }

  /** `collected_vars` has an entry for exactly the roles walked, in their order when they are distinct. */
  lemma CollectAllKeys(roles: seq<string>, tree: map<string, seq<RoleFile>>)
    ensures forall r :: r in Keys(CollectAll(roles, tree)) <==> r in roles
    ensures Distinct(roles) ==> Keys(CollectAll(roles, tree)) == roles
  {
    PutAllKeys(roles, r => CollectSpec(FilesOf(tree, r)));
    DedupSpec(roles);
    if Distinct(roles) {
      DedupDistinct(roles);
    }
  }

  /** The entry of a role is what collecting its own files gives. */
  lemma CollectAllGet(roles: seq<string>, tree: map<string, seq<RoleFile>>, role: string)
    requires role in roles
    ensures role in Keys(CollectAll(roles, tree))
    ensures Get(CollectAll(roles, tree), role) == CollectSpec(FilesOf(tree, role))
  {
    PutAllGet(roles, r => CollectSpec(FilesOf(tree, r)), role);
  }

  /** `issues` has an entry for exactly the roles classified, in their order when they are distinct. */
  lemma {:induction false} ReportKeys(roles: seq<string>, pbook: Mapping<VarTypes>, collected: Mapping<Collected>)
    requires forall r :: r in roles ==> r in Keys(pbook) && r in Keys(collected)
    ensures forall r :: r in Keys(Report(roles, pbook, collected)) <==> r in roles
    ensures Distinct(roles) ==> Keys(Report(roles, pbook, collected)) == roles
    decreases |roles|
  {
    if roles != [] {
      var init := roles[..|roles| - 1];
      var r := roles[|roles| - 1];
      assert roles == init + [r];
      assert forall r :: r in init ==> r in roles;
      ReportKeys(init, pbook, collected);
      PutKeys(Report(init, pbook, collected), r, Classification(Get(pbook, r), Get(collected, r)), init);
    }
  }

  /** The entry of a role is the classification of its playbook vars against its collected declarations. */
  lemma {:induction false} ReportGet(roles: seq<string>, pbook: Mapping<VarTypes>, collected: Mapping<Collected>, role: string)
    requires forall r :: r in roles ==> r in Keys(pbook) && r in Keys(collected)
    requires role in roles
    ensures role in Keys(Report(roles, pbook, collected))
    ensures Get(Report(roles, pbook, collected), role) == Classification(Get(pbook, role), Get(collected, role))
    decreases |roles|
  {
    var init := roles[..|roles| - 1];
    var r := roles[|roles| - 1];
    assert roles == init + [r];
    if role != r {
      ReportGet(init, pbook, collected, role);
    } else {
      ReportKeys(init, pbook, collected);
    }
    PutGet(Report(init, pbook, collected), r, Classification(Get(pbook, r), Get(collected, r)), role);
  }

  lemma LoadedRolesDistinct(playbook: seq<Play>)
    requires LoadSpec(playbook).Ok?
    ensures Distinct(Keys(LoadSpec(playbook).value))
  {
    var tasks := playbook[0].tasks.value;
    LoadOkIff(tasks);
    RolesInFirstInclusionOrder(tasks);
  }

  /**
   * A successful run reports on exactly the roles of the playbook, in the
   * playbook's order, and each role's issues are those of its own playbook vars
   * against its own files.
   */
  lemma RoleReport(playbook: seq<Play>, tree: map<string, seq<RoleFile>>, role: string)
    requires LoadSpec(playbook).Ok?
    ensures AnalyzeSpec(playbook, tree).Ok?
    ensures var pbook := LoadSpec(playbook).value;
      var issues := AnalyzeSpec(playbook, tree).value.issues;
      && Keys(issues) == Keys(pbook)
      && (role in Keys(pbook) ==>
            Get(issues, role) == Classification(Get(pbook, role), CollectSpec(FilesOf(tree, role))))
  {
    var pbook := LoadSpec(playbook).value;
    var roles := Keys(pbook);
    var collected := CollectAll(roles, tree);
    CollectAllKeys(roles, tree);
    assert AnalyzeSpec(playbook, tree).value.issues == Report(roles, pbook, collected);
    LoadedRolesDistinct(playbook);
    IssuesPerRole(roles, pbook, tree, role);
  }

  /** The report on distinct roles whose files were collected: its keys are the roles, and each role's entry is its own. */
  lemma IssuesPerRole(roles: seq<string>, pbook: Mapping<VarTypes>, tree: map<string, seq<RoleFile>>, role: string)
    requires Distinct(roles) && forall r :: r in roles ==> r in Keys(pbook)
    ensures forall r :: r in roles ==> r in Keys(CollectAll(roles, tree))
    ensures var issues := Report(roles, pbook, CollectAll(roles, tree));
      && Keys(issues) == roles
      && (role in roles ==> Get(issues, role) == Classification(Get(pbook, role), CollectSpec(FilesOf(tree, role))))
  {
    var collected := CollectAll(roles, tree);
    CollectAllKeys(roles, tree);
    ReportKeys(roles, pbook, collected);
    if role in roles {
      ReportGet(roles, pbook, collected, role);
      CollectAllGet(roles, tree, role);
    }
  }

  /** The warnings are those of every role's files, role by role in playbook order. */
  lemma {:induction false} WarningsPerRole(roles: seq<string>, tree: map<string, seq<RoleFile>>, w: Warning)
    ensures w in AllWarnings(roles, tree) <==> w.role in roles && w.file in Warnings(FilesOf(tree, w.role))
    decreases |roles|
  {
    if roles != [] {
      var init := roles[..|roles| - 1];
      var r := roles[|roles| - 1];
      assert roles == init + [r];
      WarningsPerRole(init, tree, w);
      var t := Tagged(r, Warnings(FilesOf(tree, r)));
      if w in t {
        var k :| 0 <= k < |t| && t[k] == w;
      }
      if w.role == r && w.file in Warnings(FilesOf(tree, r)) {
        var k :| 0 <= k < |Warnings(FilesOf(tree, r))| && Warnings(FilesOf(tree, r))[k] == w.file;
        assert t[k] == w;
      }
    }
  }

  /** `issues_count` is the number of entries in all the lists of all the roles. */
  lemma {:induction false} IssueCountIsTotal(issues: Mapping<RoleIssues>)
    ensures IssueCount(issues) == TotalIssues(issues)
    decreases |issues|
  {
    var lists := seq(|issues|, i requires 0 <= i < |issues| => CategoryLists(issues[i].value));
    if issues != [] {
      var n := |issues| - 1;
      var init := issues[..n];
      var before := seq(|init|, i requires 0 <= i < |init| => CategoryLists(init[i].value));
      IssueCountIsTotal(init);
      assert lists[..n] == before;
      var cl := CategoryLists(issues[n].value);
      assert Flatten(lists) == Flatten(before) + cl;
      FlattenLength(Flatten(lists));
      FlattenLength(Flatten(before));
      SumLengthsConcat(Flatten(before), cl);
      CategoryListsLength(issues[n].value);
    }
  }

  lemma CategoryListsLength(ri: RoleIssues)
    ensures SumLengths(CategoryLists(ri)) == RoleTotal(ri)
  {
    var cl := CategoryLists(ri);
    assert SumLengths(cl[6..]) == |ri.typeMismatch| by { assert cl[6..][1..] == []; }
    assert SumLengths(cl[5..]) == |ri.notInPbook| + SumLengths(cl[6..]) by { assert cl[5..][1..] == cl[6..]; }
    assert SumLengths(cl[4..]) == |ri.notInRole| + SumLengths(cl[5..]) by { assert cl[4..][1..] == cl[5..]; }
    assert SumLengths(cl[3..]) == |ri.notInReadme| + SumLengths(cl[4..]) by { assert cl[3..][1..] == cl[4..]; }
    assert SumLengths(cl[2..]) == |ri.absent| + SumLengths(cl[3..]) by { assert cl[2..][1..] == cl[3..]; }
    assert SumLengths(cl[1..]) == |ri.undeclared| + SumLengths(cl[2..]) by { assert cl[1..][1..] == cl[2..]; }
  }

  /** The count is zero exactly when every role is clean. */
  lemma NoIssuesIff(issues: Mapping<RoleIssues>)
    ensures IssueCount(issues) == 0 <==> forall i :: 0 <= i < |issues| ==> Clean(issues[i].value)
  {
    IssueCountIsTotal(issues);
    TotalZeroIff(issues);
  }

  lemma {:induction false} TotalZeroIff(issues: Mapping<RoleIssues>)
    ensures TotalIssues(issues) == 0 <==> forall i :: 0 <= i < |issues| ==> Clean(issues[i].value)
    decreases |issues|
  {
    if issues != [] {
      var n := |issues| - 1;
      var init := issues[..n];
      TotalZeroIff(init);
      assert forall i :: 0 <= i < n ==> init[i] == issues[i];
    }
  }
}
