/**
 * Loading the playbook (ansible-sanity.py:47-51): every task of the first play
 * names the role it includes and the variables it passes; they are collected
 * into the role -> vars dictionary `pbook_vars`.
 */
module Playbook {
  import opened Wrappers
  import opened Lists
  import opened OrderedMaps
  import opened YamlValues

  /** A task's `vars` mapping: variable name -> type of the value passed (only the type is ever looked at). */
  type VarTypes = Mapping<TypeTag>

  /** The `include_role` mapping of a task, which may lack its `name` key. */
  datatype RoleRef = RoleRef(name: Option<string>)

  /** A task of the first play as loaded: `None` for a key the task does not have. */
  datatype Task = Task(includeRole: Option<RoleRef>, vars: Option<VarTypes>)

  /** A play, with its `tasks` list if it has one. */
  datatype Play = Play(tasks: Option<seq<Task>>)

  /** Why loading aborts: the playbook has no play, the first play no `tasks`, or a task misses a key. */
  datatype LoadError = NoPlay | NoTasks | MissingKey(task: nat, key: TaskKey)

  /** The key whose lookup raised KeyError: `vars`, `include_role`, or `name` inside it. */
  datatype TaskKey = VarsKey | IncludeRoleKey | NameKey

  /**
   * What `pbook_vars[t['include_role']['name']] = t['vars']` reads from task number `i`.
   * Python evaluates the right-hand side first, so a missing `vars` is reported
   * before a missing `include_role` or `name`.
   */
  function Invocation(t: Task, i: nat): Result<(string, VarTypes), LoadError> {
    if t.vars.None? then Err(MissingKey(i, VarsKey))
    else if t.includeRole.None? then Err(MissingKey(i, IncludeRoleKey))
    else if t.includeRole.value.name.None? then Err(MissingKey(i, NameKey))
    else Ok((t.includeRole.value.name.value, t.vars.value))
  }

  /** `pbook_vars` after the loop has run over `tasks`, or the KeyError that stopped it. */
  function RoleVars(tasks: seq<Task>): Result<Mapping<VarTypes>, LoadError>
    decreases |tasks|
  {
    if tasks == [] then Ok([])
    else
      var before := RoleVars(tasks[..|tasks| - 1]);
      var inv := Invocation(tasks[|tasks| - 1], |tasks| - 1);
      if before.Err? then before
      else if inv.Err? then Err(inv.error)
      else Ok(Put(before.value, inv.value.0, inv.value.1))
  }

  /** `pbook_yaml_parsed[0]['tasks']`, then the loop over it. */
  function LoadSpec(playbook: seq<Play>): Result<Mapping<VarTypes>, LoadError> {
    if playbook == [] then Err(NoPlay)
    else if playbook[0].tasks.None? then Err(NoTasks)
    else RoleVars(playbook[0].tasks.value)
  }

  /** The loop of ansible-sanity.py:49-50, filling `pbook_vars` task by task. */
  method Load(playbook: seq<Play>) returns (r: Result<Mapping<VarTypes>, LoadError>)
    ensures r == LoadSpec(playbook)
  {
    if |playbook| == 0 {
      return Err(NoPlay);
    }
    if playbook[0].tasks.None? {
      return Err(NoTasks);
    }
    var tasks := playbook[0].tasks.value;
    var pbookVars: Mapping<VarTypes> := [];
    var i := 0;
    while i < |tasks|
      invariant 0 <= i <= |tasks|
      invariant RoleVars(tasks[..i]) == Ok(pbookVars)
    {
      var inv := Invocation(tasks[i], i);
      if inv.Err? {
        assert tasks[..i + 1][..i] == tasks[..i];
        RoleVarsKeepsError(tasks, i + 1);
        return Err(inv.error);
      }
      assert tasks[..i + 1][..i] == tasks[..i];
      pbookVars := Put(pbookVars, inv.value.0, inv.value.1);
      i := i + 1;
    }
    assert tasks[..i] == tasks;
    r := Ok(pbookVars);
  }

  /** Once a task has raised, the tasks after it change nothing: the run is over. */
  lemma {:induction false} RoleVarsKeepsError(tasks: seq<Task>, n: nat)
    requires n <= |tasks| && RoleVars(tasks[..n]).Err?
    ensures RoleVars(tasks) == RoleVars(tasks[..n])
    decreases |tasks| - n
  {
    if n < |tasks| {
      assert tasks[..n + 1][..n] == tasks[..n];
      RoleVarsKeepsError(tasks, n + 1);
    } else {
      assert tasks[..n] == tasks;
    }
  }

  /** The role named by task `i`, when the task names one. */
  function RoleOf(tasks: seq<Task>, i: nat): string
    requires i < |tasks| && Invocation(tasks[i], i).Ok?
  {
    Invocation(tasks[i], i).value.0
  }

  /** Every task has `vars` and `include_role.name`. */
  predicate WellFormed(tasks: seq<Task>) {
    forall i :: 0 <= i < |tasks| ==> Invocation(tasks[i], i).Ok?
  }

  /** A sequence of tasks is well formed when its prefix is and its last task is. */
  lemma WellFormedSnoc(tasks: seq<Task>)
    requires tasks != []
    ensures WellFormed(tasks) <==>
      WellFormed(tasks[..|tasks| - 1]) && Invocation(tasks[|tasks| - 1], |tasks| - 1).Ok?
  {
    assert forall i :: 0 <= i < |tasks| - 1 ==> tasks[..|tasks| - 1][i] == tasks[i];
  }

  /** Loading succeeds exactly when every task has `vars` and `include_role.name`. */
  lemma {:induction false} LoadOkIff(tasks: seq<Task>)
    ensures RoleVars(tasks).Ok? <==> WellFormed(tasks)
    decreases |tasks|
  {
    if tasks != [] {
      LoadOkIff(tasks[..|tasks| - 1]);
      WellFormedSnoc(tasks);
    }
  }

  /**
   * One more well-formed task: loading the tasks before it succeeds, and so does
   * loading all of them (which then puts the last task's role and `vars`).
   */
  lemma RoleVarsSnoc(tasks: seq<Task>)
    requires WellFormed(tasks) && tasks != []
    ensures WellFormed(tasks[..|tasks| - 1])
    ensures RoleVars(tasks[..|tasks| - 1]).Ok?
    ensures RoleVars(tasks).Ok?
  {
    WellFormedSnoc(tasks);
    LoadOkIff(tasks[..|tasks| - 1]);
  }

  /** The error reported is that of the first task lacking a key. */
  lemma LoadFailsAtFirst(tasks: seq<Task>, i: nat)
    requires i < |tasks| && Invocation(tasks[i], i).Err?
    requires WellFormed(tasks[..i])
    ensures RoleVars(tasks) == Err(Invocation(tasks[i], i).error)
  {
    var pre := tasks[..i];
    LoadOkIff(pre);
    assert tasks[..i + 1][..i] == pre;
    RoleVarsKeepsError(tasks, i + 1);
  }

  /** The assignment each task makes, in task order. */
  function Assignments(tasks: seq<Task>): (bs: seq<Binding<VarTypes>>)
    requires WellFormed(tasks)
    ensures |bs| == |tasks|
    ensures forall i :: 0 <= i < |tasks| ==> bs[i] == Binding(RoleOf(tasks, i), tasks[i].vars.value)
  {
    seq(|tasks|, i requires 0 <= i < |tasks| => Binding(RoleOf(tasks, i), tasks[i].vars.value))
  }

  /** The role of every task, in task order. */
  function Roles(tasks: seq<Task>): (r: seq<string>)
    requires WellFormed(tasks)
    ensures |r| == |tasks|
    ensures forall i :: 0 <= i < |tasks| ==> r[i] == RoleOf(tasks, i)
  {
    Keys(Assignments(tasks))
  }

  /** A prefix of well-formed tasks is well formed, and makes the same assignments. */
  lemma AssignmentsPrefix(tasks: seq<Task>, n: nat)
    requires WellFormed(tasks) && n <= |tasks|
    ensures WellFormed(tasks[..n]) && Assignments(tasks[..n]) == Assignments(tasks)[..n]
  {
    assert forall i :: 0 <= i < n ==> tasks[..n][i] == tasks[i];
  }

  /** When every task is well formed, `pbook_vars` is the dictionary built from the tasks' assignments. */
  lemma {:induction false} RoleVarsIsDict(tasks: seq<Task>)
    requires WellFormed(tasks)
    ensures RoleVars(tasks) == Ok(DictFrom(Assignments(tasks)))
    decreases |tasks|
  {
    if tasks != [] {
      var n := |tasks| - 1;
      RoleVarsSnoc(tasks);
      AssignmentsPrefix(tasks, n);
      RoleVarsIsDict(tasks[..n]);
    }
  }

  /**
   * A role included by several tasks keeps the `vars` of the last of them: the
   * assignment overwrites, and no duplicate is rejected.
   */
  lemma LastInclusionWins(tasks: seq<Task>, i: nat)
    requires WellFormed(tasks) && i < |tasks|
    ensures RoleVars(tasks).Ok? && RoleOf(tasks, i) in Keys(RoleVars(tasks).value)
    ensures (forall j :: i < j < |tasks| ==> RoleOf(tasks, j) != RoleOf(tasks, i)) ==>
              Get(RoleVars(tasks).value, RoleOf(tasks, i)) == tasks[i].vars.value
  {
    var bs := Assignments(tasks);
    RoleVarsIsDict(tasks);
    DictFromHasKey(bs, i);
    if forall j :: i < j < |bs| ==> bs[j].key != bs[i].key {
      DictFromGetLast(bs, i);
    }
  }

  /** Every key of `pbook_vars` is the role of some task. */
  lemma OnlyIncludedRoles(tasks: seq<Task>, role: string)
    requires WellFormed(tasks)
    ensures RoleVars(tasks).Ok?
    ensures role in Keys(RoleVars(tasks).value) ==> role in Roles(tasks)
  {
    RoleVarsIsDict(tasks);
    DictFromKeys(Assignments(tasks));
    DedupSpec(Roles(tasks));
  }

  /** The roles in the order of their first inclusion, each once. */
  lemma RolesInFirstInclusionOrder(tasks: seq<Task>)
    requires WellFormed(tasks)
    ensures RoleVars(tasks).Ok?
    ensures Keys(RoleVars(tasks).value) == Dedup(Roles(tasks))
    ensures Distinct(Keys(RoleVars(tasks).value))
  {
    RoleVarsIsDict(tasks);
    DictFromKeys(Assignments(tasks));
    DedupSpec(Roles(tasks));
  }
}
