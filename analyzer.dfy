/**
 * Finding a role's issues (ansible-sanity.py:105-141): the playbook's `vars` for
 * the role are compared by name with the role's declarations and README names,
 * and by type with its `vars` declarations, giving seven ordered lists.
 */
module Analyzer {
  import opened Lists
  import opened OrderedMaps
  import opened YamlValues
  import opened Playbook
  import opened Collector

  /** `issues[role]`: the seven lists, named after the dictionary's keys. */
  datatype RoleIssues = RoleIssues(
    defaults: seq<string>,      // declared in playbook and overwriting defaults
    undeclared: seq<string>,    // declared in playbook, but undeclared in the role
    absent: seq<string>,        // declared in role, but absent in playbook
    notInReadme: seq<string>,   // declared in role, but absent in README
    notInRole: seq<string>,     // declared in README, but absent in role
    notInPbook: seq<string>,    // declared in README, but absent in playbook
    typeMismatch: seq<string>)  // type mismatch between the playbook and role

  /** `role_var_names`: the names of the `vars` declarations, repeats kept. */
  function Names(ds: seq<Decl>): (r: seq<string>)
    ensures |r| == |ds|
  {
    seq(|ds|, i requires 0 <= i < |ds| => ds[i].name)
  }

  /** The `defaults` list as the Python objects it holds: a two-element list `[name, type]` per declaration. */
  function AsPyLists(ds: seq<Decl>): (r: seq<PyValue>)
    ensures |r| == |ds|
  {
    seq(|ds|, i requires 0 <= i < |ds| => PyList([PyStr(ds[i].name), PyType(ds[i].tag)]))
  }

  /** Playbook variables for which `var not in role_var_names and var not in defaults` holds, in playbook order. */
  function Undeclared(keys: seq<string>, varNames: seq<string>, defaults: seq<PyValue>): seq<string>
    decreases |keys|
  {
    if keys == [] then []
    else
      var k := keys[|keys| - 1];
      Undeclared(keys[..|keys| - 1], varNames, defaults) +
        (if k !in varNames && PyStr(k) !in defaults then [k] else [])
  }

  /** Playbook variables for which `var in defaults` holds, in playbook order. */
  function Overwriting(keys: seq<string>, defaults: seq<PyValue>): seq<string>
    decreases |keys|
  {
    if keys == [] then []
    else
      var k := keys[|keys| - 1];
      Overwriting(keys[..|keys| - 1], defaults) + (if PyStr(k) in defaults then [k] else [])
  }

  /** The name once per `vars` declaration of that name whose type differs from `t`, in declaration order. */
  function MismatchesOf(name: string, t: TypeTag, vars: seq<Decl>): seq<string>
    decreases |vars|
  {
    if vars == [] then []
    else
      var d := vars[|vars| - 1];
      MismatchesOf(name, t, vars[..|vars| - 1]) + (if d.name == name && t != d.tag then [d.name] else [])
  }

  /** The `type_mismatch` list: for each playbook variable in turn, its mismatching declarations. */
  function Mismatches(pv: VarTypes, vars: seq<Decl>): seq<string>
    decreases |pv|
  {
    if pv == [] then []
    else
      var b := pv[|pv| - 1];
      Mismatches(pv[..|pv| - 1], vars) + MismatchesOf(b.key, b.value, vars)
  }

  /** `issues[role]` for a role with playbook vars `pv` and collected declarations `c`. */
  function Classification(pv: VarTypes, c: Collected): RoleIssues {
    var names := Names(c.vars);
    var defaults := AsPyLists(c.defaults);
    var keys := Keys(pv);
    RoleIssues(
      defaults := Overwriting(keys, defaults),
      undeclared := Undeclared(keys, names, defaults),
      absent := NotAmong(names, keys),
      notInReadme := NotAmong(names, c.readme),
      notInRole := NotAmong(c.readme, names),
      notInPbook := NotAmong(c.readme, keys),
      typeMismatch := Mismatches(pv, c.vars))
  }

  /** The three loops of ansible-sanity.py:115-141 for one role. */
  method Classify(pv: VarTypes, c: Collected) returns (ri: RoleIssues)
    ensures ri == Classification(pv, c)
  {
    var roleVarNames := Names(c.vars);
    var defaultsList := AsPyLists(c.defaults);
    var keys := Keys(pv);
    var defaults, undeclared, absent, notInReadme, notInRole, notInPbook, typeMismatch := [], [], [], [], [], [], [];
    var i := 0;
    while i < |pv|
      invariant 0 <= i <= |pv|
      invariant undeclared == Undeclared(keys[..i], roleVarNames, defaultsList)
      invariant defaults == Overwriting(keys[..i], defaultsList)
      invariant typeMismatch == Mismatches(pv[..i], c.vars)
    {
      var v := pv[i].key;
      ClassifyStep(pv, roleVarNames, defaultsList, c.vars, i);
      if v !in roleVarNames && PyStr(v) !in defaultsList {
        undeclared := undeclared + [v];
      }
      if PyStr(v) in defaultsList {
        defaults := defaults + [v];
      }
      var found := MismatchingDecls(v, pv[i].value, c.vars);
      typeMismatch := typeMismatch + found;
      i := i + 1;
    }
    assert keys[..i] == keys && pv[..i] == pv;
    absent, notInReadme := Missing(roleVarNames, keys, c.readme);
    notInRole, notInPbook := Missing(c.readme, roleVarNames, keys);
    ri := RoleIssues(defaults, undeclared, absent, notInReadme, notInRole, notInPbook, typeMismatch);
  }

  /** One more playbook variable examined, as the loop over them does it. */
  lemma ClassifyStep(pv: VarTypes, varNames: seq<string>, defaults: seq<PyValue>, vars: seq<Decl>, i: nat)
    requires i < |pv|
    ensures var keys := Keys(pv); var v := pv[i].key;
      keys[i] == v &&
      Undeclared(keys[..i + 1], varNames, defaults) ==
        Undeclared(keys[..i], varNames, defaults) + (if v !in varNames && PyStr(v) !in defaults then [v] else []) &&
      Overwriting(keys[..i + 1], defaults) == Overwriting(keys[..i], defaults) + (if PyStr(v) in defaults then [v] else []) &&
      Mismatches(pv[..i + 1], vars) == Mismatches(pv[..i], vars) + MismatchesOf(v, pv[i].value, vars)
  {
    var keys := Keys(pv);
    assert keys[..i + 1][..i] == keys[..i];
    assert pv[..i + 1][..i] == pv[..i];
  }

  /** The loops of ansible-sanity.py:128-141: which of the `xs` are missing from `ys`, and which from `zs`. */
  method Missing(xs: seq<string>, ys: seq<string>, zs: seq<string>) returns (notInYs: seq<string>, notInZs: seq<string>)
    ensures notInYs == NotAmong(xs, ys) && notInZs == NotAmong(xs, zs)
  {
    notInYs, notInZs := [], [];
    var j := 0;
    while j < |xs|
      invariant 0 <= j <= |xs|
      invariant notInYs == NotAmong(xs[..j], ys)
      invariant notInZs == NotAmong(xs[..j], zs)
    {
      var v := xs[j];
      assert xs[..j + 1][..j] == xs[..j];
      if v !in ys {
        notInYs := notInYs + [v];
      }
      if v !in zs {
        notInZs := notInZs + [v];
      }
      j := j + 1;
    }
    assert xs[..j] == xs;
  }

  /** ansible-sanity.py:124-127: the inner loop over the `vars` declarations for one playbook variable. */
  method MismatchingDecls(v: string, t: TypeTag, vars: seq<Decl>) returns (found: seq<string>)
    ensures found == MismatchesOf(v, t, vars)
  {
    found := [];
    var j := 0;
    while j < |vars|
      invariant 0 <= j <= |vars|
      invariant found == MismatchesOf(v, t, vars[..j])
    {
      assert vars[..j + 1][..j] == vars[..j];
      if vars[j].name == v && t != vars[j].tag {
        found := found + [vars[j].name];
      }
      j := j + 1;
    }
    assert vars[..j] == vars;
  }

  /**
   * The `defaults` entries are `[name, type]` lists, and a string never equals a
   * list, so `var in defaults` never holds: nothing is reported as overwriting a
   * default, and a variable declared only under `defaults/` counts as undeclared.
   */
  lemma {:induction false} DefaultsNeverMatch(keys: seq<string>, varNames: seq<string>, ds: seq<Decl>)
    ensures forall k :: PyStr(k) !in AsPyLists(ds)
    ensures Overwriting(keys, AsPyLists(ds)) == []
    ensures Undeclared(keys, varNames, AsPyLists(ds)) == NotAmong(keys, varNames)
    decreases |keys|
  {
    assert forall i :: 0 <= i < |ds| ==> AsPyLists(ds)[i].PyList?;
    if keys != [] {
      DefaultsNeverMatch(keys[..|keys| - 1], varNames, ds);
    }
  }

  /** What each name-based list holds: exactly the names of its source missing from its target. */
  lemma CategoryMembers(pv: VarTypes, c: Collected, x: string)
    ensures var ri := Classification(pv, c);
      && ri.defaults == []
      && (x in ri.undeclared <==> x in Keys(pv) && x !in Names(c.vars))
      && (x in ri.absent <==> x in Names(c.vars) && x !in Keys(pv))
      && (x in ri.notInReadme <==> x in Names(c.vars) && x !in c.readme)
      && (x in ri.notInRole <==> x in c.readme && x !in Names(c.vars))
      && (x in ri.notInPbook <==> x in c.readme && x !in Keys(pv))
  {
    var names := Names(c.vars);
    DefaultsNeverMatch(Keys(pv), names, c.defaults);
    NotAmongMembers(Keys(pv), names, x);
    NotAmongMembers(names, Keys(pv), x);
    NotAmongMembers(names, c.readme, x);
    NotAmongMembers(c.readme, names, x);
    NotAmongMembers(c.readme, Keys(pv), x);
  }

  /** A name passed by the playbook, declared under `vars/` and documented yields no "missing" issue at all. */
  lemma ConsistentNameIsClean(pv: VarTypes, c: Collected, x: string)
    requires x in Keys(pv) && x in Names(c.vars) && x in c.readme
    ensures var ri := Classification(pv, c);
      x !in ri.undeclared && x !in ri.absent && x !in ri.notInReadme && x !in ri.notInRole && x !in ri.notInPbook
  {
    CategoryMembers(pv, c, x);
  }

  /** The number of `vars` declarations of `name` whose type is not `t`. */
  function DifferingDecls(name: string, t: TypeTag, vars: seq<Decl>): nat {
    |set j | 0 <= j < |vars| && vars[j].name == name && vars[j].tag != t|
  }

  lemma {:induction false} MismatchesOfCount(name: string, t: TypeTag, vars: seq<Decl>)
    ensures |MismatchesOf(name, t, vars)| == DifferingDecls(name, t, vars)
    ensures forall y :: y in MismatchesOf(name, t, vars) ==> y == name
    decreases |vars|
  {
    if vars != [] {
      var n := |vars| - 1;
      var init := vars[..n];
      MismatchesOfCount(name, t, init);
      DifferingDeclsSnoc(name, t, vars);
    }
  }

  lemma DifferingDeclsSnoc(name: string, t: TypeTag, vars: seq<Decl>)
    requires vars != []
    ensures var n := |vars| - 1;
      DifferingDecls(name, t, vars) ==
        DifferingDecls(name, t, vars[..n]) + (if vars[n].name == name && vars[n].tag != t then 1 else 0)
  {
    var n := |vars| - 1;
    var init := vars[..n];
    var before := set j | 0 <= j < |init| && init[j].name == name && init[j].tag != t;
    var now := set j | 0 <= j < |vars| && vars[j].name == name && vars[j].tag != t;
    var last := if vars[n].name == name && vars[n].tag != t then {n} else {};
    forall j ensures j in now <==> j in before + last {
      if 0 <= j < n {
        assert init[j] == vars[j];
      }
    }
    assert now == before + last;
    assert n !in before;
  }

  /**
   * A playbook variable is reported as mismatching once per `vars` declaration of
   * its name with another type, however many declarations share the name; a
   * name the playbook does not pass is never reported.
   */
  lemma {:induction false} MismatchCount(pv: VarTypes, vars: seq<Decl>, x: string)
    requires Distinct(Keys(pv))
    ensures multiset(Mismatches(pv, vars))[x] ==
      if x in Keys(pv) then DifferingDecls(x, Get(pv, x), vars) else 0
    decreases |pv|
  {
    if pv != [] {
      var n := |pv| - 1;
      var init := pv[..n];
      var b := pv[n];
      var m := MismatchesOf(b.key, b.value, vars);
      assert Keys(init) == Keys(pv)[..n];
      assert Keys(pv) == Keys(init) + [b.key];
      MismatchCount(init, vars, x);
      assert Mismatches(pv, vars) == Mismatches(init, vars) + m;
      MismatchesOfCount(b.key, b.value, vars);
      if b.key == x {
        MultisetOfCopies(m, x);
        assert x !in Keys(init);
        GetLast(pv, x);
      } else {
        assert x !in m;
        if x in Keys(init) {
          GetInit(pv, x);
        }
      }
    }
  }

  lemma {:induction false} MultisetOfCopies(m: seq<string>, x: string)
    requires forall y :: y in m ==> y == x
    ensures multiset(m)[x] == |m|
    decreases |m|
  {
    if m != [] {
      assert forall y :: y in m[1..] ==> y in m;
      assert m[0] in m;
      MultisetOfCopies(m[1..], x);
      assert m == [m[0]] + m[1..];
    }
  }
}
