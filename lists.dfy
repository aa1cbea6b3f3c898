/** Order-preserving list operations: the comprehensions and `chain.from_iterable` of the analyzer. */
module Lists {

  predicate Distinct<T(==)>(s: seq<T>) {
    forall i, j :: 0 <= i < j < |s| ==> s[i] != s[j]
  }

  /** A sequence is duplicate-free when its prefix is and its last element is new. */
  lemma DistinctSnoc<T>(s: seq<T>)
    requires s != []
    ensures Distinct(s) <==> Distinct(s[..|s| - 1]) && s[|s| - 1] !in s[..|s| - 1]
  {
    var n := |s| - 1;
    var init := s[..n];
    if Distinct(s) {
      forall i, j | 0 <= i < j < n
        ensures init[i] != init[j]
      {
        assert init[i] == s[i] && init[j] == s[j];
      }
      forall i | 0 <= i < n
        ensures init[i] != s[n]
      {
        assert init[i] == s[i];
      }
    }
    if Distinct(init) && s[n] !in init {
      forall i, j | 0 <= i < j < |s|
        ensures s[i] != s[j]
      {
        assert s[i] == init[i];
        if j < n {
          assert s[j] == init[j];
        }
      }
    }
  }

  /** `[x for x in xs if x not in ys]`, built the way a loop appends: one step per element of `xs`. */
  function NotAmong<T(==)>(xs: seq<T>, ys: seq<T>): seq<T>
    decreases |xs|
  {
    if xs == [] then []
    else NotAmong(xs[..|xs| - 1], ys) + (if xs[|xs| - 1] in ys then [] else [xs[|xs| - 1]])
  }

  /** Every occurrence of an element of `xs` that is not among `ys` is kept, with its repeats, and nothing else. */
  lemma {:induction false} NotAmongCount<T>(xs: seq<T>, ys: seq<T>, x: T)
    ensures multiset(NotAmong(xs, ys))[x] == if x in ys then 0 else multiset(xs)[x]
    decreases |xs|
  {
    if xs != [] {
      var init := xs[..|xs| - 1];
      var last := xs[|xs| - 1];
      NotAmongCount(init, ys, x);
      assert xs == init + [last];
      OccurrencesSnoc(init, last, x);
      if last !in ys {
        OccurrencesSnoc(NotAmong(init, ys), last, x);
      }
    }
  }

  /** Appending `y` adds one occurrence of `y` and none of anything else. */
  lemma OccurrencesSnoc<T>(a: seq<T>, y: T, x: T)
    ensures multiset(a + [y])[x] == multiset(a)[x] + if y == x then 1 else 0
  {
    assert multiset(a + [y]) == multiset(a) + multiset{y};
  }

  lemma NotAmongMembers<T>(xs: seq<T>, ys: seq<T>, x: T)
    ensures x in NotAmong(xs, ys) <==> x in xs && x !in ys
  {
    NotAmongCount(xs, ys, x);
    assert x in NotAmong(xs, ys) <==> multiset(NotAmong(xs, ys))[x] > 0;
    assert x in xs <==> multiset(xs)[x] > 0;
  }

  /** The filter distributes over concatenation, so the elements it keeps stay in their source order. */
  lemma {:induction false} NotAmongConcat<T>(xs: seq<T>, zs: seq<T>, ys: seq<T>)
    ensures NotAmong(xs + zs, ys) == NotAmong(xs, ys) + NotAmong(zs, ys)
    decreases |zs|
  {
    if zs == [] {
      assert xs + zs == xs;
    } else {
      var init := zs[..|zs| - 1];
      NotAmongConcat(xs, init, ys);
      assert (xs + zs)[..|xs + zs| - 1] == xs + init;
    }
  }

  /** `chain.from_iterable`: the lists one after the other. */
  function Flatten<T>(ss: seq<seq<T>>): seq<T>
    decreases |ss|
  {
    if ss == [] then [] else Flatten(ss[..|ss| - 1]) + ss[|ss| - 1]
  }

  /** Every element of every piece is in the flattened sequence. */
  lemma {:induction false} FlattenMember<T>(ss: seq<seq<T>>, i: nat, k: nat)
    requires i < |ss| && k < |ss[i]|
    ensures ss[i][k] in Flatten(ss)
    decreases |ss|
  {
    var n := |ss| - 1;
    assert Flatten(ss) == Flatten(ss[..n]) + ss[n];
    if i < n {
      assert ss[..n][i] == ss[i];
      FlattenMember(ss[..n], i, k);
    }
  }

  /** Every element of the flattened sequence comes from some piece, at some place in it. */
  lemma {:induction false} FlattenIndex<T>(ss: seq<seq<T>>, k: nat) returns (i: nat, p: nat)
    requires k < |Flatten(ss)|
    ensures i < |ss| && p < |ss[i]| && Flatten(ss)[k] == ss[i][p]
    decreases |ss|
  {
    var n := |ss| - 1;
    var init := ss[..n];
    assert Flatten(ss) == Flatten(init) + ss[n];
    if k < |Flatten(init)| {
      i, p := FlattenIndex(init, k);
      assert init[i] == ss[i];
    } else {
      i, p := n, k - |Flatten(init)|;
    }
  }

  /** Flattening distributes over concatenation. */
  lemma {:induction false} FlattenConcat<T>(a: seq<seq<T>>, b: seq<seq<T>>)
    ensures Flatten(a + b) == Flatten(a) + Flatten(b)
    decreases |b|
  {
    if b == [] {
      assert a + b == a;
    } else {
      var init := b[..|b| - 1];
      var last := b[|b| - 1];
      FlattenConcat(a, init);
      assert a + b == (a + init) + [last];
      assert Flatten(a + b) == Flatten(a + init) + last;
      assert Flatten(b) == Flatten(init) + last;
    }
  }

  /** The sum of the lengths of the lists, counted one list at a time. */
  function SumLengths<T>(ss: seq<seq<T>>): nat
    decreases |ss|
  {
    if ss == [] then 0 else |ss[0]| + SumLengths(ss[1..])
  }

  lemma {:induction false} SumLengthsSnoc<T>(ss: seq<seq<T>>, s: seq<T>)
    ensures SumLengths(ss + [s]) == SumLengths(ss) + |s|
    decreases |ss|
  {
    if ss == [] {
      assert [s][1..] == [];
    } else {
      SumLengthsSnoc(ss[1..], s);
      assert (ss + [s])[1..] == ss[1..] + [s];
    }
  }

  /** The sum of the lengths distributes over concatenation. */
  lemma {:induction false} SumLengthsConcat<T>(a: seq<seq<T>>, b: seq<seq<T>>)
    ensures SumLengths(a + b) == SumLengths(a) + SumLengths(b)
    decreases |a|
  {
    if a == [] {
      assert a + b == b;
    } else {
      SumLengthsConcat(a[1..], b);
      assert (a + b)[1..] == a[1..] + b;
    }
  }

  /** Flattening loses and invents nothing: its length is the sum of the lengths. */
  lemma {:induction false} FlattenLength<T>(ss: seq<seq<T>>)
    ensures |Flatten(ss)| == SumLengths(ss)
    decreases |ss|
  {
    if ss != [] {
      var init := ss[..|ss| - 1];
      FlattenLength(init);
      SumLengthsSnoc(init, ss[|ss| - 1]);
      assert init + [ss[|ss| - 1]] == ss;
    }
  }

  /** `[f(x) for x in xs]`, built one element at a time. */
  function Map<T, U>(xs: seq<T>, f: T -> U): (r: seq<U>)
    ensures |r| == |xs|
    decreases |xs|
  {
    if xs == [] then [] else Map(xs[..|xs| - 1], f) + [f(xs[|xs| - 1])]
  }

  lemma {:induction false} MapAt<T, U>(xs: seq<T>, f: T -> U, i: nat)
    requires i < |xs|
    ensures Map(xs, f)[i] == f(xs[i])
    decreases |xs|
  {
    if i < |xs| - 1 {
      MapAt(xs[..|xs| - 1], f, i);
    }
  }

  /** Flattening the images of one more element appends that element's image. */
  lemma FlattenMapSnoc<T, U>(xs: seq<T>, f: T -> seq<U>)
    requires xs != []
    ensures Flatten(Map(xs, f)) == Flatten(Map(xs[..|xs| - 1], f)) + f(xs[|xs| - 1])
  {
    var n := |xs| - 1;
    assert Map(xs, f)[..n] == Map(xs[..n], f);
  }

  /** One more element mapped, as a loop that appends does it. */
  lemma MapStep<T, U>(xs: seq<T>, f: T -> U, i: nat)
    requires i < |xs|
    ensures Map(xs[..i + 1], f) == Map(xs[..i], f) + [f(xs[i])]
  {
    assert xs[..i + 1][..i] == xs[..i];
  }

  /** Whether some element satisfies `P`, as a flag that a loop raises. */
  predicate Any<T>(xs: seq<T>, P: T -> bool)
    decreases |xs|
  {
    xs != [] && (Any(xs[..|xs| - 1], P) || P(xs[|xs| - 1]))
  }

  lemma {:induction false} AnyIff<T>(xs: seq<T>, P: T -> bool)
    ensures Any(xs, P) <==> exists i :: 0 <= i < |xs| && P(xs[i])
    decreases |xs|
  {
    if xs != [] {
      var init := xs[..|xs| - 1];
      AnyIff(init, P);
      assert forall i :: 0 <= i < |init| ==> init[i] == xs[i];
    }
  }

  /** One more element tested, as a loop that raises a flag does it. */
  lemma AnyStep<T>(xs: seq<T>, P: T -> bool, i: nat)
    requires i < |xs|
    ensures Any(xs[..i + 1], P) <==> Any(xs[..i], P) || P(xs[i])
  {
    assert xs[..i + 1][..i] == xs[..i];
  }

  /** The number of elements satisfying `P`, as a counter that a loop increments. */
  function Count<T>(xs: seq<T>, P: T -> bool): nat
    decreases |xs|
  {
    if xs == [] then 0 else Count(xs[..|xs| - 1], P) + (if P(xs[|xs| - 1]) then 1 else 0)
  }

  /** One more element tested, as a loop that counts does it. */
  lemma CountStep<T>(xs: seq<T>, P: T -> bool, i: nat)
    requires i < |xs|
    ensures Count(xs[..i + 1], P) == Count(xs[..i], P) + if P(xs[i]) then 1 else 0
  {
    assert xs[..i + 1][..i] == xs[..i];
  }

  /** A counter is at most the number of elements, and zero exactly when no element satisfies `P`. */
  lemma {:induction false} CountBounds<T>(xs: seq<T>, P: T -> bool)
    ensures Count(xs, P) <= |xs|
    ensures Count(xs, P) == 0 <==> !Any(xs, P)
    decreases |xs|
  {
    if xs != [] {
      CountBounds(xs[..|xs| - 1], P);
    }
  }

  /** Counting with two tests that agree on every element gives the same count. */
  lemma {:induction false} CountSame<T>(xs: seq<T>, P: T -> bool, Q: T -> bool)
    requires forall x :: x in xs ==> (P(x) <==> Q(x))
    ensures Count(xs, P) == Count(xs, Q)
    decreases |xs|
  {
    if xs != [] {
      var init := xs[..|xs| - 1];
      assert forall x :: x in init ==> x in xs;
      CountSame(init, P, Q);
    }
  }

  /**
   * When `P` holds of exactly the elements that `f` changes, some element
   * satisfies `P` exactly when mapping `f` changes the sequence.
   */
  lemma AnyChangedIff<T>(xs: seq<T>, f: T -> T, P: T -> bool)
    requires forall x :: x in xs ==> (P(x) <==> f(x) != x)
    ensures Any(xs, P) <==> Map(xs, f) != xs
  {
    AnyIff(xs, P);
    if Map(xs, f) != xs {
      var i :| 0 <= i < |xs| && Map(xs, f)[i] != xs[i];
      MapAt(xs, f, i);
      assert xs[i] in xs;
    }
    if exists i :: 0 <= i < |xs| && P(xs[i]) {
      var i :| 0 <= i < |xs| && P(xs[i]);
      MapAt(xs, f, i);
      assert xs[i] in xs;
      assert Map(xs, f)[i] != xs[i];
    }
  }

  /** The distinct elements of `s` in the order of their first occurrence. */
  function Dedup<T(==)>(s: seq<T>): seq<T>
    decreases |s|
  {
    if s == [] then []
    else
      var d := Dedup(s[..|s| - 1]);
      if s[|s| - 1] in d then d else d + [s[|s| - 1]]
  }

  lemma {:induction false} DedupSpec<T>(s: seq<T>)
    ensures Distinct(Dedup(s))
    ensures forall x :: x in Dedup(s) <==> x in s
    decreases |s|
  {
    if s != [] {
      var init := s[..|s| - 1];
      DedupSpec(init);
      assert s == init + [s[|s| - 1]];
    }
  }

  /** A duplicate-free sequence is its own deduplication. */
  lemma {:induction false} DedupDistinct<T>(s: seq<T>)
    requires Distinct(s)
    ensures Dedup(s) == s
    decreases |s|
  {
    if s != [] {
      var init := s[..|s| - 1];
      DistinctSnoc(s);
      DedupDistinct(init);
      assert s == init + [s[|s| - 1]];
    }
  }
}
