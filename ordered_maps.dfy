/** Python's insertion-ordered `dict` with string keys, as a sequence of bindings. */
module OrderedMaps {
  import opened Lists

  datatype Binding<V> = Binding(key: string, value: V)

  type Mapping<V> = seq<Binding<V>>

  /** The keys in iteration order: what `for k in d` visits. */
  function Keys<V>(m: Mapping<V>): (ks: seq<string>)
    ensures |ks| == |m|
    ensures forall i :: 0 <= i < |m| ==> ks[i] == m[i].key
  {
    seq(|m|, i requires 0 <= i < |m| => m[i].key)
  }

  /** Where `k` first occurs in `ks`. */
  function Position(ks: seq<string>, k: string): (i: nat)
    requires k in ks
    ensures i < |ks| && ks[i] == k && k !in ks[..i]
    decreases |ks|
  {
    if ks[0] == k then 0
    else
      assert k in ks[1..];
      var j := Position(ks[1..], k);
      assert ks[..j + 1] == [ks[0]] + ks[1..][..j];
      j + 1
  }

  /** The first occurrence is the only index with nothing equal to `k` before it. */
  lemma PositionUnique(ks: seq<string>, k: string, i: nat)
    requires i < |ks| && ks[i] == k && k !in ks[..i]
    ensures Position(ks, k) == i
  {
    assert forall j :: 0 <= j < i ==> ks[..i][j] == ks[j];
  }

  /** `d[k]` for a key that is present: the value bound to its first occurrence. */
  function Get<V>(m: Mapping<V>, k: string): V
    requires k in Keys(m)
  {
    m[Position(Keys(m), k)].value
  }

  /**
   * `d[k] = v`: a key already present keeps its place and takes the new value
   * (every binding of it is rebound, and a dictionary has one); a new key goes last.
   */
  function Put<V>(m: Mapping<V>, k: string, v: V): (r: Mapping<V>)
    ensures Keys(r) == if k in Keys(m) then Keys(m) else Keys(m) + [k]
  {
    if k in Keys(m) then
      var r := seq(|m|, i requires 0 <= i < |m| => if m[i].key == k then Binding(k, v) else m[i]);
      assert Keys(r) == Keys(m);
      r
    else
      assert Keys(m + [Binding(k, v)]) == Keys(m) + [k];
      m + [Binding(k, v)]
  }

  /** After `d[k] = v`, `d[k]` is `v`, and every other key keeps its value. */
  lemma PutGet<V>(m: Mapping<V>, k: string, v: V, k': string)
    requires k' == k || k' in Keys(m)
    ensures k' in Keys(Put(m, k, v))
    ensures Get(Put(m, k, v), k') == if k' == k then v else Get(m, k')
  {
    var r := Put(m, k, v);
    if k !in Keys(m) {
      if k' == k {
        assert Keys(r)[..|m|] == Keys(m);
        PositionUnique(Keys(r), k, |m|);
      } else {
        var p := Position(Keys(m), k');
        assert Keys(r)[..p] == Keys(m)[..p];
        PositionUnique(Keys(r), k', p);
      }
    }
  }

  /** The binding of the last key, when keys are distinct. */
  lemma GetLast<V>(m: Mapping<V>, k: string)
    requires m != [] && Distinct(Keys(m)) && m[|m| - 1].key == k
    ensures k in Keys(m) && Get(m, k) == m[|m| - 1].value
  {
    var n := |m| - 1;
    assert Keys(m)[n] == k;
    assert forall j :: 0 <= j < n ==> Keys(m)[..n][j] == Keys(m)[j];
    PositionUnique(Keys(m), k, n);
  }

  /** Appending a binding leaves the keys already present bound as before. */
  lemma GetInit<V>(m: Mapping<V>, k: string)
    requires m != [] && k in Keys(m[..|m| - 1])
    ensures k in Keys(m) && Get(m, k) == Get(m[..|m| - 1], k)
  {
    var init := m[..|m| - 1];
    var p := Position(Keys(init), k);
    assert Keys(m)[..p] == Keys(init)[..p];
    PositionUnique(Keys(m), k, p);
  }

  /** Putting `k` into a mapping whose keys are those of `ks` gives the keys of `ks + [k]`, and in that order when they are distinct. */
  lemma PutKeys<V>(m: Mapping<V>, k: string, v: V, ks: seq<string>)
    requires forall r :: r in Keys(m) <==> r in ks
    requires Distinct(ks) ==> Keys(m) == ks
    ensures forall r :: r in Keys(Put(m, k, v)) <==> r in ks + [k]
    ensures Distinct(ks + [k]) ==> Keys(Put(m, k, v)) == ks + [k]
  {
    DistinctSnoc(ks + [k]);
    assert (ks + [k])[..|ks|] == ks;
  }

  /** `for k, v in bs: d[k] = v`, starting from an empty dictionary: later bindings of a key overwrite earlier ones. */
  function DictFrom<V>(bs: seq<Binding<V>>): Mapping<V>
    decreases |bs|
  {
    if bs == [] then []
    else
      var b := bs[|bs| - 1];
      Put(DictFrom(bs[..|bs| - 1]), b.key, b.value)
  }

  /** The keys are those assigned, without repeats, each where it was first assigned. */
  lemma {:induction false} DictFromKeys<V>(bs: seq<Binding<V>>)
    ensures Keys(DictFrom(bs)) == Dedup(Keys(bs))
    decreases |bs|
  {
    if bs != [] {
      var init := bs[..|bs| - 1];
      DictFromKeys(init);
      assert Keys(bs)[..|bs| - 1] == Keys(init);
    }
  }

  /** Every key assigned is a key of the result. */
  lemma DictFromHasKey<V>(bs: seq<Binding<V>>, i: nat)
    requires i < |bs|
    ensures bs[i].key in Keys(DictFrom(bs))
  {
    DictFromKeys(bs);
    DedupSpec(Keys(bs));
    assert Keys(bs)[i] == bs[i].key;
  }

  /** A key keeps the value of its last assignment. */
  lemma {:induction false} DictFromGetLast<V>(bs: seq<Binding<V>>, i: nat)
    requires i < |bs|
    requires forall j :: i < j < |bs| ==> bs[j].key != bs[i].key
    ensures bs[i].key in Keys(DictFrom(bs))
    ensures Get(DictFrom(bs), bs[i].key) == bs[i].value
    decreases |bs|
  {
    var n := |bs| - 1;
    var init := bs[..n];
    var m := DictFrom(init);
    var b := bs[n];
    assert DictFrom(bs) == Put(m, b.key, b.value);
    var k := bs[i].key;
    if i < n {
      assert init[i].key == k;
      assert forall j :: i < j < n ==> init[j].key != k by {
        assert forall j :: i < j < n ==> init[j] == bs[j];
      }
      DictFromGetLast(init, i);
    }
    PutGet(m, b.key, b.value, k);
  }

  /** `for k in ks: d[k] = f(k)`, starting from an empty dictionary. */
  function PutAll<V>(ks: seq<string>, f: string -> V): Mapping<V>
    decreases |ks|
  {
    if ks == [] then [] else Put(PutAll(ks[..|ks| - 1], f), ks[|ks| - 1], f(ks[|ks| - 1]))
  }

  /** The keys are those of `ks` without repeats, each where it first occurs. */
  lemma {:induction false} PutAllKeys<V>(ks: seq<string>, f: string -> V)
    ensures Keys(PutAll(ks, f)) == Dedup(ks)
    decreases |ks|
  {
    if ks != [] {
      PutAllKeys(ks[..|ks| - 1], f);
    }
  }

  /** Each key is bound to `f` of itself. */
  lemma {:induction false} PutAllGet<V>(ks: seq<string>, f: string -> V, k: string)
    requires k in ks
    ensures k in Keys(PutAll(ks, f))
    ensures Get(PutAll(ks, f), k) == f(k)
    decreases |ks|
  {
    var init := ks[..|ks| - 1];
    var last := ks[|ks| - 1];
    assert ks == init + [last];
    if k != last {
      PutAllGet(init, f, k);
    }
    PutGet(PutAll(init, f), last, f(last), k);
  }
}
