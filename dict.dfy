/**
 * Python dictionaries with string keys, as the pipeline uses them: a sequence of
 * key/value pairs in insertion order. Assigning to a key that is already present
 * replaces its value and keeps its original position; a new key goes last.
 */
module Dict {
  import opened Wrappers

  type Dict<V> = seq<(string, V)>

  function Keys<V>(d: Dict<V>): (ks: seq<string>)
    ensures |ks| == |d|
    ensures forall i :: 0 <= i < |d| ==> ks[i] == d[i].0
  {
    seq(|d|, i requires 0 <= i < |d| => d[i].0)
  }

  predicate DistinctKeys<V>(d: Dict<V>) {
    forall i, j :: 0 <= i < j < |d| ==> d[i].0 != d[j].0
  }

  /** Position of key `k`, or |d| when `k` is absent. */
  function KeyIndex<V>(d: Dict<V>, k: string): (n: nat)
    ensures n <= |d|
    ensures forall i :: 0 <= i < n ==> d[i].0 != k
    ensures n < |d| ==> d[n].0 == k
  {
    if |d| == 0 then 0
    else if d[0].0 == k then 0
    else 1 + KeyIndex(d[1..], k)
  }

  /** The keys of a prefix are keys of the whole. */
  lemma KeysPrefix<V>(d: Dict<V>, n: nat)
    requires n <= |d|
    ensures Keys(d[..n]) == Keys(d)[..n]
    ensures forall k :: k in Keys(d[..n]) ==> k in Keys(d)
  {
    assert Keys(d[..n]) == Keys(d)[..n];
  }

  /** A key found in a prefix is found at the same place in the whole. */
  lemma {:induction false} KeyIndexPrefix<V>(d: Dict<V>, n: nat, k: string)
    requires n <= |d| && KeyIndex(d[..n], k) < n
    ensures KeyIndex(d, k) == KeyIndex(d[..n], k)
  {
    if d[0].0 != k {
      var tail := d[1..][..n - 1];
      assert d[..n][1..] == tail;
      assert KeyIndex(d[..n], k) == 1 + KeyIndex(tail, k);
      KeyIndexPrefix(d[1..], n - 1, k);
    }
  }

  /** `d.get(k)` */
  function Get<V>(d: Dict<V>, k: string): Option<V> {
    var n := KeyIndex(d, k);
    if n == |d| then None else Some(d[n].1)
  }

  /** A key has a value exactly when it is one of the keys. */
  lemma GetSomeIffKey<V>(d: Dict<V>, k: string)
    ensures Get(d, k).Some? <==> k in Keys(d)
  {
    var n := KeyIndex(d, k);
    if n < |d| {
      assert Keys(d)[n] == k;
    }
  }

  /** `d[k] = v` */
  function Put<V>(d: Dict<V>, k: string, v: V): (r: Dict<V>)
    ensures k in Keys(d) ==> Keys(r) == Keys(d)
    ensures k !in Keys(d) ==> Keys(r) == Keys(d) + [k]
    ensures DistinctKeys(d) ==> DistinctKeys(r)
  {
    var n := KeyIndex(d, k);
    if n == |d| then d + [(k, v)] else d[n := (k, v)]
  }

  /** Assigning to an absent key appends the pair. */
  lemma PutAbsent<V>(d: Dict<V>, k: string, v: V)
    requires forall i :: 0 <= i < |d| ==> d[i].0 != k
    ensures Put(d, k, v) == d + [(k, v)]
  {
    assert k !in Keys(d);
  }

  /** The first position holding `k` is its index. */
  lemma {:induction false} KeyIndexAt<V>(d: Dict<V>, k: string, m: nat)
    requires m <= |d| && (m < |d| ==> d[m].0 == k)
    requires forall i :: 0 <= i < m ==> d[i].0 != k
    ensures KeyIndex(d, k) == m
  {
    if m > 0 {
      assert d[0].0 != k;
      KeyIndexAt(d[1..], k, m - 1);
    }
  }

  /** After `d[k] = v`, `k` holds `v` and every other key holds what it held. */
  lemma PutGet<V>(d: Dict<V>, k: string, v: V, k': string)
    requires DistinctKeys(d)
    ensures Get(Put(d, k, v), k') == if k' == k then Some(v) else Get(d, k')
  {
    var r := Put(d, k, v);
    var n := KeyIndex(d, k);
    var m := KeyIndex(d, k');
    assert n < |r| && r[n] == (k, v);
    assert forall i :: 0 <= i < n ==> r[i] == d[i];
    if k' == k {
      KeyIndexAt(r, k, n);
    } else if n == |d| {
      assert forall i :: 0 <= i < m ==> r[i].0 != k';
      KeyIndexAt(r, k', if m < |d| then m else |r|);
    } else {
      assert forall i :: 0 <= i < |d| && i != n ==> r[i] == d[i];
      assert r[n].0 != k';
      assert forall i :: 0 <= i < m ==> r[i].0 != k';
      KeyIndexAt(r, k', m);
    }
  }

  /**
   * `for k, v in pairs: if k: d[k] = v`, starting from an empty dictionary: pairs
   * with an empty key are skipped (Python treats "" as false).
   */
  function Assign<V>(pairs: seq<(string, V)>): Dict<V> {
    if pairs == [] then []
    else
      var d := Assign(pairs[..|pairs| - 1]);
      var (k, v) := pairs[|pairs| - 1];
      if k == "" then d else Put(d, k, v)
  }

  /** With non-empty, distinct keys every pair is kept, in order. */
  lemma {:induction false} AssignDistinct<V>(pairs: seq<(string, V)>)
    requires forall i :: 0 <= i < |pairs| ==> pairs[i].0 != ""
    requires DistinctKeys(pairs)
    ensures Assign(pairs) == pairs
  {
    if pairs != [] {
      var n := |pairs| - 1;
      var init := pairs[..n];
      AssignDistinct(init);
      PutAbsent(init, pairs[n].0, pairs[n].1);
      assert init + [pairs[n]] == pairs;
    }
  }

  /** The dictionary built by `Assign` has distinct, non-empty keys. */
  lemma {:induction false} AssignKeys<V>(pairs: seq<(string, V)>)
    ensures DistinctKeys(Assign(pairs))
    ensures forall i :: 0 <= i < |Assign(pairs)| ==> Assign(pairs)[i].0 != ""
  {
    if pairs != [] {
      var d := Assign(pairs[..|pairs| - 1]);
      AssignKeys(pairs[..|pairs| - 1]);
      var (k, v) := pairs[|pairs| - 1];
      if k != "" {
        var r := Put(d, k, v);
        assert forall i :: 0 <= i < |r| ==> r[i].0 == Keys(r)[i];
      }
    }
  }
}
