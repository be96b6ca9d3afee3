/**
 * Grouping values by a string key in a dictionary of lists, the way the transformers
 * collect rules per section or per output file:
 * `if key not in groups: groups[key] = []; groups[key].append(v)` (or a
 * `defaultdict(list)`). Groups appear in the order their keys first occur.
 */
module Grouping {
  import opened Wrappers
  import opened Dict

  /** The list held under `key`, or the empty list when there is none. */
  function Existing<V>(groups: Dict<seq<V>>, key: string): seq<V> {
    match Get(groups, key)
    case Some(vs) => vs
    case None => []
  }

  /** `groups[key].append(v)`, creating the list first when `key` is new. */
  function Append<V>(groups: Dict<seq<V>>, key: string, v: V): Dict<seq<V>> {
    Put(groups, key, Existing(groups, key) + [v])
  }

  /** The grouping built by appending every item, in order. */
  function Group<V>(items: seq<(string, V)>): Dict<seq<V>>
    decreases |items|
  {
    if items == [] then []
    else
      var n := |items| - 1;
      Append(Group(items[..n]), items[n].0, items[n].1)
  }

  /** Grouping one more item appends it to its key's group. */
  lemma GroupStep<V>(items: seq<(string, V)>, i: nat)
    requires i < |items|
    ensures Group(items[..i + 1]) == Append(Group(items[..i]), items[i].0, items[i].1)
  {
    assert items[..i + 1][..i] == items[..i];
  }

  /** The values of the items with key `key`, in order. */
  function Filter<V>(items: seq<(string, V)>, key: string): seq<V>
    decreases |items|
  {
    if items == [] then []
    else
      var n := |items| - 1;
      Filter(items[..n], key) + (if items[n].0 == key then [items[n].1] else [])
  }

  /** The keys in the order of their first occurrence, each once. */
  function Dedup(ks: seq<string>): seq<string>
    decreases |ks|
  {
    if ks == [] then []
    else
      var n := |ks| - 1;
      var d := Dedup(ks[..n]);
      if ks[n] in d then d else d + [ks[n]]
  }

  /** `Dedup` lists every key once, and nothing else. */
  lemma {:induction false} DedupSpec(ks: seq<string>)
    decreases |ks|
    ensures forall i, j :: 0 <= i < j < |Dedup(ks)| ==> Dedup(ks)[i] != Dedup(ks)[j]
    ensures forall k :: k in Dedup(ks) <==> k in ks
  {
    if ks != [] {
      var n := |ks| - 1;
      DedupSpec(ks[..n]);
      assert ks == ks[..n] + [ks[n]];
    }
  }

  /** Appending to a grouping with distinct keys keeps them distinct and adds `key` last if new. */
  lemma AppendKeys<V>(groups: Dict<seq<V>>, key: string, v: V)
    requires DistinctKeys(groups)
    ensures DistinctKeys(Append(groups, key, v))
    ensures Keys(Append(groups, key, v)) == if key in Keys(groups) then Keys(groups) else Keys(groups) + [key]
  {
  }

  /**
   * The keys of a grouping are the distinct keys of the items in the order they first
   * occur.
   */
  lemma {:induction false} GroupKeys<V>(items: seq<(string, V)>)
    decreases |items|
    ensures DistinctKeys(Group(items))
    ensures Keys(Group(items)) == Dedup(Keys(items))
  {
    if items != [] {
      var n := |items| - 1;
      GroupKeys(items[..n]);
      AppendKeys(Group(items[..n]), items[n].0, items[n].1);
      assert Keys(items)[..n] == Keys(items[..n]);
    }
  }

  /**
   * Each key holds exactly the values of its items, in input order, and a key without
   * items is absent.
   */
  lemma {:induction false} GroupGet<V>(items: seq<(string, V)>, key: string)
    decreases |items|
    ensures Get(Group(items), key) == if Filter(items, key) == [] then None else Some(Filter(items, key))
  {
    if items != [] {
      var n := |items| - 1;
      var (k, v) := items[n];
      var g := Group(items[..n]);
      GroupGet(items[..n], key);
      GroupKeys(items[..n]);
      PutGet(g, k, Existing(g, k) + [v], key);
      if key == k {
        GroupGet(items[..n], k);
        assert Existing(g, k) == Filter(items[..n], k);
        assert Filter(items, key) == Filter(items[..n], k) + [v];
      } else {
        assert Filter(items, key) == Filter(items[..n], key) + [];
        assert Filter(items[..n], key) + [] == Filter(items[..n], key);
      }
    }
  }

  /** Every value lands in the group of its own key. */
  lemma {:induction false} FilterHas<V>(items: seq<(string, V)>, i: nat)
    requires i < |items|
    decreases |items|
    ensures items[i].1 in Filter(items, items[i].0)
  {
    var n := |items| - 1;
    if i < n {
      FilterHas(items[..n], i);
    }
  }

  /** The number of values over all groups. */
  function Total<V>(groups: Dict<seq<V>>): nat
    decreases |groups|
  {
    if groups == [] then 0
    else Total(groups[..|groups| - 1]) + |groups[|groups| - 1].1|
  }

  /** Replacing one group changes the total by the change in its size. */
  lemma {:induction false} TotalUpdate<V>(groups: Dict<seq<V>>, n: nat, key: string, vs: seq<V>)
    requires n < |groups|
    decreases |groups|
    ensures Total(groups[n := (key, vs)]) + |groups[n].1| == Total(groups) + |vs|
  {
    var m := |groups| - 1;
    if n < m {
      TotalUpdate(groups[..m], n, key, vs);
      assert groups[n := (key, vs)][..m] == groups[..m][n := (key, vs)];
    } else {
      assert groups[n := (key, vs)][..m] == groups[..m];
    }
  }

  /** Appending a value adds one to the total. */
  lemma TotalAppend<V>(groups: Dict<seq<V>>, key: string, v: V)
    ensures Total(Append(groups, key, v)) == Total(groups) + 1
  {
    var m := KeyIndex(groups, key);
    if m == |groups| {
      var r := groups + [(key, [v])];
      assert Existing(groups, key) == [];
      assert Existing(groups, key) + [v] == [v];
      assert Append(groups, key, v) == r;
      assert r[..|groups|] == groups;
    } else {
      assert Existing(groups, key) == groups[m].1;
      TotalUpdate(groups, m, key, groups[m].1 + [v]);
    }
  }

  /** No value is lost or duplicated: the groups hold as many values as there were items. */
  lemma {:induction false} GroupTotal<V>(items: seq<(string, V)>)
    decreases |items|
    ensures Total(Group(items)) == |items|
  {
    if items != [] {
      var n := |items| - 1;
      GroupTotal(items[..n]);
      TotalAppend(Group(items[..n]), items[n].0, items[n].1);
    }
  }

  /** `groups[key].append(v)` as the transformers write it. */
  method AddToGroup<V>(groups: Dict<seq<V>>, key: string, v: V) returns (groups': Dict<seq<V>>)
    ensures groups' == Append(groups, key, v)
  {
    var n := KeyIndex(groups, key);
    groups' := groups;
    if n == |groups| {
      groups' := groups' + [(key, [])];
    }
    groups' := groups'[n := (key, groups'[n].1 + [v])];
  }
}
