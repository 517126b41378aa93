// A Python dict as the parser uses it: an ordered collection of entries in
// which assigning to a key that is already present replaces the value in
// place, and assigning to a new key appends it at the end.

module OrderedDict {

  /** The entries of a dict in insertion order. */
  type Dict<K, V> = seq<(K, V)>

  predicate Distinct<T(==)>(xs: seq<T>) {
    forall i, j :: 0 <= i < j < |xs| ==> xs[i] != xs[j]
  }

  lemma DistinctCons<T>(x: T, xs: seq<T>)
    requires x !in xs && Distinct(xs)
    ensures Distinct([x] + xs)
  {
    assert forall j :: 0 < j < |xs| + 1 ==> ([x] + xs)[j] == xs[j - 1];
  }

  /** The keys, in iteration order (`list(d)`). */
  function Keys<K, V>(d: Dict<K, V>): seq<K> {
    seq(|d|, i requires 0 <= i < |d| => d[i].0)
  }

  lemma KeysCons<K, V>(e: (K, V), d: Dict<K, V>)
    ensures Keys([e] + d) == [e.0] + Keys(d)
  {
  }

  /** `d[k]`. */
  function Get<K(==), V>(d: Dict<K, V>, k: K): V
    requires k in Keys(d)
    decreases |d|
  {
    if d[0].0 == k then d[0].1
    else
      assert Keys(d[1..]) == Keys(d)[1..];
      Get(d[1..], k)
  }

  /** `d[k] = v`: a present key keeps its position and takes the new value, a
      new key goes last, and every other key keeps its value. */
  function Put<K(==), V>(d: Dict<K, V>, k: K, v: V): (r: Dict<K, V>)
    ensures Keys(r) == if k in Keys(d) then Keys(d) else Keys(d) + [k]
    ensures k in Keys(r) && Get(r, k) == v
    ensures forall k' :: k' in Keys(d) && k' != k ==> Get(r, k') == Get(d, k')
    decreases |d|
  {
    if d == [] then [(k, v)]
    else if d[0].0 == k then
      assert d == [d[0]] + d[1..];
      KeysCons(d[0], d[1..]);
      KeysCons((k, v), d[1..]);
      [(k, v)] + d[1..]
    else
      var rest := Put(d[1..], k, v);
      assert d == [d[0]] + d[1..];
      KeysCons(d[0], d[1..]);
      KeysCons(d[0], rest);
      [d[0]] + rest
  }

  /** Assigning every pair of `ps` in turn to an empty dict; a key written
      twice keeps its first position and its last value. */
  function PutAll<K(==), V>(ps: seq<(K, V)>): Dict<K, V>
    decreases |ps|
  {
    if ps == [] then []
    else
      var n := |ps| - 1;
      Put(PutAll(ps[..n]), ps[n].0, ps[n].1)
  }

  /** Assigning every pair of `ps` in turn to an empty dict, skipping a key
      that is already present: the first value written for a key stays. */
  function PutFirstAll<K(==), V>(ps: seq<(K, V)>): Dict<K, V>
    decreases |ps|
  {
    if ps == [] then []
    else
      var n := |ps| - 1;
      var d := PutFirstAll(ps[..n]);
      if ps[n].0 in Keys(d) then d else Put(d, ps[n].0, ps[n].1)
  }

  /** The elements of `xs` in order of first appearance, each once. */
  function Unique<T(==)>(xs: seq<T>): (r: seq<T>)
    ensures Distinct(r)
    ensures forall i :: 0 <= i < |r| ==> r[i] in xs
    ensures forall i :: 0 <= i < |xs| ==> xs[i] in r
    decreases |xs|
  {
    if xs == [] then []
    else
      var n := |xs| - 1;
      var u := Unique(xs[..n]);
      if xs[n] in u then u else u + [xs[n]]
  }

  /** Iteration order after a run of assignments is the order in which the
      keys were first assigned. */
  lemma {:induction false} PutAllKeys<K, V>(ps: seq<(K, V)>)
    ensures Keys(PutAll(ps)) == Unique(Keys(ps))
    decreases |ps|
  {
    if ps != [] {
      var n := |ps| - 1;
      PutAllKeys(ps[..n]);
      assert Keys(ps[..n]) == Keys(ps)[..n];
    }
  }

  /** The same holds when later assignments to a present key are skipped. */
  lemma {:induction false} PutFirstAllKeys<K, V>(ps: seq<(K, V)>)
    ensures Keys(PutFirstAll(ps)) == Unique(Keys(ps))
    decreases |ps|
  {
    if ps != [] {
      var n := |ps| - 1;
      PutFirstAllKeys(ps[..n]);
      assert Keys(ps[..n]) == Keys(ps)[..n];
    }
  }

  /** Last write wins: the value of a key is the one of its last assignment. */
  lemma {:induction false} PutAllLastWins<K, V>(ps: seq<(K, V)>, i: nat)
    requires i < |ps|
    requires forall j :: i < j < |ps| ==> ps[j].0 != ps[i].0
    ensures ps[i].0 in Keys(PutAll(ps)) && Get(PutAll(ps), ps[i].0) == ps[i].1
    decreases |ps|
  {
    var n := |ps| - 1;
    if i < n {
      var prefix := ps[..n];
      assert forall j :: i < j < n ==> prefix[j] == ps[j];
      PutAllLastWins(prefix, i);
      assert PutAll(ps) == Put(PutAll(prefix), ps[n].0, ps[n].1);
    }
  }

  /** First write wins when present keys are skipped. */
  lemma {:induction false} PutFirstAllFirstWins<K, V>(ps: seq<(K, V)>, i: nat)
    requires i < |ps|
    requires forall j :: 0 <= j < i ==> ps[j].0 != ps[i].0
    ensures ps[i].0 in Keys(PutFirstAll(ps)) && Get(PutFirstAll(ps), ps[i].0) == ps[i].1
    decreases |ps|
  {
    var n := |ps| - 1;
    var prefix := ps[..n];
    var d := PutFirstAll(prefix);
    assert PutFirstAll(ps) == if ps[n].0 in Keys(d) then d else Put(d, ps[n].0, ps[n].1);
    if i < n {
      assert forall j :: 0 <= j < i ==> prefix[j] == ps[j];
      PutFirstAllFirstWins(prefix, i);
    } else {
      PutFirstAllKeys(prefix);
      var ks := Keys(prefix);
      assert forall j :: 0 <= j < |ks| ==> ks[j] != ps[i].0;
      assert ps[i].0 !in Unique(ks);
    }
  }

  /** Assigning a key twice leaves what assigning it once with the second
      value leaves. */
  lemma {:induction false} PutTwice<K, V>(d: Dict<K, V>, k: K, v: V, w: V)
    ensures Put(Put(d, k, v), k, w) == Put(d, k, w)
    decreases |d|
  {
    if d != [] && d[0].0 != k {
      PutTwice(d[1..], k, v, w);
    }
  }
  /** Every value left by a run of assignments was assigned to its key by one
      of them. */
  lemma {:induction false} PutAllValueAssigned<K, V>(ps: seq<(K, V)>, k: K)
    requires k in Keys(PutAll(ps))
    ensures exists i :: 0 <= i < |ps| && ps[i] == (k, Get(PutAll(ps), k))
    decreases |ps|
  {
    if ps != [] {
      var n := |ps| - 1;
      var prefix := ps[..n];
      assert PutAll(ps) == Put(PutAll(prefix), ps[n].0, ps[n].1);
      if ps[n].0 != k {
        PutAllValueAssigned(prefix, k);
        var i :| 0 <= i < |prefix| && prefix[i] == (k, Get(PutAll(prefix), k));
        assert ps[i] == prefix[i];
      }
    }
  }

  /** The same holds when assignments to a present key are skipped. */
  lemma {:induction false} PutFirstAllValueAssigned<K, V>(ps: seq<(K, V)>, k: K)
    requires k in Keys(PutFirstAll(ps))
    ensures exists i :: 0 <= i < |ps| && ps[i] == (k, Get(PutFirstAll(ps), k))
    decreases |ps|
  {
    if ps != [] {
      var n := |ps| - 1;
      var prefix := ps[..n];
      var d := PutFirstAll(prefix);
      assert PutFirstAll(ps) == if ps[n].0 in Keys(d) then d else Put(d, ps[n].0, ps[n].1);
      if ps[n].0 in Keys(d) || ps[n].0 != k {
        PutFirstAllValueAssigned(prefix, k);
        var i :| 0 <= i < |prefix| && prefix[i] == (k, Get(d, k));
        assert ps[i] == prefix[i];
      }
    }
  }

  /** One more assignment extends the run of assignments by one entry. */
  lemma PutAllStep<K, V>(ps: seq<(K, V)>, n: nat)
    requires n < |ps|
    ensures PutAll(ps[..n + 1]) == Put(PutAll(ps[..n]), ps[n].0, ps[n].1)
  {
    assert ps[..n + 1][..n] == ps[..n];
  }

  /** The same step when an assignment to a present key is skipped. */
  lemma PutFirstAllStep<K, V>(ps: seq<(K, V)>, n: nat)
    requires n < |ps|
    ensures var d := PutFirstAll(ps[..n]);
      PutFirstAll(ps[..n + 1]) == if ps[n].0 in Keys(d) then d else Put(d, ps[n].0, ps[n].1)
  {
    assert ps[..n + 1][..n] == ps[..n];
  }
}
