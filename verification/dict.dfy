/** An insertion-ordered Python dict with string keys, as a sequence of
    entries: lookup finds the first entry with the key, assignment
    overwrites that entry in place or appends a new one at the end. */
module Dict {
  import opened Wrappers

  type Dict<V> = seq<(string, V)>

  predicate HasKey<V>(d: Dict<V>, k: string) {
    exists i :: 0 <= i < |d| && d[i].0 == k
  }

  /** `d.get(k)`. */
  function Get<V>(d: Dict<V>, k: string): (r: Option<V>)
    ensures r.Some? <==> HasKey(d, k)
    ensures r.Some? ==> exists i :: 0 <= i < |d| && d[i] == (k, r.value)
  {
    if d == [] then None
    else if d[0].0 == k then Some(d[0].1)
    else
      var r := Get(d[1..], k);
      assert HasKey(d, k) ==> HasKey(d[1..], k) by {
        if HasKey(d, k) {
          var i :| 0 <= i < |d| && d[i].0 == k;
          assert d[1..][i - 1] == d[i];
        }
      }
      assert r.Some? ==> exists i :: 0 <= i < |d| && d[i] == (k, r.value) by {
        if r.Some? {
          var i :| 0 <= i < |d[1..]| && d[1..][i] == (k, r.value);
          assert d[i + 1] == d[1..][i];
        }
      }
      r
  }

  /** `d[k] = v`. */
  function Put<V>(d: Dict<V>, k: string, v: V): (r: Dict<V>)
    ensures |r| == if HasKey(d, k) then |d| else |d| + 1
    ensures forall i :: 0 <= i < |d| ==> r[i].0 == d[i].0
    ensures !HasKey(d, k) ==> r == d + [(k, v)]
  {
    if d == [] then [(k, v)]
    else if d[0].0 == k then [(k, v)] + d[1..]
    else
      assert HasKey(d[1..], k) <==> HasKey(d, k) by {
        if HasKey(d, k) {
          var i :| 0 <= i < |d| && d[i].0 == k;
          assert d[1..][i - 1] == d[i];
        }
        if HasKey(d[1..], k) {
          var i :| 0 <= i < |d[1..]| && d[1..][i].0 == k;
          assert d[i + 1] == d[1..][i];
        }
      }
      [d[0]] + Put(d[1..], k, v)
  }

  /** Reading back an assignment gives the assigned value; every other key
      reads as before. */
  lemma {:induction false} GetPut<V>(d: Dict<V>, k: string, v: V, k': string)
    ensures Get(Put(d, k, v), k) == Some(v)
    ensures k' != k ==> Get(Put(d, k, v), k') == Get(d, k')
    decreases |d|
  {
    if d != [] && d[0].0 != k {
      GetPut(d[1..], k, v, k');
      var r := Put(d, k, v);
      assert r[1..] == Put(d[1..], k, v);
    }
  }

  /** GetPut for every other key at once. */
  lemma GetPutOthers<V>(d: Dict<V>, k: string, v: V)
    ensures Get(Put(d, k, v), k) == Some(v)
    ensures forall k' :: k' != k ==> Get(Put(d, k, v), k') == Get(d, k')
  {
    GetPut(d, k, v, k);
    forall k' | k' != k ensures Get(Put(d, k, v), k') == Get(d, k') {
      GetPut(d, k, v, k');
    }
  }

  /** Assignment adds exactly its key. */
  lemma PutKeys<V>(d: Dict<V>, k: string, v: V)
    ensures forall k' :: HasKey(Put(d, k, v), k') <==> HasKey(d, k') || k' == k
  {
    GetPutOthers(d, k, v);
  }

  /** Lookup in a concatenation tries the left part first. */
  lemma {:induction false} GetConcat<V>(x: Dict<V>, y: Dict<V>, k: string)
    ensures Get(x + y, k) == if HasKey(x, k) then Get(x, k) else Get(y, k)
    decreases |x|
  {
    if x == [] {
      assert x + y == y;
    } else {
      assert (x + y)[1..] == x[1..] + y;
      GetConcat(x[1..], y, k);
    }
  }

  predicate DistinctKeys<V>(d: Dict<V>) {
    forall i, j :: 0 <= i < j < |d| ==> d[i].0 != d[j].0
  }

  /** Assignment keeps the keys distinct. */
  lemma PutDistinct<V>(d: Dict<V>, k: string, v: V)
    requires DistinctKeys(d)
    ensures DistinctKeys(Put(d, k, v))
  {
    var r := Put(d, k, v);
    if HasKey(d, k) {
      assert forall i, j :: 0 <= i < j < |r| ==> r[i].0 == d[i].0 && r[j].0 == d[j].0;
    } else {
      assert forall i :: 0 <= i < |d| ==> d[i].0 != k;
      assert forall i :: 0 <= i < |d| ==> r[i] == d[i];
      assert r[|d|].0 == k;
    }
  }

  /** With distinct keys, lookup finds each entry by its own key. */
  lemma DistinctGet<V>(d: Dict<V>, j: nat)
    requires DistinctKeys(d) && j < |d|
    ensures Get(d, d[j].0) == Some(d[j].1)
    decreases j
  {
    if j > 0 {
      assert d[0].0 != d[j].0;
      assert DistinctKeys(d[1..]) by {
        assert forall i :: 0 <= i < |d[1..]| ==> d[1..][i] == d[i + 1];
      }
      DistinctGet(d[1..], j - 1);
    }
  }

  function Values<V>(d: Dict<V>): (r: seq<V>)
    ensures |r| == |d| && forall i :: 0 <= i < |d| ==> r[i] == d[i].1
  {
    seq(|d|, i requires 0 <= i < |d| => d[i].1)
  }
}
