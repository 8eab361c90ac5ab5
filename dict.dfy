/** An insertion-ordered dictionary, as Python's `dict` is: a sequence of
    (key, value) entries. Assigning to a present key replaces its entry in
    place; assigning to a new key appends; `pop` removes the entry. */
module Dict {
  import opened Wrappers

  type Dict<K, V> = seq<(K, V)>

  function Keys<K(==), V>(d: Dict<K, V>): (ks: seq<K>)
    ensures |ks| == |d|
    ensures forall i :: 0 <= i < |d| ==> ks[i] == d[i].0
  {
    if d == [] then [] else [d[0].0] + Keys(d[1..])
  }

  /** No key occurs twice, which every dictionary value satisfies. */
  predicate UniqueKeys<K(==), V>(d: Dict<K, V>) {
    forall i, j :: 0 <= i < j < |d| ==> d[i].0 != d[j].0
  }

  /** Dropping the first entry keeps the keys unique. */
  lemma UniqueKeysTail<K, V>(d: Dict<K, V>)
    requires d != [] && UniqueKeys(d)
    ensures UniqueKeys(d[1..])
  {
    assert forall i :: 0 <= i < |d| - 1 ==> d[1..][i] == d[i + 1];
  }

  predicate HasKey<K(==), V>(d: Dict<K, V>, k: K) {
    exists i :: 0 <= i < |d| && d[i].0 == k
  }

  /** `d.get(k)` */
  function Get<K(==), V>(d: Dict<K, V>, k: K): (r: Option<V>)
    ensures r.None? <==> !HasKey(d, k)
    ensures r.Some? ==> exists i :: 0 <= i < |d| && d[i] == (k, r.value)
  {
    if d == [] then None
    else if d[0].0 == k then Some(d[0].1)
    else
      var r := Get(d[1..], k);
      assert forall i :: 1 <= i < |d| ==> d[i] == d[1..][i - 1];
      r
  }

  /** With unique keys, `Get` returns the value of the entry holding the key. */
  lemma {:induction false} GetAt<K, V>(d: Dict<K, V>, i: nat)
    requires UniqueKeys(d) && i < |d|
    ensures Get(d, d[i].0) == Some(d[i].1)
  {
    if i > 0 {
      GetAt(d[1..], i - 1);
    }
  }

  /** `d[k] = v` */
  function Put<K(==), V>(d: Dict<K, V>, k: K, v: V): (r: Dict<K, V>)
  {
    if d == [] then [(k, v)]
    else if d[0].0 == k then [(k, v)] + d[1..]
    else [d[0]] + Put(d[1..], k, v)
  }

  /** After `d[k] = v`, `d.get(k)` is `v`. */
  lemma {:induction false} GetPutSame<K, V>(d: Dict<K, V>, k: K, v: V)
    ensures Get(Put(d, k, v), k) == Some(v)
  {
    if d != [] && d[0].0 != k {
      GetPutSame(d[1..], k, v);
      assert ([d[0]] + Put(d[1..], k, v))[1..] == Put(d[1..], k, v);
    }
  }

  /** `d[k] = v` leaves `d.get(k')` alone for every other key `k'`. */
  lemma {:induction false} GetPutOther<K, V>(d: Dict<K, V>, k: K, v: V, k': K)
    requires k' != k
    ensures Get(Put(d, k, v), k') == Get(d, k')
  {
    if d != [] && d[0].0 != k {
      GetPutOther(d[1..], k, v, k');
      assert ([d[0]] + Put(d[1..], k, v))[1..] == Put(d[1..], k, v);
    } else if d != [] {
      assert ([(k, v)] + d[1..])[1..] == d[1..];
    }
  }

  /** Assigning to a present key keeps the length and the position of every
      entry and changes only the entry of that key. */
  lemma {:induction false} PutPresent<K, V>(d: Dict<K, V>, i: nat, v: V)
    requires UniqueKeys(d) && i < |d|
    ensures Put(d, d[i].0, v) == d[i := (d[i].0, v)]
  {
    if i > 0 {
      PutPresent(d[1..], i - 1, v);
      assert [d[0]] + d[1..][i - 1 := (d[i].0, v)] == d[i := (d[i].0, v)];
    }
  }

  /** Assigning to a new key appends one entry at the end. */
  lemma {:induction false} PutAbsent<K, V>(d: Dict<K, V>, k: K, v: V)
    requires !HasKey(d, k)
    ensures Put(d, k, v) == d + [(k, v)]
  {
    if d != [] {
      assert !HasKey(d[1..], k) by {
        forall i | 0 <= i < |d[1..]| ensures d[1..][i].0 != k {
          assert d[1..][i] == d[i + 1];
        }
      }
      PutAbsent(d[1..], k, v);
      assert [d[0]] + (d[1..] + [(k, v)]) == d + [(k, v)];
    }
  }

  /** After `d[k] = v`, `k` maps to `v`, every other key keeps its value and
      the keys stay unique. */
  lemma {:induction false} PutGet<K, V>(d: Dict<K, V>, k: K, v: V, k': K)
    requires UniqueKeys(d)
    ensures UniqueKeys(Put(d, k, v))
    ensures Get(Put(d, k, v), k) == Some(v)
    ensures k' != k ==> Get(Put(d, k, v), k') == Get(d, k')
  {
    if d == [] {
    } else if d[0].0 == k {
      var r := Put(d, k, v);
      assert r[1..] == d[1..];
      assert forall i :: 1 <= i < |r| ==> r[i] == d[i];
    } else {
      var t := Put(d[1..], k, v);
      PutGet(d[1..], k, v, k');
      PutKeys(d[1..], k, v);
      var r := [d[0]] + t;
      assert r[1..] == t;
      forall i, j | 0 <= i < j < |r| ensures r[i].0 != r[j].0 {
        if i == 0 {
          assert r[j] == t[j - 1];
          if t[j - 1].0 != k {
            var w :| 0 <= w < |d[1..]| && d[1..][w].0 == t[j - 1].0;
            assert d[w + 1].0 == t[j - 1].0;
          }
        } else {
          assert r[i] == t[i - 1] && r[j] == t[j - 1];
        }
      }
    }
  }

  /** The keys after `d[k] = v` are the old keys and `k`. */
  lemma {:induction false} PutKeys<K, V>(d: Dict<K, V>, k: K, v: V)
    ensures forall j :: 0 <= j < |Put(d, k, v)| ==>
      Put(d, k, v)[j].0 == k || HasKey(d, Put(d, k, v)[j].0)
    ensures HasKey(Put(d, k, v), k)
    ensures forall k' :: HasKey(d, k') ==> HasKey(Put(d, k, v), k')
  {
    var r := Put(d, k, v);
    if d == [] {
      assert r[0].0 == k;
    } else if d[0].0 == k {
      assert r[0].0 == k;
      forall j | 0 <= j < |r| ensures r[j].0 == k || HasKey(d, r[j].0) {
        if j > 0 { assert r[j] == d[j]; }
      }
      forall k' | HasKey(d, k') ensures HasKey(r, k') {
        var i :| 0 <= i < |d| && d[i].0 == k';
        assert r[i].0 == k';
      }
    } else {
      PutKeys(d[1..], k, v);
      var t := Put(d[1..], k, v);
      assert r == [d[0]] + t;
      forall j | 0 <= j < |r| ensures r[j].0 == k || HasKey(d, r[j].0) {
        if j > 0 {
          assert r[j] == t[j - 1];
          if t[j - 1].0 != k {
            var w :| 0 <= w < |d[1..]| && d[1..][w].0 == t[j - 1].0;
            assert d[w + 1].0 == r[j].0;
          }
        } else {
          assert d[0].0 == r[0].0;
        }
      }
      var w :| 0 <= w < |t| && t[w].0 == k;
      assert r[w + 1].0 == k;
      forall k' | HasKey(d, k') ensures HasKey(r, k') {
        var i :| 0 <= i < |d| && d[i].0 == k';
        if i == 0 {
          assert r[0].0 == k';
        } else {
          assert d[1..][i - 1].0 == k';
          assert HasKey(d[1..], k');
          var u :| 0 <= u < |t| && t[u].0 == k';
          assert r[u + 1].0 == k';
        }
      }
    }
  }

  /** `d.pop(k)` for a present key (the entry is dropped). */
  function Remove<K(==), V>(d: Dict<K, V>, k: K): (r: Dict<K, V>)
    ensures |r| <= |d|
    ensures HasKey(d, k) ==> |r| < |d|
    ensures forall j :: 0 <= j < |r| ==> r[j].0 != k
    ensures forall j :: 0 <= j < |r| ==> exists i :: 0 <= i < |d| && d[i] == r[j]
  {
    if d == [] then []
    else if d[0].0 == k then Remove(d[1..], k)
    else
      var t := Remove(d[1..], k);
      assert forall j :: 0 <= j < |t| ==> exists i :: 0 <= i < |d| && d[i] == t[j] by {
        forall j | 0 <= j < |t| ensures exists i :: 0 <= i < |d| && d[i] == t[j] {
          var i :| 0 <= i < |d[1..]| && d[1..][i] == t[j];
          assert d[i + 1] == t[j];
        }
      }
      assert HasKey(d, k) ==> HasKey(d[1..], k) by {
        if HasKey(d, k) {
          var i :| 0 <= i < |d| && d[i].0 == k;
          assert d[1..][i - 1].0 == k;
        }
      }
      [d[0]] + t
  }

  /** Popping one key keeps every other key. */
  lemma {:induction false} RemoveKeeps<K, V>(d: Dict<K, V>, k: K, i: nat)
    requires i < |d| && d[i].0 != k
    ensures HasKey(Remove(d, k), d[i].0)
  {
    if d[0].0 == k {
      RemoveKeeps(d[1..], k, i - 1);
    } else if i > 0 {
      RemoveKeeps(d[1..], k, i - 1);
      var t := Remove(d[1..], k);
      var w :| 0 <= w < |t| && t[w].0 == d[i].0;
      assert Remove(d, k)[w + 1] == t[w];
    } else {
      assert Remove(d, k)[0] == d[0];
    }
  }

  /** Popping a key keeps the keys unique. */
  lemma {:induction false} RemoveUnique<K, V>(d: Dict<K, V>, k: K)
    requires UniqueKeys(d)
    ensures UniqueKeys(Remove(d, k))
  {
    if d != [] {
      assert UniqueKeys(d[1..]) by {
        forall i, j | 0 <= i < j < |d[1..]| ensures d[1..][i].0 != d[1..][j].0 {
          assert d[1..][i] == d[i + 1] && d[1..][j] == d[j + 1];
        }
      }
      RemoveUnique(d[1..], k);
      if d[0].0 != k {
        var t := Remove(d[1..], k);
        var r := [d[0]] + t;
        forall i, j | 0 <= i < j < |r| ensures r[i].0 != r[j].0 {
          if i == 0 {
            assert r[j] == t[j - 1];
            var w :| 0 <= w < |d[1..]| && d[1..][w] == t[j - 1];
            assert d[w + 1] == t[j - 1];
          } else {
            assert r[i] == t[i - 1] && r[j] == t[j - 1];
          }
        }
      }
    }
  }

  /** After popping `k`, exactly the other keys of `d` remain. */
  lemma RemoveHasKey<K, V>(d: Dict<K, V>, k: K, n: K)
    ensures HasKey(Remove(d, k), n) <==> HasKey(d, n) && n != k
  {
    var r := Remove(d, k);
    if HasKey(d, n) && n != k {
      var i :| 0 <= i < |d| && d[i].0 == n;
      RemoveKeeps(d, k, i);
    }
    if HasKey(r, n) {
      var j :| 0 <= j < |r| && r[j].0 == n;
      var i :| 0 <= i < |d| && d[i] == r[j];
    }
  }
}
