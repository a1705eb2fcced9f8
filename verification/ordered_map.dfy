/**
 * JavaScript's `Map` as the sequence of its entries in insertion order.
 * `set` on a present key overwrites the entry where it stands; on a new key
 * it appends. Iteration (`keys()`, `values()`, `entries()`) follows the
 * sequence.
 */
module OrderedMap {
  import opened Base

  predicate HasKey<K(==), V>(m: seq<(K, V)>, k: K) {
    exists i :: 0 <= i < |m| && m[i].0 == k
  }

  /** Every key occurs once: the invariant of every `Map` value. */
  predicate DistinctKeys<K(==), V>(m: seq<(K, V)>) {
    forall i, j :: 0 <= i < j < |m| ==> m[i].0 != m[j].0
  }

  lemma HasKeyTail<K, V>(m: seq<(K, V)>, k: K)
    requires m != []
    ensures HasKey(m, k) <==> m[0].0 == k || HasKey(m[1..], k)
  {
    if HasKey(m, k) {
      var i :| 0 <= i < |m| && m[i].0 == k;
      if i > 0 { assert m[1..][i - 1].0 == k; }
    }
    if HasKey(m[1..], k) {
      var i :| 0 <= i < |m[1..]| && m[1..][i].0 == k;
      assert m[i + 1].0 == k;
    }
  }

  lemma DistinctTail<K, V>(m: seq<(K, V)>)
    requires m != [] && DistinctKeys(m)
    ensures DistinctKeys(m[1..]) && !HasKey(m[1..], m[0].0)
  {
    forall a, b | 0 <= a < b < |m[1..]| ensures m[1..][a].0 != m[1..][b].0 {
      assert m[1..][a] == m[a + 1] && m[1..][b] == m[b + 1];
    }
    forall i | 0 <= i < |m[1..]| ensures m[1..][i].0 != m[0].0 {
      assert m[1..][i] == m[i + 1];
    }
  }

  /** `m.get(k)`: the value of the first entry with key `k`. */
  function Get<K(==), V>(m: seq<(K, V)>, k: K): (r: Option<V>)
    ensures r.Some? <==> HasKey(m, k)
  {
    if m == [] then None
    else if m[0].0 == k then Some(m[0].1)
    else
      HasKeyTail(m, k);
      Get(m[1..], k)
  }

  /** What `get` finds is an entry of the map. */
  lemma {:induction false} GetMember<K, V>(m: seq<(K, V)>, k: K)
    ensures Get(m, k).Some? ==> (k, Get(m, k).value) in m
  {
    if m != [] && m[0].0 != k {
      GetMember(m[1..], k);
    }
  }

  /** With distinct keys, looking up the key of an entry finds that entry. */
  lemma {:induction false} GetAt<K, V>(m: seq<(K, V)>, i: nat)
    requires DistinctKeys(m) && i < |m|
    ensures Get(m, m[i].0) == Some(m[i].1)
  {
    if i > 0 {
      DistinctTail(m);
      GetAt(m[1..], i - 1);
      assert m[1..][i - 1] == m[i];
    }
  }

  /** `m.set(k, v)`. */
  function Set<K(==), V>(m: seq<(K, V)>, k: K, v: V): (r: seq<(K, V)>)
    ensures |r| == if HasKey(m, k) then |m| else |m| + 1
  {
    if m == [] then [(k, v)]
    else if m[0].0 == k then [(k, v)] + m[1..]
    else
      HasKeyTail(m, k);
      [m[0]] + Set(m[1..], k, v)
  }

  /** After `set`, `get` finds the new value at `k` and the old one everywhere else. */
  lemma {:induction false} SetGet<K, V>(m: seq<(K, V)>, k: K, v: V, k': K)
    ensures Get(Set(m, k, v), k') == if k' == k then Some(v) else Get(m, k')
  {
    if m != [] && m[0].0 != k {
      SetGet(m[1..], k, v, k');
    }
  }

  /** `set` keeps the position of a present key and appends a new one. */
  lemma {:induction false} SetPlace<K, V>(m: seq<(K, V)>, k: K, v: V)
    ensures HasKey(m, k) ==>
      && |Set(m, k, v)| == |m|
      && (forall i :: 0 <= i < |m| ==> Set(m, k, v)[i].0 == m[i].0)
      && (forall i :: 0 <= i < |m| ==> Set(m, k, v)[i] == (k, v) || Set(m, k, v)[i] == m[i])
      && (forall i :: 0 <= i < |m| && m[i].0 != k ==> Set(m, k, v)[i] == m[i])
    ensures !HasKey(m, k) ==> Set(m, k, v) == m + [(k, v)]
  {
    if m != [] {
      HasKeyTail(m, k);
      if m[0].0 != k {
        SetPlace(m[1..], k, v);
        var r := Set(m, k, v);
        assert r == [m[0]] + Set(m[1..], k, v);
        if HasKey(m, k) {
          forall i | 0 < i < |m| ensures m[1..][i - 1] == m[i] && r[i] == Set(m[1..], k, v)[i - 1] {
          }
        }
      }
    }
  }

  /** Every entry after `set` is the new one or an old one. */
  lemma SetMembers<K, V>(m: seq<(K, V)>, k: K, v: V)
    ensures forall e :: e in Set(m, k, v) ==> e == (k, v) || e in m
  {
    SetPlace(m, k, v);
    var r := Set(m, k, v);
    forall e | e in r ensures e == (k, v) || e in m {
      var i :| 0 <= i < |r| && r[i] == e;
      if i < |m| && r[i] != (k, v) { assert r[i] == m[i]; }
    }
  }

  /** After `set`, the keys are the old ones and `k`. */
  lemma SetHasKey<K, V>(m: seq<(K, V)>, k: K, v: V, k': K)
    ensures HasKey(Set(m, k, v), k') <==> k' == k || HasKey(m, k')
  {
    SetGet(m, k, v, k');
  }

  /** `set` keeps keys distinct. */
  lemma SetDistinct<K, V>(m: seq<(K, V)>, k: K, v: V)
    requires DistinctKeys(m)
    ensures DistinctKeys(Set(m, k, v))
  {
    SetPlace(m, k, v);
    var r := Set(m, k, v);
    if !HasKey(m, k) {
      forall a | 0 <= a < |m| ensures m[a].0 != k {
      }
    }
    forall a, b | 0 <= a < b < |r| ensures r[a].0 != r[b].0 {
      if b < |m| {
        assert r[a].0 == m[a].0 && r[b].0 == m[b].0;
      } else {
        assert r[a].0 == m[a].0;
      }
    }
  }

  /** `m.delete(k)`: every entry with key `k` is dropped, the rest keep their order. */
  function Delete<K(==), V>(m: seq<(K, V)>, k: K): (r: seq<(K, V)>)
    ensures |r| <= |m|
  {
    if m == [] then []
    else if m[0].0 == k then Delete(m[1..], k)
    else [m[0]] + Delete(m[1..], k)
  }

  /** After `delete`, `k` is absent and every other lookup is as before. */
  lemma {:induction false} DeleteGet<K, V>(m: seq<(K, V)>, k: K, k': K)
    ensures Get(Delete(m, k), k') == if k' == k then None else Get(m, k')
  {
    if m != [] {
      DeleteGet(m[1..], k, k');
    }
  }

  /** The entries left by `delete` are exactly the old ones with another key. */
  lemma {:induction false} DeleteEntries<K, V>(m: seq<(K, V)>, k: K)
    ensures forall e :: e in Delete(m, k) ==> e in m && e.0 != k
    ensures forall e :: e in m && e.0 != k ==> e in Delete(m, k)
    ensures !HasKey(m, k) ==> Delete(m, k) == m
  {
    if m != [] {
      DeleteEntries(m[1..], k);
      HasKeyTail(m, k);
      assert m == [m[0]] + m[1..];
    }
  }

  /** `delete` keeps keys distinct. */
  lemma {:induction false} DeleteDistinct<K, V>(m: seq<(K, V)>, k: K)
    requires DistinctKeys(m)
    ensures DistinctKeys(Delete(m, k))
  {
    if m != [] {
      DistinctTail(m);
      DeleteDistinct(m[1..], k);
      if m[0].0 != k {
        DeleteEntries(m[1..], k);
        var rest := Delete(m[1..], k);
        var r := [m[0]] + rest;
        forall b | 0 < b < |r| ensures r[0].0 != r[b].0 {
          assert r[b] == rest[b - 1];
          assert rest[b - 1] in rest;
          assert r[b] in m[1..];
          var j :| 0 <= j < |m[1..]| && m[1..][j] == r[b];
        }
      }
    }
  }

  /** Deleting a key that occurs once, and nowhere else, cuts out exactly its entry. */
  lemma {:induction false} DeleteOnly<K, V>(a: seq<(K, V)>, e: (K, V), b: seq<(K, V)>)
    requires forall x :: x in a + b ==> x.0 != e.0
    ensures Delete(a + [e] + b, e.0) == a + b
  {
    if a == [] {
      assert a + [e] + b == [e] + b;
      assert ([e] + b)[1..] == b;
      forall i | 0 <= i < |b| ensures b[i].0 != e.0 {
        assert b[i] in a + b;
      }
      DeleteEntries(b, e.0);
    } else {
      assert (a + [e] + b)[1..] == a[1..] + [e] + b;
      assert forall x :: x in a[1..] + b ==> x in a + b by {
        forall x | x in a[1..] + b ensures x in a + b {
          if x in a[1..] {
            var i :| 0 <= i < |a[1..]| && a[1..][i] == x;
            assert a[i + 1] == x;
          }
        }
      }
      DeleteOnly(a[1..], e, b);
      assert a[0] in a + b;
      assert a + b == [a[0]] + (a[1..] + b);
    }
  }

  /** Drops every entry whose value is `v`; the rest keep their order. */
  function DeleteWhereValue<K, V(==)>(m: seq<(K, V)>, v: V): (r: seq<(K, V)>)
    ensures |r| <= |m|
  {
    if m == [] then []
    else
      var init := DeleteWhereValue(m[..|m| - 1], v);
      if m[|m| - 1].1 == v then init else init + [m[|m| - 1]]
  }

  /** The entries kept are exactly those whose value is not `v`; keys stay distinct. */
  lemma {:induction false} DeleteWhereValueEntries<K, V>(m: seq<(K, V)>, v: V)
    ensures forall e :: e in DeleteWhereValue(m, v) ==> e in m && e.1 != v
    ensures forall e :: e in m && e.1 != v ==> e in DeleteWhereValue(m, v)
    ensures DistinctKeys(m) ==> DistinctKeys(DeleteWhereValue(m, v))
  {
    if m != [] {
      var front := m[..|m| - 1];
      var last := m[|m| - 1];
      DeleteWhereValueEntries(front, v);
      assert m == front + [last];
      var init := DeleteWhereValue(front, v);
      if DistinctKeys(m) && last.1 != v {
        forall a | 0 <= a < |init| ensures init[a].0 != last.0 {
          assert init[a] in init;
          assert init[a] in front;
          var j :| 0 <= j < |front| && front[j] == init[a];
          assert m[j] == init[a];
        }
      }
    }
  }
  /** The set of keys: `new Set(m.keys())`. */
  function Keys<K(==), V>(m: seq<(K, V)>): set<K> {
    if m == [] then {} else {m[0].0} + Keys(m[1..])
  }

  /** A key is in the key set exactly when the map has it. */
  lemma {:induction false} KeysHas<K, V>(m: seq<(K, V)>, k: K)
    ensures k in Keys(m) <==> HasKey(m, k)
  {
    if m != [] {
      HasKeyTail(m, k);
      KeysHas(m[1..], k);
    }
  }

  /** With distinct keys, `size` is the number of distinct keys. */
  lemma {:induction false} KeysCount<K, V>(m: seq<(K, V)>)
    requires DistinctKeys(m)
    ensures |Keys(m)| == |m|
  {
    if m != [] {
      DistinctTail(m);
      KeysCount(m[1..]);
      KeysHas(m[1..], m[0].0);
    }
  }

  /** A subset as large as its superset is the whole superset. */
  lemma {:induction false} SubsetSameSize<K>(a: set<K>, b: set<K>)
    requires a <= b && |a| == |b|
    ensures a == b
  {
    if a != {} {
      var x :| x in a;
      SubsetSameSize(a - {x}, b - {x});
    }
  }

  /**
   * Two maps with distinct keys, the keys of `a` among those of `b`: equal
   * sizes exactly when every key of `b` is also a key of `a`.
   */
  lemma SizesMatch<K, V, W>(a: seq<(K, V)>, b: seq<(K, W)>)
    requires DistinctKeys(a) && DistinctKeys(b)
    requires forall k :: HasKey(a, k) ==> HasKey(b, k)
    ensures |a| == |b| <==> forall k :: HasKey(b, k) ==> HasKey(a, k)
  {
    KeysCount(a);
    KeysCount(b);
    forall k | k in Keys(a) ensures k in Keys(b) {
      KeysHas(a, k);
      KeysHas(b, k);
    }
    if |a| == |b| {
      SubsetSameSize(Keys(a), Keys(b));
      forall k | HasKey(b, k) ensures HasKey(a, k) {
        KeysHas(a, k);
        KeysHas(b, k);
      }
    }
    if forall k :: HasKey(b, k) ==> HasKey(a, k) {
      forall k | k in Keys(b) ensures k in Keys(a) {
        KeysHas(a, k);
        KeysHas(b, k);
      }
      assert Keys(b) == Keys(a);
    }
  }
}
