/** What the hash table is for (include/pcl/htable.h:36-38): a map that remembers the order
    in which keys were first put. It is a sequence of pairs whose keys differ under the
    caller's own key comparison. */
module OrderedMap {
  import opened Common

  datatype Pair<+K, +V> = Pair(key: K, value: V)

  /** The two callbacks a table is configured with. */
  datatype KeyOps<!K> = KeyOps(hashcode: K -> nat, equals: (K, K) -> bool)

  /** What a caller owes the table: `key_equals` is an equivalence and equal keys hash alike. */
  ghost predicate Lawful<K(!new)>(ops: KeyOps<K>) {
    && (forall a :: ops.equals(a, a))
    && (forall a, b :: ops.equals(a, b) ==> ops.equals(b, a))
    && (forall a, b, c :: ops.equals(a, b) && ops.equals(b, c) ==> ops.equals(a, c))
    && (forall a, b :: ops.equals(a, b) ==> ops.hashcode(a) == ops.hashcode(b))
  }

  /** No two keys of m are equal. */
  ghost predicate Distinct<K, V>(ops: KeyOps<K>, m: seq<Pair<K, V>>) {
    forall i, j :: 0 <= i < j < |m| ==> !ops.equals(m[i].key, m[j].key)
  }

  /** Where k is in m, or |m| when it is not there. */
  function Position<K, V>(ops: KeyOps<K>, m: seq<Pair<K, V>>, k: K): (i: nat)
    ensures i <= |m|
    ensures i < |m| ==> ops.equals(m[i].key, k)
    ensures forall j :: 0 <= j < i ==> !ops.equals(m[j].key, k)
  {
    if m == [] then 0
    else if ops.equals(m[0].key, k) then 0
    else
      var r := Position(ops, m[1..], k);
      assert forall j :: 1 <= j < 1 + r ==> m[j] == m[1..][j - 1];
      1 + r
  }

  predicate Has<K, V>(ops: KeyOps<K>, m: seq<Pair<K, V>>, k: K) {
    Position(ops, m, k) < |m|
  }

  function Get<K, V>(ops: KeyOps<K>, m: seq<Pair<K, V>>, k: K): Option<Pair<K, V>> {
    if Has(ops, m, k) then Some(m[Position(ops, m, k)]) else None
  }

  /** Replace in place, or add at the end. */
  function Set<K, V>(ops: KeyOps<K>, m: seq<Pair<K, V>>, k: K, v: V): seq<Pair<K, V>> {
    if Has(ops, m, k) then m[Position(ops, m, k) := Pair(k, v)] else m + [Pair(k, v)]
  }

  function Delete<K, V>(ops: KeyOps<K>, m: seq<Pair<K, V>>, k: K): seq<Pair<K, V>> {
    if Has(ops, m, k) then RemoveAt(m, Position(ops, m, k)) else m
  }

  function RemoveAt<T>(s: seq<T>, i: nat): (r: seq<T>)
    requires i < |s|
    ensures |r| == |s| - 1
    ensures forall a :: 0 <= a < |r| ==> r[a] == s[if a < i then a else a + 1]
  {
    s[..i] + s[i + 1..]
  }

  /** In a map without duplicates any place where k matches is its position. */
  lemma PositionIs<K(!new), V>(ops: KeyOps<K>, m: seq<Pair<K, V>>, k: K, i: nat)
    requires Lawful(ops) && Distinct(ops, m)
    requires i < |m| && ops.equals(m[i].key, k)
    ensures Position(ops, m, k) == i
  {
    var p := Position(ops, m, k);
    assert ops.equals(m[p].key, k) && ops.equals(k, m[i].key);
    assert ops.equals(m[p].key, m[i].key);
  }

  /** The position depends on k only up to key equality. */
  lemma PositionRespectsEquality<K(!new), V>(ops: KeyOps<K>, m: seq<Pair<K, V>>, k: K, k': K)
    requires Lawful(ops) && ops.equals(k, k')
    ensures Position(ops, m, k) == Position(ops, m, k')
  {
    var p, p' := Position(ops, m, k), Position(ops, m, k');
    if p < |m| {
      assert ops.equals(m[p].key, k');
    }
    if p' < |m| {
      assert ops.equals(k', k);
      assert ops.equals(m[p'].key, k);
    }
  }

  /** Reading back a key after a put: the new pair for that key, the old one for any other. */
  lemma GetAfterSet<K(!new), V>(ops: KeyOps<K>, m: seq<Pair<K, V>>, k: K, v: V, q: K)
    requires Lawful(ops) && Distinct(ops, m)
    ensures Distinct(ops, Set(ops, m, k, v))
    ensures Get(ops, Set(ops, m, k, v), q) == if ops.equals(k, q) then Some(Pair(k, v)) else Get(ops, m, q)
  {
    var n := Set(ops, m, k, v);
    var i := Position(ops, m, k);
    assert n[i] == Pair(k, v);
    DistinctAfterSet(ops, m, k, v);
    if ops.equals(k, q) {
      PositionIs(ops, n, q, i);
    } else {
      assert i < |m| ==> ops.equals(k, m[i].key);
      var p := Position(ops, m, q);
      if p < |m| {
        assert n[p] == m[p];
        PositionIs(ops, n, q, p);
      } else {
        assert forall j :: 0 <= j < |m| && j != i ==> n[j] == m[j];
      }
    }
  }

  lemma DistinctAfterSet<K(!new), V>(ops: KeyOps<K>, m: seq<Pair<K, V>>, k: K, v: V)
    requires Lawful(ops) && Distinct(ops, m)
    ensures Distinct(ops, Set(ops, m, k, v))
  {
    var n := Set(ops, m, k, v);
    var i := Position(ops, m, k);
    assert forall j :: 0 <= j < |m| && j != i ==> n[j] == m[j];
    assert forall j :: 0 <= j < |m| && ops.equals(k, m[j].key) ==> j == i by {
      assert i < |m| ==> ops.equals(m[i].key, k);
    }
    assert forall j :: 0 <= j < |m| && ops.equals(m[j].key, k) ==> ops.equals(k, m[j].key);
  }

  /** A remove forgets the key and nothing else. */
  lemma GetAfterDelete<K(!new), V>(ops: KeyOps<K>, m: seq<Pair<K, V>>, k: K, q: K)
    requires Lawful(ops) && Distinct(ops, m)
    ensures Distinct(ops, Delete(ops, m, k))
    ensures Get(ops, Delete(ops, m, k), q) == if ops.equals(k, q) then None else Get(ops, m, q)
  {
    var n := Delete(ops, m, k);
    var i := Position(ops, m, k);
    DistinctAfterDelete(ops, m, k);
    var p := Position(ops, m, q);
    assert forall j :: 0 <= j < |n| ==> n[j] == m[if j < i then j else j + 1];
    if ops.equals(k, q) {
      PositionRespectsEquality(ops, m, k, q);
    } else {
      assert i < |m| ==> ops.equals(k, m[i].key);
      if p < |m| {
        var t := if p < i then p else p - 1;
        assert n[t] == m[p];
        PositionIs(ops, n, q, t);
      }
    }
  }

  lemma DistinctAfterDelete<K(!new), V>(ops: KeyOps<K>, m: seq<Pair<K, V>>, k: K)
    requires Distinct(ops, m)
    ensures Distinct(ops, Delete(ops, m, k))
  {
    var n := Delete(ops, m, k);
    var i := Position(ops, m, k);
    forall a, b | 0 <= a < b < |n| ensures !ops.equals(n[a].key, n[b].key) {
      assert n[a] == m[if a < i then a else a + 1];
      assert n[b] == m[if b < i then b else b + 1];
    }
  }

  /** Putting and then removing an absent key changes nothing; removing after a replacing put
      is the same as removing at once. */
  lemma DeleteAfterSet<K(!new), V>(ops: KeyOps<K>, m: seq<Pair<K, V>>, k: K, v: V)
    requires Lawful(ops) && Distinct(ops, m)
    ensures Delete(ops, Set(ops, m, k, v), k) == Delete(ops, m, k)
  {
    var n := Set(ops, m, k, v);
    var i := Position(ops, m, k);
    DistinctAfterSet(ops, m, k, v);
    assert n[i] == Pair(k, v);
    PositionIs(ops, n, k, i);
    if i < |m| {
      assert n[..i] == m[..i] && n[i + 1..] == m[i + 1..];
    } else {
      assert n[..i] == m && n[i + 1..] == [];
    }
  }
}
