/** Insertion-ordered maps with string-like keys, as JavaScript objects keep
    them: a sequence of key/value entries. Assigning to a key that is already
    present overwrites the value where it stands; assigning a new key appends
    it; deleting a key closes the gap and keeps the order of the rest. */
module OrderedMap {
  import opened Wrappers

  datatype Entry<K, V> = Entry(key: K, value: V)

  type OMap<K, V> = seq<Entry<K, V>>

  /** The keys, in insertion order. */
  function Keys<K, V>(m: OMap<K, V>): seq<K>
  {
    seq(|m|, i requires 0 <= i < |m| => m[i].key)
  }

  /** No key occurs twice: what makes an entry sequence an object. */
  predicate Unique<K(==), V>(m: OMap<K, V>)
  {
    forall i, j :: 0 <= i < j < |m| ==> m[i].key != m[j].key
  }

  /** Position of the first entry whose key is `k`, found by a linear scan. */
  function IndexOf<K(==), V>(m: OMap<K, V>, k: K): (r: Option<nat>)
    ensures r.Some? ==> r.value < |m| && m[r.value].key == k
    ensures r.Some? ==> forall j :: 0 <= j < r.value ==> m[j].key != k
    ensures r.None? <==> k !in Keys(m)
    ensures r.None? ==> forall j :: 0 <= j < |m| ==> m[j].key != k
  {
    if |m| == 0 then None
    else
      assert Keys(m) == [m[0].key] + Keys(m[1..]);
      if m[0].key == k then Some(0)
      else match IndexOf(m[1..], k)
      case None => None
      case Some(i) => Some(i + 1)
  }

  /** The scan stops at the first entry whose key is `k`. */
  lemma {:induction false} IndexOfFirst<K, V>(m: OMap<K, V>, k: K, j: nat)
    requires j < |m| && m[j].key == k
    requires forall l :: 0 <= l < j ==> m[l].key != k
    ensures IndexOf(m, k) == Some(j)
  {
    if j > 0 {
      IndexOfFirst(m[1..], k, j - 1);
    }
  }

  /** In a map without repeated keys, the entry found for `k` is its only one. */
  lemma IndexOfUnique<K, V>(m: OMap<K, V>, k: K, j: nat)
    requires Unique(m)
    requires j < |m| && m[j].key == k
    ensures IndexOf(m, k) == Some(j)
  {
    IndexOfFirst(m, k, j);
  }

  /** In a map without repeated keys, no entry before or after the one
      found for `k` has key `k`. */
  lemma UniqueAround<K, V>(m: OMap<K, V>, k: K, i: nat)
    requires Unique(m)
    requires IndexOf(m, k) == Some(i)
    ensures k !in Keys(m[..i])
    ensures k !in Keys(m[i + 1..])
  {
    var before, after := m[..i], m[i + 1..];
    assert forall j :: 0 <= j < |before| ==> before[j].key != k;
    assert forall j :: 0 <= j < |after| ==> after[j] == m[i + 1 + j];
    assert forall j :: 0 <= j < |after| ==> after[j].key != k;
  }

  /** `m[k]` with JavaScript's `undefined` as `None`. */
  function Get<K(==), V>(m: OMap<K, V>, k: K): (r: Option<V>)
    ensures r.None? <==> k !in Keys(m)
    ensures r.Some? ==> exists i :: 0 <= i < |m| && m[i] == Entry(k, r.value)
  {
    match IndexOf(m, k)
    case None => None
    case Some(i) => Some(m[i].value)
  }

  /** With distinct keys, `m[k]` is the value of the one entry keyed `k`. */
  lemma GetUnique<K, V>(m: OMap<K, V>, k: K, j: nat)
    requires Unique(m)
    requires j < |m| && m[j].key == k
    ensures Get(m, k) == Some(m[j].value)
  {
    IndexOfUnique(m, k, j);
  }

  /** `m[k] = v`: overwrite in place when `k` is present, append otherwise. */
  function Put<K(==), V>(m: OMap<K, V>, k: K, v: V): (r: OMap<K, V>)
    ensures IndexOf(m, k).None? ==> r == m + [Entry(k, v)]
    ensures IndexOf(m, k).Some? ==> r == m[IndexOf(m, k).value := Entry(k, v)]
  {
    if |m| == 0 then [Entry(k, v)]
    else if m[0].key == k then [Entry(k, v)] + m[1..]
    else [m[0]] + Put(m[1..], k, v)
  }

  /** `delete m[k]`: drop the entry for `k`, keep the others in order; a
      missing key leaves the map as it is. */
  function Delete<K(==), V>(m: OMap<K, V>, k: K): (r: OMap<K, V>)
    ensures IndexOf(m, k).None? ==> r == m
    ensures IndexOf(m, k).Some? ==>
      var i := IndexOf(m, k).value; r == m[..i] + m[i + 1..]
  {
    if |m| == 0 then []
    else if m[0].key == k then m[1..]
    else
      match IndexOf(m[1..], k)
      case None => assert [m[0]] + m[1..] == m; [m[0]] + Delete(m[1..], k)
      case Some(i) =>
        assert [m[0]] + (m[1..][..i] + m[1..][i + 1..]) == m[..i + 1] + m[i + 2..];
        [m[0]] + Delete(m[1..], k)
  }

  /** Putting a key keeps the keys distinct. */
  lemma PutUnique<K, V>(m: OMap<K, V>, k: K, v: V)
    requires Unique(m)
    ensures Unique(Put(m, k, v))
  {
    var r := Put(m, k, v);
    match IndexOf(m, k)
    case None =>
      assert forall j :: 0 <= j < |m| ==> r[j] == m[j];
      assert r[|m|].key == k;
    case Some(i) =>
      assert forall j :: 0 <= j < |m| ==> r[j].key == m[j].key;
  }

  /** After putting `k`, the scan finds `k` where it was, or at the end. */
  lemma {:induction false} PutIndexOf<K, V>(m: OMap<K, V>, k: K, v: V)
    ensures IndexOf(Put(m, k, v), k) ==
      (if IndexOf(m, k).Some? then IndexOf(m, k) else Some(|m|))
  {
    if |m| > 0 && m[0].key != k {
      var r := Put(m, k, v);
      assert r[1..] == Put(m[1..], k, v);
      PutIndexOf(m[1..], k, v);
    }
  }

  /** After putting `k`, looking `k` up yields the value put. */
  lemma PutGet<K, V>(m: OMap<K, V>, k: K, v: V)
    ensures Get(Put(m, k, v), k) == Some(v)
  {
    PutIndexOf(m, k, v);
  }

  /** Putting `k` twice is putting the second value: the last write wins. */
  lemma PutPut<K, V>(m: OMap<K, V>, k: K, v1: V, v2: V)
    ensures Put(Put(m, k, v1), k, v2) == Put(m, k, v2)
  {
    PutIndexOf(m, k, v1);
  }

  /** Putting a present key keeps the key sequence; a new key is appended to it. */
  lemma PutKeys<K, V>(m: OMap<K, V>, k: K, v: V)
    ensures Keys(Put(m, k, v)) == if k in Keys(m) then Keys(m) else Keys(m) + [k]
  {
  }

  /** Putting back the value a key already has changes nothing. */
  lemma PutSame<K, V>(m: OMap<K, V>, k: K, i: nat)
    requires IndexOf(m, k) == Some(i)
    ensures Put(m, k, m[i].value) == m
  {
  }

  /** Deleting a key that was just appended restores the map. */
  lemma DeleteAppended<K, V>(m: OMap<K, V>, k: K, v: V)
    requires k !in Keys(m)
    ensures Delete(m + [Entry(k, v)], k) == m
  {
    assert IndexOf(m, k).None?;
    IndexOfFirst(m + [Entry(k, v)], k, |m|);
  }

  /** Putting `k` changes no other key's value. */
  lemma PutGetOther<K, V>(m: OMap<K, V>, k: K, v: V, k': K)
    requires Unique(m)
    requires k' != k
    ensures Get(Put(m, k, v), k') == Get(m, k')
  {
    var r := Put(m, k, v);
    PutUnique(m, k, v);
    match IndexOf(m, k')
    case None =>
      assert forall j :: 0 <= j < |r| ==> r[j].key != k';
    case Some(j) =>
      IndexOfUnique(r, k', j);
  }

  /** The entries left by deleting position `i`, by their old positions. */
  lemma DeleteShift<K, V>(m: OMap<K, V>, k: K, i: nat)
    requires IndexOf(m, k) == Some(i)
    ensures |Delete(m, k)| == |m| - 1
    ensures forall j :: 0 <= j < i ==> Delete(m, k)[j] == m[j]
    ensures forall j :: i <= j < |m| - 1 ==> Delete(m, k)[j] == m[j + 1]
  {
  }

  /** Deleting a key keeps the keys distinct and leaves that key absent. */
  lemma DeleteUnique<K, V>(m: OMap<K, V>, k: K)
    requires Unique(m)
    ensures Unique(Delete(m, k))
    ensures k !in Keys(Delete(m, k))
  {
    var r := Delete(m, k);
    match IndexOf(m, k)
    case None =>
    case Some(i) =>
      DeleteShift(m, k, i);
      forall a, b | 0 <= a < b < |r|
        ensures r[a].key != r[b].key
      {
        var a' := if a < i then a else a + 1;
        var b' := if b < i then b else b + 1;
        assert r[a] == m[a'] && r[b] == m[b'];
      }
      forall j | 0 <= j < |r|
        ensures Keys(r)[j] != k
      {
        var j' := if j < i then j else j + 1;
        assert r[j] == m[j'];
      }
  }

  /** Deleting `k` changes no other key's value. */
  lemma DeleteGetOther<K, V>(m: OMap<K, V>, k: K, k': K)
    requires Unique(m)
    requires k' != k
    ensures Get(Delete(m, k), k') == Get(m, k')
  {
    DeleteUnique(m, k);
    match IndexOf(m, k)
    case None =>
    case Some(i) => DeleteGetOtherAt(m, k, i, k');
  }

  /** `DeleteGetOther` once the deleted key is known to sit at `i`. */
  lemma DeleteGetOtherAt<K, V>(m: OMap<K, V>, k: K, i: nat, k': K)
    requires Unique(m) && Unique(Delete(m, k))
    requires IndexOf(m, k) == Some(i)
    requires k' != k
    ensures Get(Delete(m, k), k') == Get(m, k')
  {
    var r := Delete(m, k);
    DeleteShift(m, k, i);
    if k' in Keys(m) {
      var j :| 0 <= j < |m| && m[j].key == k';
      assert j != i;
      var j' := if j < i then j else j - 1;
      assert r[j'] == m[j];
      GetUnique(m, k', j);
      GetUnique(r, k', j');
    } else {
      forall j | 0 <= j < |r|
        ensures Keys(r)[j] != k'
      {
        var j' := if j < i then j else j + 1;
        assert r[j] == m[j'];
        assert Keys(m)[j'] == m[j'].key;
      }
    }
  }
}
