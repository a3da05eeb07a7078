/**
 * Insertion-ordered dictionaries, as Python's `dict` keeps them: a sequence of
 * key/value pairs in which assigning to a key that is already present
 * replaces its value where it stands, and assigning a new key appends it.
 */
module Assoc {

  function Keys<K(==,!new), V>(m: seq<(K, V)>): (ks: seq<K>)
    ensures |ks| == |m|
    ensures forall i :: 0 <= i < |m| ==> ks[i] == m[i].0
  {
    seq(|m|, i requires 0 <= i < |m| => m[i].0)
  }

  predicate HasKey<K(==,!new), V>(m: seq<(K, V)>, k: K)
  {
    exists i :: 0 <= i < |m| && m[i].0 == k
  }

  /** No key occurs twice, as in every dictionary. */
  predicate DistinctKeys<K(==,!new), V>(m: seq<(K, V)>)
  {
    forall i, j :: 0 <= i < j < |m| ==> m[i].0 != m[j].0
  }

  /** Position of `k`, the first one if it occurs more than once. */
  function IndexOf<K(==,!new), V>(m: seq<(K, V)>, k: K): (i: nat)
    requires HasKey(m, k)
    ensures i < |m| && m[i].0 == k
    ensures forall j :: 0 <= j < i ==> m[j].0 != k
  {
    if m[0].0 == k then 0 else IndexOf(m[1..], k) + 1
  }

  /** The first position holding `k` is the one `IndexOf` finds. */
  lemma IndexOfAt<K(!new), V>(m: seq<(K, V)>, k: K, i: nat)
    requires i < |m| && m[i].0 == k
    requires forall p :: 0 <= p < i ==> m[p].0 != k
    ensures HasKey(m, k) && IndexOf(m, k) == i
  {
    assert HasKey(m, k);
  }

  /** `m[k]`, when `k` is present. */
  function Get<K(==,!new), V>(m: seq<(K, V)>, k: K): (v: V)
    requires HasKey(m, k)
  {
    m[IndexOf(m, k)].1
  }

  /** `m[k] = v`: a present key keeps its position, a new key goes last. */
  function Set<K(==,!new), V>(m: seq<(K, V)>, k: K, v: V): (r: seq<(K, V)>)
    ensures HasKey(r, k) && Get(r, k) == v
    ensures HasKey(m, k) ==> |r| == |m| && r == m[IndexOf(m, k) := (k, v)]
    ensures !HasKey(m, k) ==> r == m + [(k, v)]
  {
    if HasKey(m, k) then
      var r := m[IndexOf(m, k) := (k, v)];
      ReplaceFacts(m, k, v, IndexOf(m, k), r);
      r
    else
      var r := m + [(k, v)];
      AppendFacts(m, k, v, r);
      r
  }

  /** After `m[k] = v` the keys are those of `m` and `k`, every other key keeps its value, and distinct keys stay distinct. */
  lemma SetOthers<K(!new), V>(m: seq<(K, V)>, k: K, v: V)
    ensures forall j :: HasKey(Set(m, k, v), j) <==> HasKey(m, j) || j == k
    ensures forall j :: j != k && HasKey(m, j) ==> Get(Set(m, k, v), j) == Get(m, j)
    ensures DistinctKeys(m) ==> DistinctKeys(Set(m, k, v))
  {
    if HasKey(m, k) {
      ReplaceFacts(m, k, v, IndexOf(m, k), Set(m, k, v));
    } else {
      AppendFacts(m, k, v, Set(m, k, v));
    }
  }

  /** Overwriting the pair at the first position of `k`. */
  lemma ReplaceFacts<K(!new), V>(m: seq<(K, V)>, k: K, v: V, i: nat, r: seq<(K, V)>)
    requires HasKey(m, k) && i == IndexOf(m, k) && r == m[i := (k, v)]
    ensures HasKey(r, k) && Get(r, k) == v
    ensures forall j :: HasKey(r, j) <==> HasKey(m, j) || j == k
    ensures forall j :: j != k && HasKey(m, j) ==> Get(r, j) == Get(m, j)
    ensures DistinctKeys(m) ==> DistinctKeys(r)
  {
    IndexOfAt(r, k, i);
    forall j | HasKey(r, j) ensures HasKey(m, j) || j == k {
      var p :| 0 <= p < |r| && r[p].0 == j;
      if p != i { assert m[p].0 == j; }
    }
    forall j | HasKey(m, j) ensures HasKey(r, j) {
      var p :| 0 <= p < |m| && m[p].0 == j;
      assert r[p].0 == j;
    }
    forall j | j != k && HasKey(m, j) ensures Get(r, j) == Get(m, j) {
      var p := IndexOf(m, j);
      assert r[p].0 == j;
      IndexOfAt(r, j, p);
    }
  }

  /** Appending a pair for a key that is not present. */
  lemma AppendFacts<K(!new), V>(m: seq<(K, V)>, k: K, v: V, r: seq<(K, V)>)
    requires !HasKey(m, k) && r == m + [(k, v)]
    ensures HasKey(r, k) && Get(r, k) == v
    ensures forall j :: HasKey(r, j) <==> HasKey(m, j) || j == k
    ensures forall j :: j != k && HasKey(m, j) ==> Get(r, j) == Get(m, j)
    ensures DistinctKeys(m) ==> DistinctKeys(r)
  {
    assert r[|m|].0 == k;
    IndexOfAt(r, k, |m|);
    forall j | HasKey(r, j) ensures HasKey(m, j) || j == k {
      var p :| 0 <= p < |r| && r[p].0 == j;
      if p < |m| { assert m[p].0 == j; }
    }
    forall j | HasKey(m, j) ensures HasKey(r, j) {
      var p :| 0 <= p < |m| && m[p].0 == j;
      assert r[p].0 == j;
    }
    forall j | j != k && HasKey(m, j) ensures Get(r, j) == Get(m, j) {
      var p := IndexOf(m, j);
      assert r[p].0 == j;
      IndexOfAt(r, j, p);
    }
  }

  /** Assigning to a present key keeps the sequence of keys. */
  lemma SetKeys<K(!new), V>(m: seq<(K, V)>, k: K, v: V)
    requires HasKey(m, k)
    ensures Keys(Set(m, k, v)) == Keys(m)
  {
    assert Keys(Set(m, k, v)) == Keys(m[IndexOf(m, k) := (k, v)]);
  }

  /** `d.get(k, default)`. */
  function GetOr<K(==,!new), V>(m: seq<(K, V)>, k: K, default: V): (v: V)
    ensures HasKey(m, k) ==> v == Get(m, k)
    ensures !HasKey(m, k) ==> v == default
  {
    if HasKey(m, k) then Get(m, k) else default
  }

  /** Assigning twice to the last key of `m + [(k, a)]` only changes that value. */
  lemma SetLast<K(!new), V>(m: seq<(K, V)>, k: K, a: V, b: V)
    requires !HasKey(m, k)
    ensures Set(m + [(k, a)], k, b) == m + [(k, b)]
  {
    var r := m + [(k, a)];
    assert r[|m|].0 == k;
    IndexOfAt(r, k, |m|);
  }

  /** Appending a pair whose key is new keeps the keys distinct. */
  lemma AppendDistinct<K(!new), V>(m: seq<(K, V)>, k: K, v: V)
    requires DistinctKeys(m) && !HasKey(m, k)
    ensures DistinctKeys(m + [(k, v)])
  {
  }
}
