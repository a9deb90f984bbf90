/** A JavaScript `Map` as the list of its values in insertion order; `key` reads a value's key. */
module OrderedMaps {

  function IndexOf<V>(key: V -> string, s: seq<V>, k: string): (i: int)
    ensures -1 <= i < |s|
    ensures i >= 0 ==> key(s[i]) == k
    ensures forall j :: 0 <= j < |s| && (i < 0 || j < i) ==> key(s[j]) != k
  {
    if s == [] then -1
    else if key(s[0]) == k then 0
    else
      var i := IndexOf(key, s[1..], k);
      if i < 0 then -1 else i + 1
  }

  /** A known key keeps its place. */
  function Put<V>(key: V -> string, s: seq<V>, v: V): seq<V> {
    var i := IndexOf(key, s, key(v));
    if i < 0 then s + [v] else s[i := v]
  }

  function Remove<V>(key: V -> string, s: seq<V>, k: string): (r: seq<V>)
    ensures |r| == if IndexOf(key, s, k) < 0 then |s| else |s| - 1
  {
    var i := IndexOf(key, s, k);
    if i < 0 then s else s[..i] + s[i + 1..]
  }

  ghost predicate UniqueKeys<V>(key: V -> string, s: seq<V>) {
    forall i, j :: 0 <= i < j < |s| ==> key(s[i]) != key(s[j])
  }

  lemma RemoveKeepsTheOthers<V>(key: V -> string, s: seq<V>, k: string)
    requires UniqueKeys(key, s)
    ensures UniqueKeys(key, Remove(key, s, k))
    ensures forall v :: v in Remove(key, s, k) <==> v in s && key(v) != k
  {
    var i := IndexOf(key, s, k);
    if i >= 0 {
      var r := Remove(key, s, k);
      assert forall j :: 0 <= j < |r| ==> r[j] == s[if j < i then j else j + 1];
      assert forall j :: 0 <= j < |s| && j != i ==> s[j] == r[if j < i then j else j - 1];
    }
  }

  lemma PutKeepsTheOthers<V>(key: V -> string, s: seq<V>, v: V)
    requires UniqueKeys(key, s)
    ensures UniqueKeys(key, Put(key, s, v)) && |Put(key, s, v)| <= |s| + 1
    ensures forall x :: x in Put(key, s, v) <==> x == v || (x in s && key(x) != key(v))
  {
    var i, r := IndexOf(key, s, key(v)), Put(key, s, v);
    assert r[if i < 0 then |s| else i] == v;
    assert forall j :: 0 <= j < |s| && j != i ==> r[j] == s[j];
  }
}
