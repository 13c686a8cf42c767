/** A JavaScript `Map<string, V>`, kept as its entries in insertion order. */
module JsMap {

  /** No key appears twice (what a Map guarantees). */
  predicate DistinctKeys<V>(m: seq<(string, V)>)
  {
    forall i, j :: 0 <= i < j < |m| ==> m[i].0 != m[j].0
  }

  function Keys<V>(m: seq<(string, V)>): set<string>
  {
    set i | 0 <= i < |m| :: m[i].0
  }

  /** The values in insertion order. */
  function Values<V>(m: seq<(string, V)>): (r: seq<V>)
    ensures |r| == |m| && forall i :: 0 <= i < |m| ==> r[i] == m[i].1
  {
    seq(|m|, i requires 0 <= i < |m| => m[i].1)
  }

  /** Position of the first entry with key `k`, or -1 when there is none. */
  function KeyIndex<V>(m: seq<(string, V)>, k: string): (i: int)
    ensures -1 <= i < |m|
    ensures i >= 0 ==> m[i].0 == k && forall j :: 0 <= j < i ==> m[j].0 != k
    ensures i == -1 ==> forall j :: 0 <= j < |m| ==> m[j].0 != k
  {
    if |m| == 0 then -1
    else if m[0].0 == k then 0
    else
      var i := KeyIndex(m[1..], k);
      if i == -1 then -1 else i + 1
  }

  /** `Map.set`: an existing key keeps its position and takes the new value; a new key is appended. */
  function MapSet<V>(m: seq<(string, V)>, k: string, v: V): (r: seq<(string, V)>)
    ensures KeyIndex(m, k) >= 0 ==> |r| == |m| && r[KeyIndex(m, k)] == (k, v)
    ensures KeyIndex(m, k) >= 0 ==> forall j :: 0 <= j < |m| && j != KeyIndex(m, k) ==> r[j] == m[j]
    ensures KeyIndex(m, k) == -1 ==> r == m + [(k, v)]
    ensures Keys(r) == Keys(m) + {k}
    ensures DistinctKeys(m) ==> DistinctKeys(r)
  {
    var i := KeyIndex(m, k);
    if i >= 0 then
      var r := m[i := (k, v)];
      assert forall j :: 0 <= j < |m| ==> r[j].0 == m[j].0;
      assert Keys(r) == Keys(m);
      r
    else
      var r := m + [(k, v)];
      assert Keys(r) == Keys(m) + {k} by {
        forall x | x in Keys(m) + {k} ensures x in Keys(r) {
          if x == k { assert r[|m|].0 == k; } else { var j :| 0 <= j < |m| && m[j].0 == x; assert r[j].0 == x; }
        }
      }
      r
  }
}
