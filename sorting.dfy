/** `getSortOrder` of src/optimizer/math.ts for the numeric comparator `(x, y) => x - y`:
    the input positions, listed in the order a stable ascending sort puts their keys. */
module Sorting {

  /** Position `a` goes strictly before position `b`: a smaller key, or an equal key and an earlier position. */
  predicate Before(keys: seq<real>, a: nat, b: nat)
    requires a < |keys| && b < |keys|
  {
    keys[a] < keys[b] || (keys[a] == keys[b] && a < b)
  }

  predicate InRange(o: seq<nat>, n: nat)
  {
    forall p :: 0 <= p < |o| ==> o[p] < n
  }

  /** Keys ascend along `o`, and equal keys keep their input order. */
  predicate StablySorted(keys: seq<real>, o: seq<nat>)
    requires InRange(o, |keys|)
  {
    forall p, q :: 0 <= p < q < |o| ==> Before(keys, o[p], o[q])
  }

  function Range(n: nat): (r: seq<nat>)
    ensures |r| == n && forall i :: 0 <= i < n ==> r[i] == i
  {
    seq(n, i => i)
  }

  /** Inserts position `k` after all entries of `o` whose key is not above its own. */
  function Insert(o: seq<nat>, keys: seq<real>, k: nat): (r: seq<nat>)
    requires k < |keys| && InRange(o, |keys|)
    ensures |r| == |o| + 1 && InRange(r, |keys|)
    ensures multiset(r) == multiset(o) + multiset{k}
    decreases |o|
  {
    if |o| == 0 then [k]
    else if keys[o[|o| - 1]] <= keys[k] then o + [k]
    else
      assert o == o[..|o| - 1] + [o[|o| - 1]];
      Insert(o[..|o| - 1], keys, k) + [o[|o| - 1]]
  }

  lemma InsertMembers(o: seq<nat>, keys: seq<real>, k: nat, p: nat)
    requires k < |keys| && InRange(o, |keys|)
    requires p < |o| + 1
    ensures Insert(o, keys, k)[p] == k || Insert(o, keys, k)[p] in o
  {
    var r := Insert(o, keys, k);
    assert r[p] in multiset(r);
  }

  /** Inserting a position later than all of `o` into a stably sorted `o` keeps it stably sorted. */
  lemma {:induction false} InsertSorted(o: seq<nat>, keys: seq<real>, k: nat)
    requires k < |keys| && InRange(o, |keys|) && StablySorted(keys, o)
    requires forall p :: 0 <= p < |o| ==> o[p] < k
    ensures StablySorted(keys, Insert(o, keys, k))
    decreases |o|
  {
    if |o| > 0 && keys[o[|o| - 1]] > keys[k] {
      var init, last := o[..|o| - 1], o[|o| - 1];
      InsertSorted(init, keys, k);
      var r := Insert(o, keys, k);
      assert r == Insert(init, keys, k) + [last];
      forall p | 0 <= p < |r| - 1 ensures Before(keys, r[p], last) {
        InsertMembers(init, keys, k, p);
        if r[p] != k {
          var i :| 0 <= i < |init| && init[i] == r[p];
          assert Before(keys, o[i], o[|o| - 1]);
        }
      }
    }
  }

  /** Stable ascending order of the first `m` positions. */
  function SortPrefix(keys: seq<real>, m: nat): (o: seq<nat>)
    requires m <= |keys|
    ensures |o| == m && InRange(o, m) && InRange(o, |keys|)
    ensures multiset(o) == multiset(Range(m))
  {
    if m == 0 then []
    else
      var prev := SortPrefix(keys, m - 1);
      var o := Insert(prev, keys, m - 1);
      assert Range(m) == Range(m - 1) + [m - 1];
      assert InRange(o, m) by {
        forall p | 0 <= p < |o| ensures o[p] < m {
          InsertMembers(prev, keys, m - 1, p);
        }
      }
      o
  }

  lemma {:induction false} SortPrefixSorted(keys: seq<real>, m: nat)
    requires m <= |keys|
    ensures StablySorted(keys, SortPrefix(keys, m))
  {
    if m > 0 {
      SortPrefixSorted(keys, m - 1);
      InsertSorted(SortPrefix(keys, m - 1), keys, m - 1);
    }
  }

  /** getSortOrder: a permutation of the positions of `keys` along which the keys ascend, ties in input order. */
  function SortOrder(keys: seq<real>): (o: seq<nat>)
    ensures |o| == |keys| && InRange(o, |keys|) && StablySorted(keys, o)
    ensures multiset(o) == multiset(Range(|keys|))
  {
    SortPrefixSorted(keys, |keys|);
    SortPrefix(keys, |keys|)
  }

  /** When all keys are equal the stable sort keeps the input order. */
  lemma {:induction false} EqualKeysKeepOrder(keys: seq<real>, m: nat)
    requires m <= |keys|
    requires forall i :: 0 <= i < |keys| ==> keys[i] == keys[0]
    ensures SortPrefix(keys, m) == Range(m)
  {
    if m > 0 {
      EqualKeysKeepOrder(keys, m - 1);
      assert Range(m) == Range(m - 1) + [m - 1];
    }
  }

  /** Every position occurs in the sort order exactly once. */
  lemma {:induction false} SortOrderIsPermutation(keys: seq<real>, k: nat)
    requires k < |keys|
    ensures multiset(SortOrder(keys))[k] == 1
  {
    var o := SortOrder(keys);
    assert Range(|keys|)[k] == k;
    RangeCount(|keys|, k);
  }

  lemma {:induction false} RangeCount(n: nat, k: nat)
    requires k < n
    ensures multiset(Range(n))[k] == 1
  {
    assert Range(n) == Range(n - 1) + [n - 1];
    if k < n - 1 {
      RangeCount(n - 1, k);
    } else {
      assert k !in Range(n - 1);
    }
  }
}
