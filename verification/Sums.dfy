/**
Sums of a real measure over a sequence.

Running totals in the sources are sums built one element at a time. The facts here say
what may be done with such a sum:

- adding an element at the end, joining two sequences, reordering one;
- grouping by a key: sums per key over all the keys add up to the whole.
*/
module Sums {
  import opened Sorting

  ghost function SumBy<T>(s: seq<T>, f: T -> real): real
  {
    if |s| == 0 then 0.0 else SumBy(s[..|s| - 1], f) + f(s[|s| - 1])
  }

  lemma {:induction false} SumAppend<T>(s: seq<T>, t: seq<T>, f: T -> real)
    ensures SumBy(s + t, f) == SumBy(s, f) + SumBy(t, f)
  {
    if |t| == 0 {
      assert s + t == s;
    } else {
      assert (s + t)[..|s + t| - 1] == s + t[..|t| - 1];
      SumAppend(s, t[..|t| - 1], f);
    }
  }

  lemma {:induction false} SumOne<T>(s: seq<T>, x: T, f: T -> real)
    ensures SumBy(s + [x], f) == SumBy(s, f) + f(x)
  {
    assert (s + [x])[..|s|] == s;
  }

  lemma {:induction false} SumRemoveAt<T>(s: seq<T>, k: nat, f: T -> real)
    requires k < |s|
    ensures SumBy(s, f) == SumBy(s[..k] + s[k + 1..], f) + f(s[k])
  {
    hide SumBy;
    var a, x, b := s[..k], s[k], s[k + 1..];
    assert s == a + [x] + b;
    SumAppend(a + [x], b, f);
    SumOne(a, x, f);
    SumAppend(a, b, f);
  }

  lemma {:induction false} WithoutLast<T>(v: seq<T>)
    requires |v| > 0
    ensures multiset(v) == multiset(v[..|v| - 1]) + multiset{v[|v| - 1]}
  {
    assert v == v[..|v| - 1] + [v[|v| - 1]];
  }

  lemma {:induction false} WithoutAt<T>(w: seq<T>, k: nat)
    requires k < |w|
    ensures multiset(w) == multiset(w[..k] + w[k + 1..]) + multiset{w[k]}
  {
    assert w == w[..k] + ([w[k]] + w[k + 1..]);
  }

  lemma {:induction false} SameRest<T>(v: multiset<T>, w: multiset<T>, x: T)
    requires v + multiset{x} == w + multiset{x}
    ensures v == w
  {
    assert v == (v + multiset{x}) - multiset{x};
    assert w == (w + multiset{x}) - multiset{x};
  }

  lemma {:induction false} DropLast<T>(v: seq<T>, w: seq<T>) returns (k: nat)
    requires |v| > 0 && multiset(v) == multiset(w)
    ensures k < |w| && w[k] == v[|v| - 1]
    ensures multiset(v[..|v| - 1]) == multiset(w[..k] + w[k + 1..])
  {
    var x := v[|v| - 1];
    assert x in multiset(v);
    assert x in multiset(w);
    k :| 0 <= k < |w| && w[k] == x;
    WithoutLast(v);
    WithoutAt(w, k);
    SameRest(multiset(v[..|v| - 1]), multiset(w[..k] + w[k + 1..]), x);
  }

  lemma {:induction false} SumIgnoresOrder<T>(v: seq<T>, w: seq<T>, f: T -> real)
    requires multiset(v) == multiset(w)
    ensures SumBy(v, f) == SumBy(w, f)
    decreases |v|
  {
    if |v| == 0 {
      assert |multiset(w)| == 0;
    } else {
      var k := DropLast(v, w);
      SumRemoveAt(w, k, f);
      SumIgnoresOrder(v[..|v| - 1], w[..k] + w[k + 1..], f);
    }
  }

  // ----- sums grouped by a key

  /** Counts `f` only for the elements with key `k`. */
  ghost function Keyed<T, K(!new)>(f: T -> real, key: T -> K, k: K): T -> real {
    x => if key(x) == k then f(x) else 0.0
  }

  ghost function SumFor<T, K(!new)>(s: seq<T>, f: T -> real, key: T -> K, k: K): real {
    SumBy(s, Keyed(f, key, k))
  }

  ghost function GroupSums<T, K(!new)>(keys: seq<K>, s: seq<T>, f: T -> real, key: T -> K): real
  {
    if |keys| == 0 then 0.0
    else GroupSums(keys[..|keys| - 1], s, f, key) + SumFor(s, f, key, keys[|keys| - 1])
  }

  lemma {:induction false} SumForOne<T, K(!new)>(s: seq<T>, x: T, f: T -> real, key: T -> K, k: K)
    ensures SumFor(s + [x], f, key, k) == SumFor(s, f, key, k) + (if key(x) == k then f(x) else 0.0)
  {
    SumOne(s, x, Keyed(f, key, k));
  }

  lemma {:induction false} GroupOne<T, K(!new)>(keys: seq<K>, s: seq<T>, x: T, f: T -> real, key: T -> K)
    requires NoDuplicates(keys)
    ensures GroupSums(keys, s + [x], f, key) == GroupSums(keys, s, f, key) + (if key(x) in keys then f(x) else 0.0)
  {
    if |keys| > 0 {
      var init, last := keys[..|keys| - 1], keys[|keys| - 1];
      GroupOne(init, s, x, f, key);
      SumForOne(s, x, f, key, last);
      assert key(x) in keys <==> key(x) in init || key(x) == last;
    }
  }

  lemma {:induction false} GroupNone<T, K(!new)>(keys: seq<K>, f: T -> real, key: T -> K)
    ensures GroupSums(keys, [], f, key) == 0.0
  {
    if |keys| > 0 {
      GroupNone(keys[..|keys| - 1], f, key);
    }
  }

  /** Group sums over distinct keys that cover every counted element add up to the whole sum. */
  lemma {:induction false} GroupsAddUp<T, K(!new)>(keys: seq<K>, s: seq<T>, f: T -> real, key: T -> K)
    requires NoDuplicates(keys) && forall i :: 0 <= i < |s| ==> key(s[i]) in keys || f(s[i]) == 0.0
    ensures GroupSums(keys, s, f, key) == SumBy(s, f)
  {
    if |s| == 0 {
      GroupNone(keys, f, key);
    } else {
      var init, x := s[..|s| - 1], s[|s| - 1];
      GroupsAddUp(keys, init, f, key);
      GroupOne(keys, init, x, f, key);
      assert s == init + [x];
    }
  }

  lemma {:induction false} SumBelow<T>(s: seq<T>, f: T -> real, g: T -> real)
    requires forall i :: 0 <= i < |s| ==> f(s[i]) <= g(s[i])
    ensures SumBy(s, f) <= SumBy(s, g)
  {
    if |s| > 0 {
      SumBelow(s[..|s| - 1], f, g);
    }
  }
}
