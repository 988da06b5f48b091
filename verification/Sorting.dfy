/**
A stable sort by a total preorder, and the order of strings by code point.

The Rust sources sort in three ways: strings by code point, bands by amount, releases by
date and product. What the callers rely on is the same for all three:

- the result is sorted and has the same elements;
- a sorted rearrangement is unique under a total order, so the stored order cannot matter.
*/
module Sorting {

  ghost predicate TotalPreorder<T(!new)>(le: (T, T) -> bool) {
    && (forall x, y :: le(x, y) || le(y, x))
    && (forall x, y, z :: le(x, y) && le(y, z) ==> le(x, z))
  }

  ghost predicate Antisymmetric<T(!new)>(le: (T, T) -> bool) {
    forall x, y :: le(x, y) && le(y, x) ==> x == y
  }

  ghost predicate SortedBy<T(!new)>(s: seq<T>, le: (T, T) -> bool) {
    forall i, j :: 0 <= i < j < |s| ==> le(s[i], s[j])
  }

  function Insert<T>(x: T, s: seq<T>, le: (T, T) -> bool): (r: seq<T>)
    ensures multiset(r) == multiset{x} + multiset(s)
  {
    if |s| == 0 then [x]
    else if le(x, s[0]) then [x] + s
    else
      assert s == [s[0]] + s[1..];
      [s[0]] + Insert(x, s[1..], le)
  }

  function Sort<T>(s: seq<T>, le: (T, T) -> bool): (r: seq<T>)
    ensures multiset(r) == multiset(s)
  {
    if |s| == 0 then []
    else
      assert s == [s[0]] + s[1..];
      Insert(s[0], Sort(s[1..], le), le)
  }

  lemma {:induction false} SameElements<T>(s: seq<T>, t: seq<T>)
    requires multiset(s) == multiset(t)
    ensures |s| == |t|
    ensures forall x :: x in s <==> x in t
  {
    assert |multiset(s)| == |multiset(t)|;
    forall x ensures x in s <==> x in t {
      assert x in s <==> x in multiset(s);
      assert x in t <==> x in multiset(t);
    }
  }

  ghost predicate NoDuplicates<T(!new)>(s: seq<T>) {
    forall i, j :: 0 <= i < j < |s| ==> s[i] != s[j]
  }

  lemma {:induction false} CountTwice<T>(t: seq<T>, i: nat, j: nat)
    requires i < j < |t| && t[i] == t[j]
    ensures multiset(t)[t[i]] >= 2
  {
    assert t == t[..i] + [t[i]] + t[i + 1..j] + [t[j]] + t[j + 1..];
  }

  lemma {:induction false} CountOnce<T(!new)>(s: seq<T>, x: T)
    requires NoDuplicates(s)
    ensures multiset(s)[x] <= 1
  {
    if |s| > 0 {
      assert s == [s[0]] + s[1..];
      CountOnce(s[1..], x);
      assert s[0] !in s[1..];
    }
  }

  /** Rearranging distinct elements keeps them distinct. */
  lemma {:induction false} DistinctPermutation<T(!new)>(s: seq<T>, t: seq<T>)
    requires NoDuplicates(s) && multiset(s) == multiset(t)
    ensures NoDuplicates(t)
  {
    forall i, j | 0 <= i < j < |t| ensures t[i] != t[j] {
      if t[i] == t[j] {
        CountTwice(t, i, j);
        CountOnce(s, t[i]);
      }
    }
  }

  lemma {:induction false} EmptyTogether<T(!new)>(s: seq<T>, t: seq<T>)
    requires forall x :: x in s <==> x in t
    ensures |s| == 0 <==> |t| == 0
  {
    if |s| > 0 {
      assert s[0] in t;
    }
    if |t| > 0 {
      assert t[0] in s;
    }
  }

  lemma {:induction false} InitMembers<T(!new)>(s: seq<T>)
    requires |s| > 0
    ensures forall x :: x in s <==> x in s[..|s| - 1] || x == s[|s| - 1]
  {
    assert s == s[..|s| - 1] + [s[|s| - 1]];
  }

  lemma {:induction false} TailMembers<T(!new)>(s: seq<T>)
    requires |s| > 0 && s[0] !in s[1..]
    ensures forall x :: x in s[1..] <==> x in s && x != s[0]
  {
    assert s == [s[0]] + s[1..];
  }

  lemma {:induction false} InsertSorted<T(!new)>(x: T, s: seq<T>, le: (T, T) -> bool)
    requires TotalPreorder(le) && SortedBy(s, le)
    ensures SortedBy(Insert(x, s, le), le)
  {
    if |s| > 0 && !le(x, s[0]) {
      InsertSorted(x, s[1..], le);
      var r := Insert(x, s[1..], le);
      assert multiset(r) == multiset{x} + multiset(s[1..]);
      forall i | 0 <= i < |r| ensures le(s[0], r[i]) {
        assert r[i] in multiset(r);
        assert r[i] == x || r[i] in s[1..];
      }
    }
  }

  lemma {:induction false} SortSorted<T(!new)>(s: seq<T>, le: (T, T) -> bool)
    requires TotalPreorder(le)
    ensures SortedBy(Sort(s, le), le)
  {
    if |s| > 0 {
      SortSorted(s[1..], le);
      InsertSorted(s[0], Sort(s[1..], le), le);
    }
  }

  /** With an antisymmetric order the sorted arrangement of a multiset is unique. */
  lemma {:induction false} SortedUnique<T(!new)>(s: seq<T>, t: seq<T>, le: (T, T) -> bool)
    requires Antisymmetric(le) && TotalPreorder(le)
    requires SortedBy(s, le) && SortedBy(t, le) && multiset(s) == multiset(t)
    ensures s == t
    decreases |s|
  {
    SameElements(s, t);
    if |s| > 0 {
      assert s[0] in t && t[0] in s;
      assert le(s[0], t[0]) && le(t[0], s[0]);
      TailMultiset(s);
      TailMultiset(t);
      SortedUnique(s[1..], t[1..], le);
    }
  }

  lemma {:induction false} TailMultiset<T>(s: seq<T>)
    requires |s| > 0
    ensures multiset(s[1..]) == multiset(s) - multiset{s[0]}
  {
    assert s == [s[0]] + s[1..];
  }

  // ----- strings

  predicate StringLeq(a: string, b: string)
  {
    |a| == 0 || (|b| > 0 && (a[0] < b[0] || (a[0] == b[0] && StringLeq(a[1..], b[1..]))))
  }

  lemma {:induction false} StringTotal(a: string, b: string)
    ensures StringLeq(a, b) || StringLeq(b, a)
    ensures StringLeq(a, b) && StringLeq(b, a) ==> a == b
  {
    if |a| > 0 && |b| > 0 && a[0] == b[0] {
      StringTotal(a[1..], b[1..]);
      assert a == [a[0]] + a[1..] && b == [b[0]] + b[1..];
    }
  }

  lemma {:induction false} StringTransitive(a: string, b: string, c: string)
    requires StringLeq(a, b) && StringLeq(b, c)
    ensures StringLeq(a, c)
  {
    if |a| > 0 && a[0] == b[0] && b[0] == c[0] {
      StringTransitive(a[1..], b[1..], c[1..]);
    }
  }

  lemma {:induction false} StringOrder()
    ensures TotalPreorder(StringLeq) && Antisymmetric(StringLeq)
  {
    forall a, b ensures StringLeq(a, b) || StringLeq(b, a) {
      StringTotal(a, b);
    }
    forall a, b, c | StringLeq(a, b) && StringLeq(b, c) ensures StringLeq(a, c) {
      StringTransitive(a, b, c);
    }
    forall a, b | StringLeq(a, b) && StringLeq(b, a) ensures a == b {
      StringTotal(a, b);
    }
  }

  lemma {:induction false} SameStart(a: string, b: string, k: nat)
    requires k < |a| && k < |b| && a[..k] == b[..k]
    ensures k > 0 ==> a[0] == b[0]
  {
    if k > 0 {
      assert a[..k][0] == a[0] && b[..k][0] == b[0];
    }
  }

  /** Strings are compared at their first difference, by code point; a prefix comes first. */
  lemma {:induction false} StringLeqMeans(a: string, b: string)
    ensures StringLeq(a, b)
       <==> a <= b || exists k: nat :: k < |a| && k < |b| && a[..k] == b[..k] && a[k] < b[k]
  {
    if |a| > 0 && |b| > 0 {
      var c, d := a[1..], b[1..];
      if a[0] == b[0] {
        StringLeqMeans(c, d);
        assert a == [a[0]] + c && b == [b[0]] + d;
        if k: nat :| k < |c| && k < |d| && c[..k] == d[..k] && c[k] < d[k] {
          assert a[..k + 1] == [a[0]] + c[..k] && b[..k + 1] == [b[0]] + d[..k];
          assert a[k + 1] < b[k + 1];
        }
        if k: nat :| k < |a| && k < |b| && a[..k] == b[..k] && a[k] < b[k] {
          assert k > 0;
          assert c[..k - 1] == a[..k][1..] && d[..k - 1] == b[..k][1..];
          assert c[k - 1] < d[k - 1];
        }
      } else {
        assert a[..0] == b[..0];
        if k: nat :| k < |a| && k < |b| && a[..k] == b[..k] && a[k] < b[k] {
          SameStart(a, b, k);
        }
      }
    }
  }
}
