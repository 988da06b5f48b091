/** The worklist traversal below a center (backend-rs/src/chain.rs, `descendants`). */
module Descendants {
  import opened Wrappers
  import opened Sorting
  import opened CostCenters

  // It terminates on any parent graph; with unique ids it returns exactly the centers that
  // reach the given one by at most `MAX_DEPTH` parent links.

  /** Ids of the rows whose parent is `p`, in row order. */
  function Kids(centers: seq<Center>, p: string): seq<string>
  {
    if |centers| == 0 then []
    else
      var last := centers[|centers| - 1];
      Kids(centers[..|centers| - 1], p) + (if last.Parent() == Some(p) then [last.id] else [])
  }

  function LookUp(kids: map<string, seq<string>>, p: string): seq<string> {
    if p in kids then kids[p] else []
  }

  ghost predicate IsKidsTable(kids: map<string, seq<string>>, centers: seq<Center>) {
    forall p :: LookUp(kids, p) == Kids(centers, p)
  }

  function PushKid(kids: map<string, seq<string>>, c: Center): map<string, seq<string>> {
    if c.Parent().Some? then kids[c.Parent().value := LookUp(kids, c.Parent().value) + [c.id]] else kids
  }

  lemma {:induction false} PushKidStep(kids: map<string, seq<string>>, centers: seq<Center>, i: nat)
    requires i < |centers| && IsKidsTable(kids, centers[..i])
    ensures IsKidsTable(PushKid(kids, centers[i]), centers[..i + 1])
  {
    assert centers[..i + 1][..i] == centers[..i];
    forall p ensures LookUp(PushKid(kids, centers[i]), p) == Kids(centers[..i + 1], p) {
      assert LookUp(kids, p) == Kids(centers[..i], p);
    }
  }

  method BuildKids(centers: seq<Center>) returns (kids: map<string, seq<string>>)
    ensures IsKidsTable(kids, centers)
  {
    kids := map[];
    var i := 0;
    while i < |centers|
      invariant 0 <= i <= |centers|
      invariant IsKidsTable(kids, centers[..i])
    {
      PushKidStep(kids, centers, i);
      kids := PushKid(kids, centers[i]);
      i := i + 1;
    }
    assert centers[..i] == centers;
  }

  lemma {:induction false} KidsAreStored(centers: seq<Center>, p: string)
    ensures forall x :: x in Kids(centers, p) ==> x in ById(centers)
    ensures forall x :: x in Kids(centers, p) ==> exists c :: c in centers && c.id == x && c.Parent() == Some(p)
    ensures forall c :: c in centers && c.Parent() == Some(p) ==> c.id in Kids(centers, p)
  {
    if |centers| > 0 {
      var n := |centers| - 1;
      KidsAreStored(centers[..n], p);
      forall x | x in Kids(centers, p) ensures exists c :: c in centers && c.id == x && c.Parent() == Some(p) {
        if x in Kids(centers[..n], p) {
          var c :| c in centers[..n] && c.id == x && c.Parent() == Some(p);
          assert c in centers;
        } else {
          assert centers[n] in centers;
        }
      }
      forall c | c in centers && c.Parent() == Some(p) ensures c.id in Kids(centers, p) {
        assert c in centers[..n] || c == centers[n];
      }
    }
  }

  lemma {:induction false} KidsExactly(centers: seq<Center>, p: string, x: string)
    requires UniqueIds(centers)
    ensures x in Kids(centers, p) <==> x in ById(centers) && ById(centers)[x].Parent() == Some(p)
  {
    KidsAreStored(centers, p);
    ByIdRows(centers);
    if x in Kids(centers, p) {
      var c :| c in centers && c.id == x && c.Parent() == Some(p);
      var i :| 0 <= i < |centers| && centers[i] == c;
      assert ById(centers)[centers[i].id] == c;
    }
  }

  type Entry = (string, nat)

  function Entries(ids: seq<string>, depth: nat): (r: seq<Entry>)
    ensures |r| == |ids|
    ensures forall i :: 0 <= i < |ids| ==> r[i] == (ids[i], depth)
  {
    seq(|ids|, i requires 0 <= i < |ids| => (ids[i], depth))
  }

  /** Every pending entry carries the length of its own path up to the top. */
  ghost predicate EntriesExact(m: Index, top: string, stack: seq<Entry>) {
    forall e :: e in stack ==> Up(m, e.0, e.1) == Some(top) && (e.0 != top ==> FirstHit(m, e.0, top, e.1))
  }

  ghost predicate SeenBelow(m: Index, top: string, seen: set<string>) {
    forall x :: x in seen ==> Below(m, x, top)
  }

  /** A child of a visited node is visited or pending at its own depth. */
  ghost predicate Frontier(m: Index, top: string, stack: seq<Entry>, seen: set<string>) {
    forall x, k: nat :: 0 < k <= MAX_DEPTH && FirstHit(m, x, top, k) && m[x].Parent().value in seen
                        ==> x in seen || (x, k) in stack
  }

  ghost predicate Started(top: string, stack: seq<Entry>, seen: set<string>) {
    top !in seen ==> stack == [(top, 0)] && seen == {}
  }

  ghost predicate Traversal(m: Index, top: string, stack: seq<Entry>, seen: set<string>) {
    EntriesExact(m, top, stack) && SeenBelow(m, top, seen) && Frontier(m, top, stack, seen) && Started(top, stack, seen)
  }

  lemma {:induction false} FirstHitUnique(m: Index, x: string, top: string, j: nat, k: nat)
    requires FirstHit(m, x, top, j) && FirstHit(m, x, top, k)
    ensures j == k
  {
  }

  lemma {:induction false} FirstHitParent(m: Index, x: string, top: string, k: nat)
    requires k > 0 && FirstHit(m, x, top, k)
    ensures x in m && m[x].Parent().Some? && FirstHit(m, m[x].Parent().value, top, k - 1)
  {
    var p := m[x].Parent().value;
    forall i | 0 <= i < k - 1 ensures Up(m, p, i) != Some(top) {
      assert Up(m, x, i + 1) == Up(m, p, i);
    }
  }

  lemma {:induction false} FirstHitChild(m: Index, x: string, top: string, k: nat)
    requires x != top && x in m && m[x].Parent().Some?
    requires FirstHit(m, m[x].Parent().value, top, k)
    ensures FirstHit(m, x, top, k + 1)
  {
    forall i | 0 <= i < k + 1 ensures Up(m, x, i) != Some(top) {
      if i > 0 {
        assert Up(m, x, i) == Up(m, m[x].Parent().value, i - 1);
      }
    }
  }

  /** Popping an entry that is already visited or too deep loses nothing. */
  lemma {:induction false} SkipStep(m: Index, top: string, rest: seq<Entry>, y: string, d: nat, seen: set<string>)
    requires Traversal(m, top, rest + [(y, d)], seen)
    requires y in seen || d > MAX_DEPTH
    ensures Traversal(m, top, rest, seen)
  {
    var stack := rest + [(y, d)];
    forall e | e in rest
      ensures Up(m, e.0, e.1) == Some(top) && (e.0 != top ==> FirstHit(m, e.0, top, e.1))
    {
      assert e in stack;
    }
    forall x, k: nat | 0 < k <= MAX_DEPTH && FirstHit(m, x, top, k) && m[x].Parent().value in seen
      ensures x in seen || (x, k) in rest
    {
      assert x in seen || (x, k) in stack;
    }
    assert stack[|stack| - 1] == (y, d);
  }

  lemma {:induction false} VisitEntries(m: Index, top: string, rest: seq<Entry>, y: string, d: nat, kids: seq<string>)
    requires EntriesExact(m, top, rest + [(y, d)]) && (y == top ==> d == 0)
    requires forall x :: x in kids ==> x in m && m[x].Parent() == Some(y)
    ensures FirstHit(m, y, top, d) && EntriesExact(m, top, rest + Entries(kids, d + 1))
  {
    assert (y, d) in rest + [(y, d)];
    assert FirstHit(m, y, top, d);
    forall e | e in rest + Entries(kids, d + 1)
      ensures Up(m, e.0, e.1) == Some(top) && (e.0 != top ==> FirstHit(m, e.0, top, e.1))
    {
      if e in rest {
        assert e in rest + [(y, d)];
      } else {
        assert e.0 in kids && e.1 == d + 1;
        if e.0 != top {
          FirstHitChild(m, e.0, top, d);
        }
      }
    }
  }

  lemma {:induction false} VisitFrontier(m: Index, top: string, rest: seq<Entry>, y: string, d: nat,
                                         seen: set<string>, kids: seq<string>)
    requires Frontier(m, top, rest + [(y, d)], seen) && FirstHit(m, y, top, d)
    requires forall x :: x in m && m[x].Parent() == Some(y) ==> x in kids
    ensures Frontier(m, top, rest + Entries(kids, d + 1), seen + {y})
  {
    forall x, k: nat | 0 < k <= MAX_DEPTH && FirstHit(m, x, top, k) && m[x].Parent().value in seen + {y}
      ensures x in seen + {y} || (x, k) in rest + Entries(kids, d + 1)
    {
      FirstHitParent(m, x, top, k);
      var p := m[x].Parent().value;
      if p == y {
        FirstHitUnique(m, y, top, d, k - 1);
        var i :| 0 <= i < |kids| && kids[i] == x;
        assert Entries(kids, d + 1)[i] == (x, k);
      } else {
        assert x in seen || (x, k) in rest + [(y, d)];
      }
    }
  }

  /** Visiting an entry and pushing its children keeps the traversal exact. */
  lemma {:induction false} VisitStep(m: Index, top: string, rest: seq<Entry>, y: string, d: nat, seen: set<string>,
                                     kids: seq<string>)
    requires Traversal(m, top, rest + [(y, d)], seen)
    requires y !in seen && d <= MAX_DEPTH
    requires forall x :: x in kids <==> x in m && m[x].Parent() == Some(y)
    ensures Traversal(m, top, rest + Entries(kids, d + 1), seen + {y})
  {
    var stack := rest + [(y, d)];
    assert stack[|stack| - 1] == (y, d);
    VisitEntries(m, top, rest, y, d, kids);
    VisitFrontier(m, top, rest, y, d, seen, kids);
    assert Below(m, y, top);
  }

  /** With nothing pending, every node within the cap has been visited. */
  lemma {:induction false} AllVisited(m: Index, top: string, seen: set<string>, x: string, k: nat)
    requires Traversal(m, top, [], seen)
    requires k <= MAX_DEPTH && FirstHit(m, x, top, k)
    ensures x in seen
    decreases k
  {
    if k > 0 {
      FirstHitParent(m, x, top, k);
      AllVisited(m, top, seen, m[x].Parent().value, k - 1);
    }
  }

  lemma {:induction false} VisitedExactly(m: Index, top: string, seen: set<string>)
    requires Traversal(m, top, [], seen)
    ensures forall x :: x in seen <==> Below(m, x, top)
  {
    forall x | Below(m, x, top) ensures x in seen {
      var k: nat :| k <= MAX_DEPTH && Up(m, x, k) == Some(top);
      var first := FirstHitExists(m, x, top, k);
      AllVisited(m, top, seen, x, first);
    }
  }

  lemma {:induction false} SetShrinks(all: set<string>, seen: set<string>, y: string)
    requires y in all && y !in seen
    ensures |all - (seen + {y})| < |all - seen|
  {
    assert all - (seen + {y}) == (all - seen) - {y};
  }

  lemma {:induction false} StartTraversal(m: Index, top: string)
    ensures Traversal(m, top, [(top, 0)], {})
  {
    assert FirstHit(m, top, top, 0);
  }

  /** The output so far is the visited set, each node once. */
  ghost predicate Lists(out: seq<string>, seen: set<string>) {
    NoDuplicates(out) && forall x :: x in out <==> x in seen
  }

  lemma {:induction false} ListsStep(out: seq<string>, seen: set<string>, y: string)
    requires Lists(out, seen) && y !in seen
    ensures Lists(out + [y], seen + {y})
  {
  }

  ghost predicate Known(stack: seq<Entry>, all: set<string>) {
    forall i :: 0 <= i < |stack| ==> stack[i].0 in all
  }

  lemma {:induction false} KidsSorted(centers: seq<Center>, p: string)
    ensures var ks := Sort(Kids(centers, p), StringLeq);
            (forall x :: x in ks ==> x in ById(centers))
            && (UniqueIds(centers) ==>
                  forall x :: x in ks <==> x in ById(centers) && ById(centers)[x].Parent() == Some(p))
  {
    SameElements(Sort(Kids(centers, p), StringLeq), Kids(centers, p));
    KidsAreStored(centers, p);
    if UniqueIds(centers) {
      forall x { KidsExactly(centers, p, x); }
    }
  }

  lemma {:induction false} KnownStep(rest: seq<Entry>, ids: seq<string>, depth: nat, all: set<string>)
    requires Known(rest, all) && forall x :: x in ids ==> x in all
    ensures Known(rest + Entries(ids, depth), all)
  {
  }

  lemma {:induction false} StartLists(top: string, all: set<string>)
    requires top in all
    ensures Known([(top, 0)], all) && Lists([], {})
  {
  }

  lemma {:induction false} KnownLast(rest: seq<Entry>, y: string, depth: nat, all: set<string>)
    requires Known(rest + [(y, depth)], all)
    ensures Known(rest, all) && y in all
  {
    var stack := rest + [(y, depth)];
    assert stack[|rest|] == (y, depth);
    forall i | 0 <= i < |rest| ensures rest[i].0 in all {
      assert stack[i] == rest[i];
    }
  }

  lemma {:induction false} ListsAll(out: seq<string>, seen: set<string>)
    requires Lists(out, seen)
    ensures NoDuplicates(out) && forall x :: x in out <==> x in seen
  {
  }

  lemma {:induction false} SortedOutput(out: seq<string>)
    requires NoDuplicates(out)
    ensures var r := Sort(out, StringLeq);
            SortedBy(r, StringLeq) && NoDuplicates(r) && forall x :: x in r <==> x in out
  {
    StringOrder();
    SortSorted(out, StringLeq);
    DistinctPermutation(out, Sort(out, StringLeq));
    SameElements(Sort(out, StringLeq), out);
  }

  method Descendants(centers: seq<Center>, top: string) returns (out: seq<string>)
    ensures SortedBy(out, StringLeq) && NoDuplicates(out)
    ensures UniqueIds(centers) ==> forall x :: x in out <==> Below(ById(centers), x, top)
  {
    hide Traversal, Below, Kids, LookUp, Sort, ById, SortedBy, UniqueIds, Known, Lists, Entries;
    var kids := BuildKids(centers);
    ghost var m := ById(centers);
    ghost var all := m.Keys + {top};
    out := [];
    var stack: seq<Entry> := [(top, 0)];
    var seen: set<string> := {};
    StartTraversal(m, top);
    StartLists(top, all);
    while |stack| > 0
      invariant Known(stack, all)
      invariant Lists(out, seen)
      invariant UniqueIds(centers) ==> Traversal(m, top, stack, seen)
      decreases |all - seen|, |stack|
    {
      var rest := stack[..|stack| - 1];
      var (cid, depth) := stack[|stack| - 1];
      assert stack == rest + [(cid, depth)];
      KnownLast(rest, cid, depth, all);
      if cid in seen || depth > MAX_DEPTH {
        if UniqueIds(centers) {
          SkipStep(m, top, rest, cid, depth, seen);
        }
        stack := rest;
      } else {
        var ks := Sort(LookUp(kids, cid), StringLeq);
        assert LookUp(kids, cid) == Kids(centers, cid);
        KidsSorted(centers, cid);
        if UniqueIds(centers) {
          VisitStep(m, top, rest, cid, depth, seen, ks);
        }
        SetShrinks(all, seen, cid);
        ListsStep(out, seen, cid);
        KnownStep(rest, ks, depth + 1, all);
        seen := seen + {cid};
        out := out + [cid];
        stack := rest + Entries(ks, depth + 1);
      }
    }
    if UniqueIds(centers) {
      VisitedExactly(m, top, seen);
    }
    ListsAll(out, seen);
    SortedOutput(out);
    out := Sort(out, StringLeq);
  }
}
