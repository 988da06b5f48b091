/** The guard on moving a cost center, and the edits that go through it. */
module Reparenting {
  import opened Wrappers
  import opened CostCenters
  import opened Descendants

  // The guard (backend-rs/src/chain.rs, `reparent_problem`) accepts a move exactly when the
  // moved tree is still well formed, so every run of the edits of the management routes
  // (backend-rs/src/routes/cost_centers.rs) keeps it so.

  datatype Problem = Cycle | TooDeep

  /** The new parent is the center itself or lies below it. */
  ghost predicate WouldCycle(m: Index, id: string, parent: string) {
    Below(m, parent, id)
  }

  /** Some node below the center, joined to the parent's root path, would be too many nodes. */
  ghost predicate WouldBeTooDeep(m: Index, id: string, parent: string) {
    exists x, j: nat, k: nat :: Up(m, x, k) == Some(id) && Up(m, parent, j).Some? && j + k + 2 > MAX_DEPTH
  }

  ghost function Verdict(m: Index, id: string, parent: string): Option<Problem> {
    if WouldCycle(m, id, parent) then Some(Cycle)
    else if WouldBeTooDeep(m, id, parent) then Some(TooDeep)
    else None
  }

  // ----- the guard as written

  /** Rows whose stored parent id is `p`, without the empty-string rule. */
  function RawKids(centers: seq<Center>, p: string): seq<string>
  {
    if |centers| == 0 then []
    else
      var last := centers[|centers| - 1];
      RawKids(centers[..|centers| - 1], p) + (if last.parentId == Some(p) then [last.id] else [])
  }

  lemma {:induction false} RawKidsAreKids(centers: seq<Center>, p: string)
    requires p != ""
    ensures RawKids(centers, p) == Kids(centers, p)
  {
    if |centers| > 0 {
      RawKidsAreKids(centers[..|centers| - 1], p);
    }
  }

  /** How many nodes the walk from `parent` to its root counts, or `None` past the cap. */
  method CountAbove(m: Index, parent: string) returns (above: Option<nat>)
    ensures above.None? <==> Up(m, parent, MAX_DEPTH).Some?
    ensures above.Some? ==>
      above.value > 0 && Up(m, parent, above.value - 1).Some? && Up(m, parent, above.value) == None
  {
    var depthAbove := 0;
    var cur := Some(parent);
    while cur.Some?
      invariant depthAbove <= MAX_DEPTH
      invariant cur == Up(m, parent, depthAbove)
      invariant depthAbove > 0 ==> Up(m, parent, depthAbove - 1).Some?
      decreases MAX_DEPTH + 1 - depthAbove
    {
      UpAdd(m, parent, depthAbove, 1);
      depthAbove := depthAbove + 1;
      if depthAbove > MAX_DEPTH {
        return None;
      }
      cur := if cur.value in m then m[cur.value].Parent() else None;
    }
    if Up(m, parent, MAX_DEPTH).Some? {
      UpPrefix(m, parent, depthAbove, MAX_DEPTH);
    }
    return Some(depthAbove);
  }

  /** Exactly the nodes `k` links below `id`. */
  ghost predicate IsLevel(m: Index, id: string, k: nat, level: seq<string>) {
    forall x :: x in level <==> Up(m, x, k) == Some(id)
  }

  method NextLevel(centers: seq<Center>, id: string, k: nat, level: seq<string>) returns (next: seq<string>)
    requires WellKeyed(centers) && id != "" && IsLevel(ById(centers), id, k, level)
    ensures IsLevel(ById(centers), id, k + 1, next)
  {
    ghost var m := ById(centers);
    next := [];
    var i := 0;
    while i < |level|
      invariant 0 <= i <= |level|
      invariant forall x :: x in next <==> x in m && m[x].Parent().Some? && m[x].Parent().value in level[..i]
    {
      LevelNodeNamed(centers, id, k, level[i]);
      RawKidsAreKids(centers, level[i]);
      forall x { KidsExactly(centers, level[i], x); }
      next := next + RawKids(centers, level[i]);
      assert level[..i + 1] == level[..i] + [level[i]];
      i := i + 1;
    }
    assert level[..i] == level;
  }

  lemma {:induction false} LevelNodeNamed(centers: seq<Center>, id: string, k: nat, x: string)
    requires WellKeyed(centers) && id != "" && Up(ById(centers), x, k) == Some(id)
    ensures x != ""
  {
    if k > 0 {
      ByIdRows(centers);
      assert ById(centers)[x] in centers;
    }
  }

  lemma {:induction false} NoDeeperLevel(m: Index, id: string, g: nat, x: string, k: nat)
    requires IsLevel(m, id, g, []) && Up(m, x, k) == Some(id)
    ensures k < g
  {
    if k >= g {
      UpPrefix(m, x, k - g, k);
      UpAdd(m, x, k - g, g);
    }
  }

  /** How many levels lie below `id`, counted no further than two past the cap. */
  method CountBelow(centers: seq<Center>, id: string) returns (deepest: nat)
    requires WellKeyed(centers) && id != ""
    ensures exists x :: Up(ById(centers), x, deepest) == Some(id)
    ensures deepest <= MAX_DEPTH ==> forall x, k: nat :: Up(ById(centers), x, k) == Some(id) ==> k <= deepest
  {
    hide ById, Up;
    ghost var m := ById(centers);
    deepest := 0;
    var level := [id];
    var guard := 0;
    LevelZero(m, id);
    ghost var deepNode := id;
    while |level| > 0 && guard <= MAX_DEPTH + 1
      invariant guard <= MAX_DEPTH + 2
      invariant IsLevel(m, id, guard, level)
      invariant if |level| > 0 then deepest == guard else deepest + 1 == guard
      invariant Up(m, deepNode, deepest) == Some(id)
      decreases MAX_DEPTH + 2 - guard
    {
      var next := NextLevel(centers, id, guard, level);
      if |next| > 0 {
        deepest := deepest + 1;
        deepNode := next[0];
      }
      level := next;
      guard := guard + 1;
    }
    if |level| == 0 {
      assert level == [];
      forall x, k: nat | Up(m, x, k) == Some(id) ensures k <= deepest {
        NoDeeperLevel(m, id, guard, x, k);
      }
    }
  }

  lemma {:induction false} LevelZero(m: Index, id: string)
    ensures IsLevel(m, id, 0, [id]) && Up(m, id, 0) == Some(id)
  {
  }

  lemma {:induction false} DepthVerdict(m: Index, id: string, parent: string, above: nat, deepest: nat, x: string)
    requires above > 0 && Up(m, parent, above - 1).Some? && Up(m, parent, above) == None
    requires Up(m, x, deepest) == Some(id)
    requires deepest <= MAX_DEPTH ==> forall y, k: nat :: Up(m, y, k) == Some(id) ==> k <= deepest
    ensures above + 1 + deepest > MAX_DEPTH <==> WouldBeTooDeep(m, id, parent)
  {
    if above + 1 + deepest > MAX_DEPTH {
      assert (above - 1) + deepest + 2 > MAX_DEPTH;
    }
    if WouldBeTooDeep(m, id, parent) {
      var y, j: nat, k: nat :| Up(m, y, k) == Some(id) && Up(m, parent, j).Some? && j + k + 2 > MAX_DEPTH;
      if j >= above {
        UpPrefix(m, parent, above, j);
      }
    }
  }

  method ReparentProblem(centers: seq<Center>, id: string, parent: string) returns (r: Option<Problem>)
    requires WellKeyed(centers) && id != ""
    ensures r == Verdict(ById(centers), id, parent)
  {
    hide Up, ById, Below;
    var m := ById(centers);
    LevelZero(m, id);
    BelowSelf(m, id);
    var below := Descendants.Descendants(centers, id);
    if parent == id || parent in below {
      return Some(Cycle);
    }
    var above := CountAbove(m, parent);
    if above.None? {
      assert MAX_DEPTH + 0 + 2 > MAX_DEPTH;
      return Some(TooDeep);
    }
    var deepest := CountBelow(centers, id);
    ghost var x :| Up(m, x, deepest) == Some(id);
    DepthVerdict(m, id, parent, above.value, deepest, x);
    if above.value + 1 + deepest > MAX_DEPTH {
      return Some(TooDeep);
    }
    return None;
  }

  lemma {:induction false} BelowSelf(m: Index, id: string)
    ensures Below(m, id, id)
  {
    assert Up(m, id, 0) == Some(id);
  }

  // ----- the guard is exact

  ghost predicate AllRooted(m: Index) {
    forall x :: x in m ==> Rooted(m, x, MAX_DEPTH)
  }

  lemma {:induction false} NeverHits(m: Index, parent: string, id: string, i: nat)
    requires Rooted(m, parent, MAX_DEPTH) && !WouldCycle(m, id, parent)
    ensures Up(m, parent, i) != Some(id)
  {
    if Up(m, parent, i) == Some(id) {
      RootedUp(m, parent, MAX_DEPTH, i);
    }
  }

  /** Accepted: every root path of the moved tree is again within the cap. */
  lemma {:induction false} AcceptedStaysRooted(m: Index, id: string, parent: string, x: string)
    requires id in m && parent in m && parent != "" && x in m
    requires AllRooted(m)
    requires Verdict(m, id, parent) == None
    ensures Rooted(Moved(m, id, Some(parent)), x, MAX_DEPTH)
  {
    hide Up;
    var m' := Moved(m, id, Some(parent));
    var a := RootedExact(m, parent, MAX_DEPTH);
    forall i: nat ensures Up(m, parent, i) != Some(id) {
      NeverHits(m, parent, id, i);
    }
    RootedUnmoved(m, id, Some(parent), parent, a);
    assert Rooted(m', id, a + 1);
    if k: nat :| Up(m, x, k) == Some(id) {
      var first := FirstHitExists(m, x, id, k);
      UpUnmoved(m, id, Some(parent), x, first);
      RootedFromAbove(m', x, first, a + 1);
      assert (a - 1) + first + 2 <= MAX_DEPTH;
      RootedMore(m', x, a + 1 + first, MAX_DEPTH);
    } else {
      RootedUnmoved(m, id, Some(parent), x, MAX_DEPTH);
    }
  }

  /** Following links from `id` comes back to it. */
  ghost predicate OnCycle(m: Index, id: string) {
    exists k: nat :: k > 0 && Up(m, id, k) == Some(id)
  }

  lemma {:induction false} RootedNotOnCycle(m: Index, id: string, n: nat)
    requires Rooted(m, id, n)
    ensures !OnCycle(m, id)
  {
    forall k: nat | k > 0 ensures Up(m, id, k) != Some(id) {
      NoCycle(m, id, n, k);
    }
  }

  lemma {:induction false} CycleRefused(m: Index, id: string, parent: string)
    requires id in m && parent != "" && WouldCycle(m, id, parent)
    ensures OnCycle(Moved(m, id, Some(parent)), id)
  {
    var k: nat :| k <= MAX_DEPTH && Up(m, parent, k) == Some(id);
    var first := FirstHitExists(m, parent, id, k);
    UpUnmoved(m, id, Some(parent), parent, first);
    assert Up(Moved(m, id, Some(parent)), id, first + 1) == Some(id);
  }

  /** Refused as too deep: some root path of the moved tree is longer than the cap. */
  lemma {:induction false} TooDeepRefused(m: Index, id: string, parent: string, x: string, j: nat, k: nat)
    requires id in m && parent in m && parent != ""
    requires AllRooted(m)
    requires !WouldCycle(m, id, parent)
    requires Up(m, x, k) == Some(id) && Up(m, parent, j).Some?
    ensures Up(Moved(m, id, Some(parent)), x, k + 1 + j).Some? && x in m
  {
    var m' := Moved(m, id, Some(parent));
    var first := FirstHitExists(m, x, id, k);
    if first < k {
      UpAdd(m, x, first, k - first);
      NoCycle(m, id, MAX_DEPTH, k - first);
    }
    UpUnmoved(m, id, Some(parent), x, k);
    forall i | 0 <= i < j ensures Up(m, parent, i) != Some(id) {
      NeverHits(m, parent, id, i);
    }
    UpUnmoved(m, id, Some(parent), parent, j);
    UpAdd(m', x, k, 1 + j);
    assert Up(m', id, 1 + j) == Up(m', parent, j);
  }

  /** The verdict on the index: acceptance, a cycle, or a path beyond the cap, each exactly. */
  lemma {:induction false} VerdictIsExact(m: Index, id: string, parent: string)
    requires AllRooted(m) && id in m && parent in m && parent != ""
    ensures Verdict(m, id, parent) == None <==> AllRooted(Moved(m, id, Some(parent)))
    ensures Verdict(m, id, parent) == Some(Cycle) <==> OnCycle(Moved(m, id, Some(parent)), id)
  {
    hide Up, Moved;
    var m' := Moved(m, id, Some(parent));
    MovedKeys(m, id, Some(parent));
    if Verdict(m, id, parent) == None {
      forall x | x in m' ensures Rooted(m', x, MAX_DEPTH) {
        AcceptedStaysRooted(m, id, parent, x);
      }
      RootedNotOnCycle(m', id, MAX_DEPTH);
    } else if WouldCycle(m, id, parent) {
      CycleRefused(m, id, parent);
      if AllRooted(m') {
        RootedNotOnCycle(m', id, MAX_DEPTH);
      }
    } else {
      var x, j: nat, k: nat :| Up(m, x, k) == Some(id) && Up(m, parent, j).Some? && j + k + 2 > MAX_DEPTH;
      TooDeepRefused(m, id, parent, x, j, k);
      if AllRooted(m') {
        RootedUp(m', x, MAX_DEPTH, k + 1 + j);
      }
      NoNewCycle(m, id, parent);
    }
  }

  lemma {:induction false} MovedKeys(m: Index, id: string, parent: Option<string>)
    ensures Moved(m, id, parent).Keys == m.Keys
  {
  }

  /** Without the cycle verdict the moved tree has no cycle through the center, however deep. */
  lemma {:induction false} NoNewCycle(m: Index, id: string, parent: string)
    requires id in m && parent in m && parent != ""
    requires AllRooted(m) && !WouldCycle(m, id, parent)
    ensures !OnCycle(Moved(m, id, Some(parent)), id)
  {
    var m' := Moved(m, id, Some(parent));
    forall k: nat | k > 0 ensures Up(m', id, k) != Some(id) {
      forall i: nat ensures Up(m, parent, i) != Some(id) {
        NeverHits(m, parent, id, i);
      }
      UpUnmoved(m, id, Some(parent), parent, k - 1);
    }
  }

  /** The guard accepts a move exactly when the tree stays acyclic, complete and within the cap. */
  lemma {:induction false} GuardIsExact(centers: seq<Center>, id: string, parent: string)
    requires GoodForest(centers) && id in ById(centers) && parent in ById(centers)
    ensures Verdict(ById(centers), id, parent) == None <==> GoodForest(WithParent(centers, id, Some(parent)))
    ensures Verdict(ById(centers), id, parent) == Some(Cycle)
       <==> OnCycle(ById(WithParent(centers, id, Some(parent))), id)
  {
    hide ById, Verdict, Moved;
    StoredNamed(centers, parent);
    WithParentIndex(centers, id, Some(parent));
    WithParentKeyed(centers, id, Some(parent));
    VerdictIsExact(ById(centers), id, parent);
  }

  lemma {:induction false} WithParentKeyed(centers: seq<Center>, id: string, parent: Option<string>)
    requires WellKeyed(centers)
    ensures WellKeyed(WithParent(centers, id, parent))
  {
  }

  lemma {:induction false} StoredNamed(centers: seq<Center>, id: string)
    requires WellKeyed(centers) && id in ById(centers)
    ensures id != ""
  {
    ByIdRows(centers);
    assert ById(centers)[id] in centers;
  }

  // ----- the management routes

  /** The placeholder id under which a new center is checked before it is stored. */
  const NEW_ID := "\0new"

  datatype Edit =
    | SetParent(id: string, parent: Option<string>)
    | Create(id: string, parent: Option<string>, active: bool)
    | SetActive(id: string, active: bool)

  ghost predicate ActiveCenter(m: Index, id: string) {
    id in m && m[id].active
  }

  /** One request: refused edits change nothing. */
  ghost function Apply(centers: seq<Center>, e: Edit): seq<Center>
  {
    var m := ById(centers);
    match e
    case SetParent(id, parent) =>
      if id !in m || parent == m[id].parentId then centers
      else if parent.None? then WithParent(centers, id, None)
      else if !ActiveCenter(m, parent.value) || Verdict(m, id, parent.value).Some? then centers
      else WithParent(centers, id, parent)
    case Create(id, parent, active) =>
      var placeholder := Center(NEW_ID, parent, true);
      if id in m || id == "" then centers
      else if parent.Some? && (!ActiveCenter(m, parent.value)
                               || Verdict(ById(centers + [placeholder]), NEW_ID, parent.value).Some?) then centers
      else centers + [Center(id, parent, active)]
    case SetActive(id, active) =>
      seq(|centers|, i requires 0 <= i < |centers| =>
        if centers[i].id == id then centers[i].(active := active) else centers[i])
  }

  ghost function Run(centers: seq<Center>, edits: seq<Edit>): seq<Center>
  {
    if |edits| == 0 then centers else Apply(Run(centers, edits[..|edits| - 1]), edits[|edits| - 1])
  }

  lemma {:induction false} DetachKeepsForest(centers: seq<Center>, id: string)
    requires GoodForest(centers)
    ensures GoodForest(WithParent(centers, id, None))
  {
    var m, m' := ById(centers), Moved(ById(centers), id, None);
    WithParentIndex(centers, id, None);
    assert WellKeyed(WithParent(centers, id, None));
    forall x | x in m' ensures Rooted(m', x, MAX_DEPTH) {
      DetachedRooted(m, id, x, MAX_DEPTH);
    }
  }

  lemma {:induction false} DetachedRooted(m: Index, id: string, x: string, n: nat)
    requires Rooted(m, x, n)
    ensures Rooted(Moved(m, id, None), x, n)
    decreases n
  {
    if x != id && m[x].Parent().Some? {
      DetachedRooted(m, id, m[x].Parent().value, n - 1);
    }
  }

  ghost predicate Extends(m: Index, m': Index) {
    forall x :: x in m ==> x in m' && m'[x].Parent() == m[x].Parent()
  }

  lemma {:induction false} ExtendedUp(m: Index, m': Index, x: string, k: nat)
    requires Extends(m, m') && Up(m, x, k).Some?
    ensures Up(m', x, k) == Up(m, x, k)
    decreases k
  {
    if k > 0 {
      ExtendedUp(m, m', m[x].Parent().value, k - 1);
    }
  }

  lemma {:induction false} ExtendedRooted(m: Index, m': Index, x: string, n: nat)
    requires Extends(m, m') && Rooted(m, x, n)
    ensures Rooted(m', x, n)
    decreases n
  {
    if m[x].Parent().Some? {
      ExtendedRooted(m, m', m[x].Parent().value, n - 1);
    }
  }

  lemma {:induction false} AppendIndex(centers: seq<Center>, c: Center)
    ensures ById(centers + [c]) == ById(centers)[c.id := c]
  {
    assert (centers + [c])[..|centers|] == centers;
  }

  lemma {:induction false} AppendKeyed(centers: seq<Center>, c: Center)
    requires WellKeyed(centers) && c.id !in ById(centers) && c.id != ""
    ensures WellKeyed(centers + [c])
  {
    ByIdRows(centers);
  }

  lemma {:induction false} CreateKeepsForest(centers: seq<Center>, c: Center)
    requires GoodForest(centers) && c.id !in ById(centers) && c.id != "" && NEW_ID !in ById(centers)
    requires c.Parent().Some? ==>
      c.Parent().value in ById(centers)
      && Verdict(ById(centers + [Center(NEW_ID, c.parentId, true)]), NEW_ID, c.Parent().value) == None
    ensures GoodForest(centers + [c])
  {
    var m := ById(centers);
    var m' := ById(centers + [c]);
    AppendIndex(centers, c);
    AppendIndex(centers, Center(NEW_ID, c.parentId, true));
    AppendKeyed(centers, c);
    forall x | x in m ensures Rooted(m', x, MAX_DEPTH) {
      ExtendedRooted(m, m', x, MAX_DEPTH);
    }
    if c.Parent().Some? {
      NewRowRooted(m, m', c);
    }
  }

  lemma {:induction false} NewRowRooted(m: Index, m': Index, c: Center)
    requires AllRooted(m) && c.id !in m && NEW_ID !in m && m' == m[c.id := c]
    requires c.Parent().Some? && c.Parent().value in m
    requires Verdict(m[NEW_ID := Center(NEW_ID, c.parentId, true)], NEW_ID, c.Parent().value) == None
    ensures Rooted(m', c.id, MAX_DEPTH)
  {
    var parent := c.Parent().value;
    var checked := m[NEW_ID := Center(NEW_ID, c.parentId, true)];
    var a := RootedExact(m, parent, MAX_DEPTH);
    ExtendedUp(m, checked, parent, a - 1);
    assert Up(checked, NEW_ID, 0) == Some(NEW_ID);
    assert (a - 1) + 0 + 2 <= MAX_DEPTH;
    ExtendedRooted(m, m', parent, a);
    assert Rooted(m', c.id, a + 1);
    RootedMore(m', c.id, a + 1, MAX_DEPTH);
  }

  lemma {:induction false} ActiveIndex(centers: seq<Center>, id: string, active: bool)
    ensures ById(Apply(centers, SetActive(id, active))).Keys == ById(centers).Keys
    ensures Extends(ById(centers), ById(Apply(centers, SetActive(id, active))))
  {
    if |centers| > 0 {
      var n := |centers| - 1;
      ActiveIndex(centers[..n], id, active);
      assert Apply(centers, SetActive(id, active))[..n] == Apply(centers[..n], SetActive(id, active));
    }
  }

  /** Rows never hold the placeholder id, and no request can name it (ids come from the database). */
  ghost predicate PlaceholderFree(centers: seq<Center>) {
    NEW_ID !in ById(centers)
  }

  ghost predicate StoredId(e: Edit) {
    e.Create? ==> e.id != NEW_ID
  }

  /** A well-formed tree whose rows do not use the placeholder. */
  ghost predicate Sound(centers: seq<Center>) {
    GoodForest(centers) && PlaceholderFree(centers)
  }

  lemma {:induction false} MoveKeepsForest(centers: seq<Center>, id: string, parent: Option<string>)
    requires Sound(centers)
    ensures Sound(Apply(centers, SetParent(id, parent)))
  {
    hide ById, Moved, WithParent, Verdict, Rooted, WellKeyed;
    if Apply(centers, SetParent(id, parent)) != centers {
      MovedKeepsPlaceholder(centers, id, parent);
      if parent.None? {
        DetachKeepsForest(centers, id);
      } else {
        GuardIsExact(centers, id, parent.value);
      }
    }
  }

  lemma {:induction false} MovedKeepsPlaceholder(centers: seq<Center>, id: string, parent: Option<string>)
    requires PlaceholderFree(centers)
    ensures PlaceholderFree(WithParent(centers, id, parent))
  {
    hide ById, WithParent;
    WithParentIndex(centers, id, parent);
  }

  lemma {:induction false} CreationKeepsForest(centers: seq<Center>, id: string, parent: Option<string>, active: bool)
    requires Sound(centers) && id != NEW_ID
    ensures Sound(Apply(centers, Create(id, parent, active)))
  {
    hide ById, Verdict, GoodForest;
    var c := Center(id, parent, active);
    if Apply(centers, Create(id, parent, active)) != centers {
      AppendIndex(centers, c);
      CreateKeepsForest(centers, c);
    }
  }

  lemma {:induction false} ActivationKeepsForest(centers: seq<Center>, id: string, active: bool)
    requires Sound(centers)
    ensures Sound(Apply(centers, SetActive(id, active)))
  {
    hide ById, Rooted;
    var after := Apply(centers, SetActive(id, active));
    ActiveIndex(centers, id, active);
    ActiveKeyed(centers, id, active);
    forall x | x in ById(after) ensures Rooted(ById(after), x, MAX_DEPTH) {
      ExtendedRooted(ById(centers), ById(after), x, MAX_DEPTH);
    }
  }

  lemma {:induction false} ActiveKeyed(centers: seq<Center>, id: string, active: bool)
    requires WellKeyed(centers)
    ensures WellKeyed(Apply(centers, SetActive(id, active)))
  {
  }

  // ----- what a request changes

  /** The links above a rooted row are the same in any larger table. */
  lemma {:induction false} SameUp(m: Index, m': Index, x: string, n: nat, k: nat)
    requires Extends(m, m') && Rooted(m, x, n)
    ensures Up(m', x, k) == Up(m, x, k) && (Up(m, x, k).Some? ==> Up(m, x, k).value in m)
    decreases k
  {
    if k > 0 && m[x].Parent().Some? {
      SameUp(m, m', m[x].Parent().value, n - 1, k - 1);
    }
  }

  /** The check of a new center refuses only what would break the tree. */
  lemma {:induction false} CreationRefused(centers: seq<Center>, c: Center)
    requires Sound(centers) && c.id !in ById(centers) && c.Parent().Some? && c.Parent().value in ById(centers)
    requires Verdict(ById(centers + [Center(NEW_ID, c.parentId, true)]), NEW_ID, c.Parent().value).Some?
    ensures !GoodForest(centers + [c])
  {
    hide ById, Rooted;
    var m, parent := ById(centers), c.Parent().value;
    var row := Center(NEW_ID, c.parentId, true);
    var checked, m' := m[NEW_ID := row], m[c.id := c];
    AppendIndex(centers, row);
    AppendIndex(centers, c);
    forall k: nat ensures Up(checked, parent, k) != Some(NEW_ID) && Up(checked, parent, k) == Up(m', parent, k) {
      SameUp(m, checked, parent, MAX_DEPTH, k);
      SameUp(m, m', parent, MAX_DEPTH, k);
    }
    var x, j: nat, k: nat :|
      Up(checked, x, k) == Some(NEW_ID) && Up(checked, parent, j).Some? && j + k + 2 > MAX_DEPTH;
    OnlyItself(m, checked, x, k);
    assert Up(m', c.id, j + 1) == Up(m', parent, j);
    if Rooted(m', c.id, MAX_DEPTH) {
      RootedUp(m', c.id, MAX_DEPTH, j + 1);
    }
  }

  /** Nothing lies below a row that no other names. */
  lemma {:induction false} OnlyItself(m: Index, checked: Index, x: string, k: nat)
    requires AllRooted(m) && NEW_ID !in m && NEW_ID in checked && checked == m[NEW_ID := checked[NEW_ID]]
    requires checked[NEW_ID].Parent().Some? ==> checked[NEW_ID].Parent().value in m
    requires Up(checked, x, k) == Some(NEW_ID)
    ensures k == 0
  {
    hide Rooted;
    if k > 0 {
      if x in m {
        SameUp(m, checked, x, MAX_DEPTH, k);
      } else {
        SameUp(m, checked, checked[x].Parent().value, MAX_DEPTH, k - 1);
      }
    }
  }

  /** A move changes that one parent, exactly when the new parent is active and the moved tree is well formed. */
  lemma {:induction false} MoveExactly(centers: seq<Center>, id: string, parent: Option<string>)
    requires Sound(centers) && id in ById(centers)
    ensures var m, after := ById(centers), Apply(centers, SetParent(id, parent));
            |after| == |centers|
            && (forall i :: 0 <= i < |after| && centers[i].id != id ==> after[i] == centers[i])
            && (forall i :: 0 <= i < |after| && centers[i].id == id ==>
                  after[i] == centers[i].(parentId := if Movable(centers, id, parent) then parent else m[id].parentId))
  {
    hide ById, Moved, Verdict, GoodForest;
    var m := ById(centers);
    RowsAreIndexed(centers, id);
    if parent.Some? && ActiveCenter(m, parent.value) {
      GuardIsExact(centers, id, parent.value);
    }
  }

  ghost predicate Movable(centers: seq<Center>, id: string, parent: Option<string>) {
    parent.Some? ==> ActiveCenter(ById(centers), parent.value) && GoodForest(WithParent(centers, id, parent))
  }

  lemma {:induction false} RowsAreIndexed(centers: seq<Center>, id: string)
    requires GoodForest(centers) && id in ById(centers)
    ensures forall i :: 0 <= i < |centers| && centers[i].id == id ==> centers[i] == ById(centers)[id]
  {
    ByIdRows(centers);
  }

  /** A new id is stored exactly when its parent is active and the tree with the new row is well formed. */
  lemma {:induction false} CreateExactly(centers: seq<Center>, id: string, parent: Option<string>, active: bool)
    requires Sound(centers) && id !in ById(centers) && id != "" && id != NEW_ID
    ensures var row := Center(id, parent, active);
            Apply(centers, Create(id, parent, active))
            == if parent.Some? ==> ActiveCenter(ById(centers), parent.value) && GoodForest(centers + [row])
               then centers + [row] else centers
  {
    hide ById, Verdict, GoodForest;
    var row := Center(id, parent, active);
    var m := ById(centers);
    if parent.Some? && ActiveCenter(m, parent.value) {
      StoredNotEmpty(centers, parent.value);
      if Verdict(ById(centers + [Center(NEW_ID, parent, true)]), NEW_ID, parent.value).Some? {
        CreationRefused(centers, row);
      } else {
        CreateKeepsForest(centers, row);
      }
    }
  }

  lemma {:induction false} StoredNotEmpty(centers: seq<Center>, id: string)
    requires GoodForest(centers) && id in ById(centers)
    ensures id != ""
  {
    StoredNamed(centers, id);
  }

  /** Switching a center on or off changes that flag and nothing else. */
  lemma {:induction false} ActivateExactly(centers: seq<Center>, id: string, active: bool)
    ensures var after := Apply(centers, SetActive(id, active));
            |after| == |centers|
            && forall i :: 0 <= i < |after| ==>
                 after[i].id == centers[i].id && after[i].parentId == centers[i].parentId
                 && after[i].active == if centers[i].id == id then active else centers[i].active
  {
    hide ById;
  }

  lemma {:induction false} ApplyKeepsForest(centers: seq<Center>, e: Edit)
    requires GoodForest(centers) && PlaceholderFree(centers) && StoredId(e)
    ensures GoodForest(Apply(centers, e)) && PlaceholderFree(Apply(centers, e))
  {
    hide GoodForest, PlaceholderFree, Apply;
    match e {
      case SetParent(id, parent) => MoveKeepsForest(centers, id, parent);
      case Create(id, parent, active) => CreationKeepsForest(centers, id, parent, active);
      case SetActive(id, active) => ActivationKeepsForest(centers, id, active);
    }
  }

  /** Every run of accepted moves, creations and activations keeps the tree well formed. */
  lemma {:induction false} RunKeepsForest(centers: seq<Center>, edits: seq<Edit>)
    requires GoodForest(centers) && PlaceholderFree(centers)
    requires forall i :: 0 <= i < |edits| ==> StoredId(edits[i])
    ensures GoodForest(Run(centers, edits)) && PlaceholderFree(Run(centers, edits))
  {
    if |edits| > 0 {
      RunKeepsForest(centers, edits[..|edits| - 1]);
      ApplyKeepsForest(Run(centers, edits[..|edits| - 1]), edits[|edits| - 1]);
    }
  }
}
