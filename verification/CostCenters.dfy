/**
The cost-center tree as stored rows (backend-rs/src/chain.rs).

`ById` is the table the Rust code builds from the rows: a later row of an id replaces an
earlier one. Everything else is said through parent links:

- `Up` follows `k` of them; `Rooted` says that the root is reached within a number of nodes;
- `GoodForest` is what the guard has to keep, and what the evaluator relies on.
*/
module CostCenters {
  import opened Wrappers

  const MAX_DEPTH := 32

  datatype Center = Center(id: string, parentId: Option<string>, active: bool) {
    /** An empty parent id counts as no parent. */
    function Parent(): Option<string> {
      if parentId.Some? && parentId.value == "" then None else parentId
    }
  }

  type Index = map<string, Center>

  /** The lookup table built from the rows; a later row wins over an earlier one with the same id. */
  function ById(centers: seq<Center>): (m: Index)
    ensures forall id :: id in m ==> m[id].id == id
  {
    if |centers| == 0 then map[]
    else
      var last := centers[|centers| - 1];
      ById(centers[..|centers| - 1])[last.id := last]
  }

  ghost predicate UniqueIds(centers: seq<Center>) {
    forall i, j :: 0 <= i < j < |centers| ==> centers[i].id != centers[j].id
  }

  /** Row ids are a primary key and never empty. */
  ghost predicate WellKeyed(centers: seq<Center>) {
    UniqueIds(centers) && forall i :: 0 <= i < |centers| ==> centers[i].id != ""
  }

  lemma {:induction false} ByIdRows(centers: seq<Center>)
    ensures forall id :: id in ById(centers) ==> ById(centers)[id] in centers
    ensures forall i :: 0 <= i < |centers| ==> centers[i].id in ById(centers)
    ensures UniqueIds(centers) ==> forall i :: 0 <= i < |centers| ==> ById(centers)[centers[i].id] == centers[i]
  {
    if |centers| > 0 {
      ByIdRows(centers[..|centers| - 1]);
    }
  }

  // ----- following parent links

  /** The node `k` parent links above `id`; only a stored node has a link. */
  function Up(m: Index, id: string, k: nat): Option<string>
    decreases k
  {
    if k == 0 then Some(id)
    else if id in m && m[id].Parent().Some? then Up(m, m[id].Parent().value, k - 1)
    else None
  }

  /** Each node of the path is stored and names the next one as its parent. */
  ghost predicate IsPath(m: Index, path: seq<string>) {
    forall i, j :: 0 <= i < |path| && j == i + 1 && j < |path| ==> Link(m, path[i], path[j])
  }

  ghost predicate Link(m: Index, a: string, b: string) {
    a in m && b != "" && m[a].parentId == Some(b)
  }

  /** `Up` ends a path of `k` parent links, said on the stored rows. */
  lemma {:induction false} UpIsPath(m: Index, id: string, k: nat, x: string)
    ensures Up(m, id, k) == Some(x)
       <==> exists path: seq<string> :: |path| == k + 1 && path[0] == id && path[k] == x && IsPath(m, path)
    decreases k
  {
    if k == 0 {
      if id == x {
        var path := [id];
        assert |path| == 1 && path[0] == id && path[0] == x && IsPath(m, path);
      }
    } else {
      if id in m && m[id].Parent().Some? {
        var p := m[id].Parent().value;
        UpIsPath(m, p, k - 1, x);
        if rest: seq<string> :| |rest| == k && rest[0] == p && rest[k - 1] == x && IsPath(m, rest) {
          LongerPath(m, id, rest);
          assert ([id] + rest)[k] == x;
        }
      }
      if path: seq<string> :| |path| == k + 1 && path[0] == id && path[k] == x && IsPath(m, path) {
        var rest := path[1..];
        assert Link(m, path[0], path[1]);
        assert forall i :: 0 <= i < |rest| ==> rest[i] == path[i + 1];
        assert IsPath(m, rest);
        assert |rest| == k && rest[0] == path[1] && rest[k - 1] == x;
      }
    }
  }

  lemma {:induction false} LongerPath(m: Index, id: string, rest: seq<string>)
    requires |rest| > 0 && IsPath(m, rest) && Link(m, id, rest[0])
    ensures IsPath(m, [id] + rest)
  {
    var path := [id] + rest;
    forall i, j | 0 <= i < |path| && j == i + 1 && j < |path| ensures Link(m, path[i], path[j]) {
      assert path[j] == rest[i];
      assert i > 0 ==> path[i] == rest[i - 1];
    }
  }

  ghost predicate LastAt(centers: seq<Center>, id: string, c: Center, i: nat) {
    i < |centers| && centers[i] == c && c.id == id && forall j :: i < j < |centers| ==> centers[j].id != id
  }

  /** The table holds the last row of each id. */
  lemma {:induction false} ByIdIsLast(centers: seq<Center>, id: string, c: Center)
    ensures id in ById(centers) && ById(centers)[id] == c <==> exists i: nat :: LastAt(centers, id, c, i)
  {
    if |centers| > 0 {
      var n := |centers| - 1;
      if centers[n].id == id {
        if centers[n] == c {
          assert LastAt(centers, id, c, n);
        }
      } else {
        ByIdIsLast(centers[..n], id, c);
        hide ById;
        forall i: nat ensures LastAt(centers[..n], id, c, i) <==> LastAt(centers, id, c, i) {
          LastBefore(centers, id, c, i);
        }
      }
    }
  }

  lemma {:induction false} LastBefore(centers: seq<Center>, id: string, c: Center, i: nat)
    requires |centers| > 0 && centers[|centers| - 1].id != id
    ensures LastAt(centers[..|centers| - 1], id, c, i) <==> LastAt(centers, id, c, i)
  {
    var init := centers[..|centers| - 1];
    assert forall j :: 0 <= j < |init| ==> init[j] == centers[j];
  }

  lemma {:induction false} UpAdd(m: Index, id: string, j: nat, k: nat)
    requires Up(m, id, j).Some?
    ensures Up(m, id, j + k) == Up(m, Up(m, id, j).value, k)
    decreases j
  {
    if j > 0 {
      UpAdd(m, m[id].Parent().value, j - 1, k);
    }
  }

  lemma {:induction false} UpPrefix(m: Index, id: string, j: nat, k: nat)
    requires j <= k && Up(m, id, k).Some?
    ensures Up(m, id, j).Some?
    decreases j
  {
    if j > 0 {
      UpPrefix(m, m[id].Parent().value, j - 1, k - 1);
    }
  }

  /** `top` is reached from `id` for the first time after `k` links. */
  ghost predicate FirstHit(m: Index, id: string, top: string, k: nat) {
    Up(m, id, k) == Some(top) && forall i :: 0 <= i < k ==> Up(m, id, i) != Some(top)
  }

  lemma {:induction false} FirstHitExists(m: Index, id: string, top: string, k: nat) returns (first: nat)
    requires Up(m, id, k) == Some(top)
    ensures first <= k && FirstHit(m, id, top, first)
  {
    first := 0;
    while Up(m, id, first) != Some(top)
      invariant first <= k
      invariant forall i :: 0 <= i < first ==> Up(m, id, i) != Some(top)
      decreases k - first
    {
      first := first + 1;
    }
  }

  /** `id` is `top` or lies below it, within the depth cap. */
  ghost predicate Below(m: Index, id: string, top: string) {
    exists k: nat :: k <= MAX_DEPTH && Up(m, id, k) == Some(top)
  }

  // ----- well-formed trees

  /** The links from `id` end at a root, all stored, with at most `n` nodes on the way. */
  ghost predicate Rooted(m: Index, id: string, n: nat)
    decreases n
  {
    n > 0 && id in m && (m[id].Parent().Some? ==> Rooted(m, m[id].Parent().value, n - 1))
  }

  /** Unique ids, every parent stored, no cycle, and no root path longer than the cap. */
  ghost predicate GoodForest(centers: seq<Center>) {
    WellKeyed(centers) && forall id :: id in ById(centers) ==> Rooted(ById(centers), id, MAX_DEPTH)
  }

  lemma {:induction false} RootedMore(m: Index, id: string, n: nat, n': nat)
    requires n <= n' && Rooted(m, id, n)
    ensures Rooted(m, id, n')
    decreases n
  {
    if m[id].Parent().Some? {
      RootedMore(m, m[id].Parent().value, n - 1, n' - 1);
    }
  }

  lemma {:induction false} RootedUp(m: Index, id: string, n: nat, k: nat)
    requires Rooted(m, id, n) && Up(m, id, k).Some?
    ensures k < n && Rooted(m, Up(m, id, k).value, n - k)
    decreases k
  {
    if k > 0 {
      RootedUp(m, m[id].Parent().value, n - 1, k - 1);
    }
  }

  lemma {:induction false} RootedFromAbove(m: Index, id: string, k: nat, n: nat)
    requires Up(m, id, k).Some? && Rooted(m, Up(m, id, k).value, n)
    ensures Rooted(m, id, n + k)
    decreases k
  {
    if k > 0 {
      RootedFromAbove(m, m[id].Parent().value, k - 1, n);
    }
  }

  lemma {:induction false} CycleNeverEnds(m: Index, id: string, k: nat, t: nat)
    requires k > 0 && Up(m, id, k) == Some(id)
    ensures Up(m, id, t).Some?
    decreases t
  {
    if t <= k {
      UpPrefix(m, id, t, k);
    } else {
      UpAdd(m, id, k, t - k);
      CycleNeverEnds(m, id, k, t - k);
    }
  }

  /** A rooted node is never on a cycle. */
  lemma {:induction false} NoCycle(m: Index, id: string, n: nat, k: nat)
    requires Rooted(m, id, n) && k > 0
    ensures Up(m, id, k) != Some(id)
  {
    if Up(m, id, k) == Some(id) {
      CycleNeverEnds(m, id, k, n);
      RootedUp(m, id, n, n);
    }
  }

  /** The exact number of nodes on the way to the root. */
  lemma {:induction false} RootedExact(m: Index, id: string, n: nat) returns (a: nat)
    requires Rooted(m, id, n)
    ensures 0 < a <= n && Rooted(m, id, a)
    ensures Up(m, id, a - 1).Some? && Up(m, id, a) == None
    decreases n
  {
    if m[id].Parent().Some? {
      var b := RootedExact(m, m[id].Parent().value, n - 1);
      a := b + 1;
    } else {
      a := 1;
    }
  }

  // ----- moving one center

  function MovedRow(c: Center, id: string, parent: Option<string>): Center {
    if c.id == id then c.(parentId := parent) else c
  }

  /** The rows after one center gets a new parent. */
  function WithParent(centers: seq<Center>, id: string, parent: Option<string>): (r: seq<Center>)
    ensures |r| == |centers|
  {
    seq(|centers|, i requires 0 <= i < |centers| =>
      MovedRow(centers[i], id, parent))
  }

  /** The index after the move. */
  function Moved(m: Index, id: string, parent: Option<string>): Index
  {
    map x | x in m :: if x == id then m[x].(parentId := parent) else m[x]
  }

  lemma {:induction false} MovedInsert(m: Index, c: Center, id: string, parent: Option<string>)
    ensures Moved(m[c.id := c], id, parent) == Moved(m, id, parent)[c.id := MovedRow(c, id, parent)]
  {
  }

  lemma {:induction false} WithParentIndex(centers: seq<Center>, id: string, parent: Option<string>)
    ensures ById(WithParent(centers, id, parent)) == Moved(ById(centers), id, parent)
  {
    if |centers| > 0 {
      hide Moved;
      var n := |centers| - 1;
      WithParentIndex(centers[..n], id, parent);
      MovedInsert(ById(centers[..n]), centers[n], id, parent);
      assert WithParent(centers, id, parent)[..n] == WithParent(centers[..n], id, parent);
    }
  }

  /** A path that does not pass through the moved node is unchanged. */
  lemma {:induction false} UpUnmoved(m: Index, id: string, parent: Option<string>, x: string, k: nat)
    requires forall i :: 0 <= i < k ==> Up(m, x, i) != Some(id)
    ensures Up(Moved(m, id, parent), x, k) == Up(m, x, k)
    decreases k
  {
    if k > 0 {
      assert Up(m, x, 0) != Some(id);
      if x in m && m[x].Parent().Some? {
        var p := m[x].Parent().value;
        forall i | 0 <= i < k - 1 ensures Up(m, p, i) != Some(id) {
          assert Up(m, x, i + 1) == Up(m, p, i);
        }
        UpUnmoved(m, id, parent, p, k - 1);
      }
    }
  }

  lemma {:induction false} RootedUnmoved(m: Index, id: string, parent: Option<string>, x: string, n: nat)
    requires Rooted(m, x, n)
    requires forall i: nat :: Up(m, x, i) != Some(id)
    ensures Rooted(Moved(m, id, parent), x, n)
    decreases n
  {
    assert Up(m, x, 0) != Some(id);
    if m[x].Parent().Some? {
      var p := m[x].Parent().value;
      forall i: nat ensures Up(m, p, i) != Some(id) {
        assert Up(m, x, i + 1) == Up(m, p, i);
      }
      RootedUnmoved(m, id, parent, p, n - 1);
    }
  }
}
