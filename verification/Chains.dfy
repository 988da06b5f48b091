/** Which approval chain and band govern an order (backend-rs/src/chain.rs:62-277). */
module Chains {
  import opened Wrappers
  import opened Sorting
  import opened Json
  import opened CostCenters

  const MAX_LEVELS := 5
  const MAX_USERS_PER_LEVEL := 20
  const MAX_BANDS := 10
  const EPS := 0.005

  datatype Level = Role(role: string) | Users(ids: seq<string>)

  datatype Band = Band(minAmount: real, levels: seq<Level>)

  datatype Chain = Chain(id: string, costCenterId: Option<string>, active: bool, bands: Json)

  datatype Reason = NoCostCenter | CostCenterInvalid | NoChain | ChainInvalid | AmountUnknown

  datatype Lookup = Found(chain: Chain) | Missing(reason: Reason)

  datatype Resolution =
    | NotRequired(chainId: Option<string>, center: Option<string>)
    | Required(chain: string, band: Band, escalated: bool, center: Option<string>)
    | Unresolved(reason: Reason, chainId: Option<string>, center: Option<string>)

  // ----- finding the chain

  /** The first active chain attached to `key` (`None`: the default chain). */
  function FirstChain(chains: seq<Chain>, key: Option<string>): Option<Chain>
  {
    if |chains| == 0 then None
    else if chains[0].active && chains[0].costCenterId == key then Some(chains[0])
    else FirstChain(chains[1..], key)
  }

  predicate AnyActive(chains: seq<Chain>) {
    exists i :: 0 <= i < |chains| && chains[i].active
  }

  datatype Walk = Hit(chain: Chain) | Root | Broken

  /** The ancestor walk from `id`, examining at most `n` nodes. */
  function Search(m: Index, chains: seq<Chain>, id: string, n: nat): Walk
    decreases n
  {
    if n == 0 || id !in m then Broken
    else if FirstChain(chains, Some(id)).Some? then Hit(FirstChain(chains, Some(id)).value)
    else if m[id].Parent().None? then Root
    else Search(m, chains, m[id].Parent().value, n - 1)
  }

  function DefaultOr(chains: seq<Chain>, reason: Reason): Lookup {
    match FirstChain(chains, None)
    case Some(c) => Found(c)
    case None => Missing(reason)
  }

  function ChainFor(chains: seq<Chain>, m: Index, centerId: Option<string>): Lookup {
    match centerId
    case None => DefaultOr(chains, NoCostCenter)
    case Some(id) =>
      if id !in m || !m[id].active then Missing(CostCenterInvalid)
      else match Search(m, chains, id, MAX_DEPTH + 1)
        case Hit(c) => Found(c)
        case Root => DefaultOr(chains, NoChain)
        case Broken => Missing(CostCenterInvalid)
  }

  /** Nodes already walked: stored, without a chain, each leading to another walked node or to `next`. */
  ghost predicate Walked(m: Index, chains: seq<Chain>, visited: set<string>, next: string) {
    forall y :: y in visited ==>
      y in m && FirstChain(chains, Some(y)).None? && m[y].Parent().Some?
      && (m[y].Parent().value in visited || m[y].Parent().value == next)
  }

  /** A walk that comes back to a visited node would never find anything. */
  lemma {:induction false} LoopIsBroken(m: Index, chains: seq<Chain>, visited: set<string>, next: string, x: string,
                                        n: nat)
    requires Walked(m, chains, visited, next) && next in visited && x in visited
    ensures Search(m, chains, x, n) == Broken
    decreases n
  {
    if n > 0 {
      LoopIsBroken(m, chains, visited, next, m[x].Parent().value, n - 1);
    }
  }

  method FindChain(chains: seq<Chain>, centers: seq<Center>, centerId: Option<string>) returns (r: Lookup)
    ensures r == ChainFor(chains, ById(centers), centerId)
  {
    if centerId.None? {
      return DefaultOr(chains, NoCostCenter);
    }
    var m := ById(centers);
    var id := centerId.value;
    if id !in m || !m[id].active {
      return Missing(CostCenterInvalid);
    }
    var node := Some(id);
    var visited: set<string> := {};
    var depth := 0;
    while node.Some?
      invariant depth <= MAX_DEPTH + 1
      invariant node.Some? ==>
        node.value in m && Walked(m, chains, visited, node.value)
        && Search(m, chains, node.value, MAX_DEPTH + 1 - depth) == Search(m, chains, id, MAX_DEPTH + 1)
      invariant node.None? ==> Search(m, chains, id, MAX_DEPTH + 1) == Root
      decreases MAX_DEPTH + 2 - depth, node
    {
      var n := node.value;
      if n in visited || depth > MAX_DEPTH {
        if n in visited {
          LoopIsBroken(m, chains, visited, n, n, MAX_DEPTH + 1 - depth);
        }
        return Missing(CostCenterInvalid);
      }
      var c := FirstChain(chains, Some(n));
      if c.Some? {
        return Found(c.value);
      }
      visited := visited + {n};
      var parent := m[n].Parent();
      depth := depth + 1;
      if parent.Some? && parent.value !in m {
        return Missing(CostCenterInvalid);
      }
      node := parent;
    }
    r := DefaultOr(chains, NoChain);
  }

  /** `a` is `k` links above `id` and is the nearest such node with an active chain. */
  ghost predicate Nearest(m: Index, chains: seq<Chain>, id: string, k: nat, c: Chain) {
    Up(m, id, k).Some? && Up(m, id, k).value in m && FirstChain(chains, Up(m, id, k)) == Some(c)
    && forall j: nat :: j < k && Up(m, id, j).Some? ==> FirstChain(chains, Up(m, id, j)).None?
  }

  lemma {:induction false} SearchIsNearest(m: Index, chains: seq<Chain>, id: string, n: nat, c: Chain)
    ensures Search(m, chains, id, n) == Hit(c) <==> exists k: nat :: k < n && Nearest(m, chains, id, k, c)
    decreases n
  {
    if n == 0 || id !in m {
      forall k: nat | k < n ensures !Nearest(m, chains, id, k, c) {
        if k == 0 {
          assert Up(m, id, 0) == Some(id);
        }
      }
    } else if FirstChain(chains, Some(id)).Some? {
      assert Up(m, id, 0) == Some(id);
      if Search(m, chains, id, n) == Hit(c) {
        assert Nearest(m, chains, id, 0, c);
      }
    } else if m[id].Parent().None? {
      forall k: nat | k < n ensures !Nearest(m, chains, id, k, c) {
        assert Up(m, id, 0) == Some(id);
      }
    } else {
      var p := m[id].Parent().value;
      SearchIsNearest(m, chains, p, n - 1, c);
      if Search(m, chains, id, n) == Hit(c) {
        var k: nat :| k < n - 1 && Nearest(m, chains, p, k, c);
        NearestStep(m, chains, id, k, c);
        assert Nearest(m, chains, id, k + 1, c);
      }
      if k: nat :| k < n && Nearest(m, chains, id, k, c) {
        assert k > 0;
        NearestStep(m, chains, id, k - 1, c);
      }
    }
  }

  lemma {:induction false} NearestStep(m: Index, chains: seq<Chain>, id: string, k: nat, c: Chain)
    requires id in m && m[id].Parent().Some? && FirstChain(chains, Some(id)).None?
    ensures Nearest(m, chains, id, k + 1, c) <==> Nearest(m, chains, m[id].Parent().value, k, c)
  {
    var p := m[id].Parent().value;
    assert forall j: nat :: Up(m, id, j + 1) == Up(m, p, j);
    if Nearest(m, chains, p, k, c) {
      forall j: nat | j < k + 1 && Up(m, id, j).Some? ensures FirstChain(chains, Up(m, id, j)).None? {
        if j > 0 {
          assert Up(m, p, j - 1).Some?;
        }
      }
    }
    if Nearest(m, chains, id, k + 1, c) {
      forall j: nat | j < k && Up(m, p, j).Some? ensures FirstChain(chains, Up(m, p, j)).None? {
        assert Up(m, id, j + 1).Some?;
      }
    }
  }

  /** `k` links up stands a stored center without a parent, and no chain of its own was found on the way. */
  ghost predicate ReachesRoot(m: Index, chains: seq<Chain>, id: string, k: nat) {
    Up(m, id, k).Some? && Up(m, id, k).value in m && m[Up(m, id, k).value].Parent().None?
    && forall j: nat :: j <= k && Up(m, id, j).Some? ==> FirstChain(chains, Up(m, id, j)).None?
  }

  /** The walk falls back to the default exactly when it reaches such a root within its budget. */
  lemma {:induction false} SearchIsRoot(m: Index, chains: seq<Chain>, id: string, n: nat)
    ensures Search(m, chains, id, n) == Root <==> exists k: nat :: k < n && ReachesRoot(m, chains, id, k)
    decreases n
  {
    assert Up(m, id, 0) == Some(id);
    if n == 0 || id !in m || FirstChain(chains, Some(id)).Some? {
      forall k: nat | k < n ensures !ReachesRoot(m, chains, id, k) {
      }
    } else if m[id].Parent().None? {
      assert ReachesRoot(m, chains, id, 0);
    } else {
      var p := m[id].Parent().value;
      SearchIsRoot(m, chains, p, n - 1);
      if Search(m, chains, id, n) == Root {
        var k: nat :| k < n - 1 && ReachesRoot(m, chains, p, k);
        RootStep(m, chains, id, k);
        assert ReachesRoot(m, chains, id, k + 1);
      }
      if k: nat :| k < n && ReachesRoot(m, chains, id, k) {
        assert k > 0;
        RootStep(m, chains, id, k - 1);
      }
    }
  }

  lemma {:induction false} RootStep(m: Index, chains: seq<Chain>, id: string, k: nat)
    requires id in m && m[id].Parent().Some? && FirstChain(chains, Some(id)).None?
    ensures ReachesRoot(m, chains, id, k + 1) <==> ReachesRoot(m, chains, m[id].Parent().value, k)
  {
    var p := m[id].Parent().value;
    assert forall j: nat :: Up(m, id, j + 1) == Up(m, p, j);
    if ReachesRoot(m, chains, p, k) {
      forall j: nat | j <= k + 1 && Up(m, id, j).Some? ensures FirstChain(chains, Up(m, id, j)).None? {
        if j > 0 {
          assert Up(m, p, j - 1).Some?;
        }
      }
    }
    if ReachesRoot(m, chains, id, k + 1) {
      forall j: nat | j <= k && Up(m, p, j).Some? ensures FirstChain(chains, Up(m, p, j)).None? {
        assert Up(m, id, j + 1).Some?;
      }
    }
  }

  lemma {:induction false} RootedIsNotBroken(m: Index, chains: seq<Chain>, id: string, n: nat, budget: nat)
    requires Rooted(m, id, n) && n <= budget
    ensures Search(m, chains, id, budget) != Broken
    decreases n
  {
    if m[id].Parent().Some? {
      RootedIsNotBroken(m, chains, m[id].Parent().value, n - 1, budget - 1);
    }
  }

  /** On a well-formed tree an active center is never answered `cost_center_invalid`. */
  lemma {:induction false} GoodForestAnswers(chains: seq<Chain>, centers: seq<Center>, id: string)
    requires GoodForest(centers) && id in ById(centers) && ById(centers)[id].active
    ensures ChainFor(chains, ById(centers), Some(id)) != Missing(CostCenterInvalid)
  {
    RootedIsNotBroken(ById(centers), chains, id, MAX_DEPTH, MAX_DEPTH + 1);
  }

  // ----- levels

  predicate IsRole(role: string) {
    role == "analyst" || role == "admin"
  }

  /** Drops each element equal to the one before it. */
  function Dedup(s: seq<string>): seq<string>
  {
    if |s| == 0 then []
    else if |s| > 1 && s[0] == s[1] then Dedup(s[1..])
    else [s[0]] + Dedup(s[1..])
  }

  function UserIds(items: seq<Json>): Option<seq<string>>
  {
    if |items| == 0 then Some([])
    else if !items[0].Str? || items[0].s == "" then None
    else match UserIds(items[1..])
      case None => None
      case Some(rest) => Some([items[0].s] + rest)
  }

  function NormalizeLevel(raw: Json): Option<Level> {
    if !raw.Obj? then None
    else match Get(raw.fields, "kind")
      case Some(Str(kind)) =>
        if kind == "role" then
          match Get(raw.fields, "role")
          case Some(Str(role)) => if IsRole(role) then Some(Role(role)) else None
          case _ => None
        else if kind == "users" then
          match Get(raw.fields, "user_ids")
          case Some(Arr(ids)) =>
            if |ids| == 0 || |ids| > MAX_USERS_PER_LEVEL then None
            else (match UserIds(ids)
                  case None => None
                  case Some(names) => Some(Users(Dedup(Sort(names, StringLeq)))))
          case _ => None
        else None
      case _ => None
  }

  function NormalizeAll(items: seq<Json>): Option<seq<Level>>
  {
    if |items| == 0 then Some([])
    else match NormalizeLevel(items[0])
      case None => None
      case Some(l) =>
        (match NormalizeAll(items[1..])
         case None => None
         case Some(rest) => Some([l] + rest))
  }

  function NormalizeLevels(raw: Json): Option<seq<Level>> {
    if !raw.Arr? || |raw.items| == 0 || |raw.items| > MAX_LEVELS then None else NormalizeAll(raw.items)
  }

  ghost predicate StrictlyAscending(s: seq<string>) {
    forall i, j :: 0 <= i < j < |s| ==> StringLeq(s[i], s[j]) && s[i] != s[j]
  }

  lemma {:induction false} DedupSorted(s: seq<string>)
    requires SortedBy(s, StringLeq)
    ensures StrictlyAscending(Dedup(s))
    ensures forall x :: x in Dedup(s) <==> x in s
  {
    if |s| > 0 {
      DedupSorted(s[1..]);
      assert s == [s[0]] + s[1..];
      if |s| > 1 && s[0] == s[1] {
        assert s[1] in s[1..];
      } else {
        var t := Dedup(s[1..]);
        StringOrder();
        forall j | 0 <= j < |t| ensures StringLeq(s[0], t[j]) && s[0] != t[j] {
          assert t[j] in s[1..];
          var k :| 0 <= k < |s[1..]| && s[1..][k] == t[j];
          assert StringLeq(s[0], s[1]) && StringLeq(s[1], s[k + 1]);
        }
      }
    }
  }

  lemma {:induction false} AscendingUnique(s: seq<string>, t: seq<string>)
    requires StrictlyAscending(s) && StrictlyAscending(t)
    requires forall x :: x in s <==> x in t
    ensures s == t
    decreases |s|
  {
    StringOrder();
    EmptyTogether(s, t);
    if |s| > 0 {
      assert s[0] in t && t[0] in s;
      assert s[0] == t[0];
      TailMembers(s);
      TailMembers(t);
      AscendingUnique(s[1..], t[1..]);
    }
  }

  /** The canonical form of a user list depends only on which users it names. */
  lemma {:induction false} UsersCanonical(s: seq<string>, t: seq<string>)
    requires forall x :: x in s <==> x in t
    ensures Dedup(Sort(s, StringLeq)) == Dedup(Sort(t, StringLeq))
    ensures StrictlyAscending(Dedup(Sort(s, StringLeq))) && forall x :: x in Dedup(Sort(s, StringLeq)) <==> x in s
  {
    hide Dedup, Sort, StringLeq, StrictlyAscending;
    StringOrder();
    SortSorted(s, StringLeq);
    SortSorted(t, StringLeq);
    SameElements(Sort(s, StringLeq), s);
    SameElements(Sort(t, StringLeq), t);
    DedupSorted(Sort(s, StringLeq));
    DedupSorted(Sort(t, StringLeq));
    AscendingUnique(Dedup(Sort(s, StringLeq)), Dedup(Sort(t, StringLeq)));
  }

  // ----- bands

  /** One stored band, or `None` when any part of it is malformed. */
  function BandOf(raw: Json): Option<Band> {
    if !raw.Obj? then None
    else match Get(raw.fields, "min_amount")
      case Some(Num(n)) =>
        if AsReal(n) < 0.0 then None
        else (match Get(raw.fields, "levels")
              case None => None
              case Some(levels) =>
                (match NormalizeLevels(levels)
                 case None => None
                 case Some(ls) => Some(Band(AsReal(n), ls))))
      case _ => None
  }

  ghost predicate DistinctAmounts(bands: seq<Band>) {
    forall i, j :: 0 <= i < j < |bands| ==> bands[i].minAmount != bands[j].minAmount
  }

  ghost predicate AllParse(raw: seq<Json>) {
    forall i :: 0 <= i < |raw| ==> BandOf(raw[i]).Some?
  }

  function BandsIn(raw: seq<Json>): (bands: seq<Band>)
    requires AllParse(raw)
    ensures |bands| == |raw| && forall i :: 0 <= i < |raw| ==> bands[i] == BandOf(raw[i]).value
  {
    seq(|raw|, i requires 0 <= i < |raw| => BandOf(raw[i]).value)
  }

  predicate AmountLeq(a: Band, b: Band) {
    a.minAmount <= b.minAmount
  }

  /** Between one and ten bands, each well formed, no two at the same amount. */
  ghost predicate BandsAreValid(stored: Json) {
    stored.Arr? && 1 <= |stored.items| <= MAX_BANDS && AllParse(stored.items) && DistinctAmounts(BandsIn(stored.items))
  }

  ghost function BandsOf(stored: Json): Option<seq<Band>> {
    if BandsAreValid(stored) then Some(Sort(BandsIn(stored.items), AmountLeq)) else None
  }

  /** The bands parsed so far are valid as far as they go. */
  ghost predicate Prefix(raw: seq<Json>, i: nat, bands: seq<Band>)
    requires i <= |raw|
  {
    AllParse(raw[..i]) && bands == BandsIn(raw[..i]) && DistinctAmounts(bands)
  }

  predicate Taken(bands: seq<Band>, amount: real) {
    exists j :: 0 <= j < |bands| && bands[j].minAmount == amount
  }

  lemma {:induction false} PrefixStep(raw: seq<Json>, i: nat, bands: seq<Band>)
    requires i < |raw| && Prefix(raw, i, bands)
    ensures BandOf(raw[i]).None? ==> !AllParse(raw)
    ensures BandOf(raw[i]).Some? && !Taken(bands, BandOf(raw[i]).value.minAmount)
        ==> Prefix(raw, i + 1, bands + [BandOf(raw[i]).value])
    ensures BandOf(raw[i]).Some? && Taken(bands, BandOf(raw[i]).value.minAmount)
        ==> !AllParse(raw) || !DistinctAmounts(BandsIn(raw))
  {
    hide BandOf;
    if BandOf(raw[i]).Some? {
      var b := BandOf(raw[i]).value;
      if !Taken(bands, b.minAmount) {
        assert raw[..i + 1] == raw[..i] + [raw[i]];
      } else if AllParse(raw) {
        var j :| 0 <= j < |bands| && bands[j].minAmount == b.minAmount;
        assert raw[..i][j] == raw[j];
        assert BandsIn(raw)[j].minAmount == BandsIn(raw)[i].minAmount;
      }
    }
  }

  method ValidBands(stored: Json) returns (r: Option<seq<Band>>)
    ensures r == BandsOf(stored)
  {
    hide BandOf, Sort;
    if !stored.Arr? || |stored.items| == 0 || |stored.items| > MAX_BANDS {
      return None;
    }
    var raw := stored.items;
    var bands: seq<Band> := [];
    var i := 0;
    while i < |raw|
      invariant 0 <= i <= |raw| && Prefix(raw, i, bands)
    {
      PrefixStep(raw, i, bands);
      var b := BandOf(raw[i]);
      if b.None? || Taken(bands, b.value.minAmount) {
        return None;
      }
      bands := bands + [b.value];
      i := i + 1;
    }
    assert raw[..i] == raw;
    r := Some(Sort(bands, AmountLeq));
  }

  lemma {:induction false} AmountOrder()
    ensures TotalPreorder(AmountLeq)
  {
  }

  ghost predicate Ascending(bands: seq<Band>) {
    forall i, j :: 0 <= i < j < |bands| ==> bands[i].minAmount < bands[j].minAmount
  }

  lemma {:induction false} SortedBandsAscend(bands: seq<Band>)
    requires DistinctAmounts(bands)
    ensures Ascending(Sort(bands, AmountLeq))
    ensures forall b :: b in Sort(bands, AmountLeq) <==> b in bands
  {
    var s := Sort(bands, AmountLeq);
    AmountOrder();
    SortSorted(bands, AmountLeq);
    SameElements(s, bands);
    DistinctTransfers(bands, s);
    assert forall i, j :: 0 <= i < j < |s| ==> AmountLeq(s[i], s[j]);
  }

  lemma {:induction false} DistinctTransfers(s: seq<Band>, t: seq<Band>)
    requires multiset(s) == multiset(t) && DistinctAmounts(s)
    ensures DistinctAmounts(t)
  {
    SameElements(s, t);
    DistinctPermutation(s, t);
    forall i, j | 0 <= i < j < |t| ensures t[i].minAmount != t[j].minAmount {
      assert t[i] in s && t[j] in s;
    }
  }

  lemma {:induction false} AscendingBandsUnique(s: seq<Band>, t: seq<Band>)
    requires Ascending(s) && Ascending(t)
    requires forall b :: b in s <==> b in t
    ensures s == t
    decreases |s|
  {
    EmptyTogether(s, t);
    if |s| > 0 {
      assert s[0] in t && t[0] in s;
      assert s[0] == t[0];
      TailMembers(s);
      TailMembers(t);
      AscendingBandsUnique(s[1..], t[1..]);
    }
  }

  /** Rearranged storage parses to the same bands, still at distinct amounts. */
  lemma {:induction false} BandsRearranged(raw: seq<Json>, raw': seq<Json>)
    requires multiset(raw) == multiset(raw') && AllParse(raw) && DistinctAmounts(BandsIn(raw))
    ensures AllParse(raw') && DistinctAmounts(BandsIn(raw'))
    ensures forall b :: b in BandsIn(raw) <==> b in BandsIn(raw')
  {
    hide BandOf;
    SameElements(raw, raw');
    forall i | 0 <= i < |raw'| ensures BandOf(raw'[i]).Some? {
      assert raw'[i] in raw;
    }
    var bs, bs' := BandsIn(raw), BandsIn(raw');
    forall i, j | 0 <= i < j < |raw| ensures raw[i] != raw[j] {
      assert bs[i].minAmount != bs[j].minAmount;
    }
    DistinctPermutation(raw, raw');
    forall i, j | 0 <= i < j < |raw'| ensures bs'[i].minAmount != bs'[j].minAmount {
      assert raw'[i] in raw && raw'[j] in raw;
      var k :| 0 <= k < |raw| && raw[k] == raw'[i];
      var l :| 0 <= l < |raw| && raw[l] == raw'[j];
      assert bs[k].minAmount != bs[l].minAmount;
    }
    SubsetOfBands(raw, raw');
    SubsetOfBands(raw', raw);
  }

  lemma {:induction false} SubsetOfBands(raw: seq<Json>, raw': seq<Json>)
    requires AllParse(raw) && AllParse(raw') && forall x :: x in raw ==> x in raw'
    ensures forall b :: b in BandsIn(raw) ==> b in BandsIn(raw')
  {
    hide BandOf;
    forall b | b in BandsIn(raw) ensures b in BandsIn(raw') {
      var i :| 0 <= i < |raw| && BandsIn(raw)[i] == b;
      assert raw[i] in raw';
      var j :| 0 <= j < |raw'| && raw'[j] == raw[i];
      assert BandsIn(raw')[j] == b;
    }
  }

  /** The order in which the bands are stored never matters. */
  lemma {:induction false} BandOrderIrrelevant(raw: seq<Json>, raw': seq<Json>)
    requires multiset(raw) == multiset(raw')
    ensures BandsOf(Arr(raw)) == BandsOf(Arr(raw'))
  {
    SameElements(raw, raw');
    if BandsAreValid(Arr(raw)) {
      SameBands(raw, raw');
    } else if BandsAreValid(Arr(raw')) {
      SameBands(raw', raw);
    }
  }

  lemma {:induction false} SameBands(raw: seq<Json>, raw': seq<Json>)
    requires multiset(raw) == multiset(raw') && BandsAreValid(Arr(raw))
    ensures BandsAreValid(Arr(raw')) && BandsOf(Arr(raw)) == BandsOf(Arr(raw'))
  {
    SameElements(raw, raw');
    BandsRearranged(raw, raw');
    SortedBandsAscend(BandsIn(raw));
    SortedBandsAscend(BandsIn(raw'));
    AscendingBandsUnique(Sort(BandsIn(raw), AmountLeq), Sort(BandsIn(raw'), AmountLeq));
  }

  // ----- resolving an order

  /** The last band the amount reaches, scanning from the top. */
  function TopReached(bands: seq<Band>, amount: real): Option<Band>
  {
    if |bands| == 0 then None
    else if amount + EPS >= bands[|bands| - 1].minAmount then Some(bands[|bands| - 1])
    else TopReached(bands[..|bands| - 1], amount)
  }

  ghost function ResolutionOf(chains: seq<Chain>, m: Index, center: Option<string>, amount: Option<real>,
                              escalate: bool): Resolution {
    if !AnyActive(chains) then NotRequired(None, center)
    else match ChainFor(chains, m, center)
      case Missing(reason) => Unresolved(reason, None, center)
      case Found(chain) =>
        (match BandsOf(chain.bands)
         case None => Unresolved(ChainInvalid, Some(chain.id), center)
         case Some(bands) =>
           if amount.None? then Unresolved(AmountUnknown, Some(chain.id), center)
           else if escalate && |bands| > 0 then Required(chain.id, bands[|bands| - 1], true, center)
           else (match TopReached(bands, amount.value)
                 case Some(b) => Required(chain.id, b, false, center)
                 case None => NotRequired(Some(chain.id), center)))
  }

  lemma {:induction false} BandsNonEmpty(stored: Json)
    ensures BandsOf(stored).Some? ==> |BandsOf(stored).value| > 0
  {
    if BandsOf(stored).Some? {
      SameElements(BandsOf(stored).value, BandsIn(stored.items));
    }
  }

  /** `amount` is `None` for a missing or non-finite amount. */
  method Resolve(chains: seq<Chain>, centers: seq<Center>, center: Option<string>, amount: Option<real>, escalate: bool)
    returns (r: Resolution)
    ensures r == ResolutionOf(chains, ById(centers), center, amount, escalate)
  {
    hide BandsOf, TopReached;
    if !AnyActive(chains) {
      return NotRequired(None, center);
    }
    var found := FindChain(chains, centers, center);
    if found.Missing? {
      return Unresolved(found.reason, None, center);
    }
    var chain := found.chain;
    var valid := ValidBands(chain.bands);
    if valid.None? {
      return Unresolved(ChainInvalid, Some(chain.id), center);
    }
    var bands := valid.value;
    BandsNonEmpty(chain.bands);
    if amount.None? {
      return Unresolved(AmountUnknown, Some(chain.id), center);
    }
    if escalate {
      return Required(chain.id, bands[|bands| - 1], true, center);
    }
    match TopReached(bands, amount.value) {
      case Some(b) => r := Required(chain.id, b, false, center);
      case None => r := NotRequired(Some(chain.id), center);
    }
  }

  // ----- what a resolution means

  /** `b` is the highest band the amount reaches. */
  ghost predicate IsTopReached(bands: seq<Band>, amount: real, b: Band) {
    b in bands && b.minAmount <= amount + EPS
    && forall x :: x in bands && x.minAmount <= amount + EPS ==> x.minAmount <= b.minAmount
  }

  lemma {:induction false} TopReachedMeans(bands: seq<Band>, amount: real)
    requires Ascending(bands)
    ensures TopReached(bands, amount).None? <==> forall x :: x in bands ==> amount + EPS < x.minAmount
    ensures TopReached(bands, amount).Some? ==> IsTopReached(bands, amount, TopReached(bands, amount).value)
  {
    if |bands| > 0 {
      var last := bands[|bands| - 1];
      InitMembers(bands);
      if amount + EPS < last.minAmount {
        TopReachedMeans(bands[..|bands| - 1], amount);
      } else {
        forall x | x in bands ensures x.minAmount <= last.minAmount {
          var i :| 0 <= i < |bands| && bands[i] == x;
        }
      }
    }
  }

  lemma {:induction false} ValidBandsAscend(stored: Json)
    requires BandsOf(stored).Some?
    ensures Ascending(BandsOf(stored).value) && |BandsOf(stored).value| > 0
    ensures forall b :: b in BandsOf(stored).value <==> b in BandsIn(stored.items)
  {
    SortedBandsAscend(BandsIn(stored.items));
    BandsNonEmpty(stored);
  }

  /** Everything needed to decide: an active chain is found, it is well formed, the amount is known. */
  ghost predicate Decidable(chains: seq<Chain>, m: Index, center: Option<string>, amount: Option<real>) {
    ChainFor(chains, m, center).Found? && BandsOf(ChainFor(chains, m, center).chain.bands).Some? && amount.Some?
  }

  /** Fail closed: an order goes through without approval only in the two stated cases. */
  lemma {:induction false} FailClosed(chains: seq<Chain>, m: Index, center: Option<string>, amount: Option<real>,
                                      escalate: bool)
    ensures ResolutionOf(chains, m, center, amount, escalate).NotRequired?
       <==> !AnyActive(chains)
            || (Decidable(chains, m, center, amount) && !escalate
                && forall b :: b in BandsIn(ChainFor(chains, m, center).chain.bands.items) ==>
                    amount.value + EPS < b.minAmount)
  {
    hide BandsOf, TopReached, ChainFor, BandsAreValid;
    if AnyActive(chains) && Decidable(chains, m, center, amount) {
      var stored := ChainFor(chains, m, center).chain.bands;
      BandsValid(stored);
      ValidBandsAscend(stored);
      TopReachedMeans(BandsOf(stored).value, amount.value);
    }
  }

  lemma {:induction false} BandsValid(stored: Json)
    ensures BandsOf(stored).Some? <==> BandsAreValid(stored)
    ensures BandsAreValid(stored) ==> stored.Arr? && AllParse(stored.items)
  {
  }

  lemma {:induction false} HigherReachesNoLess(bands: seq<Band>, low: real, high: real)
    requires Ascending(bands) && low <= high
    ensures TopReached(bands, low).Some? ==>
      TopReached(bands, high).Some? && TopReached(bands, low).value.minAmount <= TopReached(bands, high).value.minAmount
  {
    TopReachedMeans(bands, low);
    TopReachedMeans(bands, high);
    hide TopReached, Ascending;
  }

  /** Raising the amount never lowers the requirement, and never resolves or unresolves an order. */
  lemma {:induction false} MonotoneInAmount(chains: seq<Chain>, m: Index, center: Option<string>, low: real,
                                            high: real, escalate: bool)
    requires low <= high
    ensures var a, b := ResolutionOf(chains, m, center, Some(low), escalate),
                        ResolutionOf(chains, m, center, Some(high), escalate);
            (a.Unresolved? || b.Unresolved? ==> a == b)
            && (a.Required? ==> b.Required? && b.chain == a.chain && a.band.minAmount <= b.band.minAmount)
  {
    hide BandsOf, TopReached, ChainFor, AnyActive, Ascending, BandsIn;
    if AnyActive(chains) && Decidable(chains, m, center, Some(low)) {
      var stored := ChainFor(chains, m, center).chain.bands;
      ValidBandsAscend(stored);
      HigherReachesNoLess(BandsOf(stored).value, low, high);
    }
  }

  /** Escalation takes the top band of a decidable order and changes nothing about an undecidable one. */
  lemma {:induction false} EscalationNeverRescues(chains: seq<Chain>, m: Index, center: Option<string>,
                                                  amount: Option<real>)
    ensures var plain, up := ResolutionOf(chains, m, center, amount, false),
                             ResolutionOf(chains, m, center, amount, true);
            (plain.Unresolved? || up.Unresolved? ==> plain == up)
            && (up.Required? ==> forall b :: b in BandsOf(ChainFor(chains, m, center).chain.bands).value
                                             ==> b.minAmount <= up.band.minAmount)
            && (AnyActive(chains) && Decidable(chains, m, center, amount) ==> up.Required?)
  {
    hide BandsOf, TopReached, ChainFor;
    if AnyActive(chains) && Decidable(chains, m, center, amount) {
      ValidBandsAscend(ChainFor(chains, m, center).chain.bands);
    }
  }
}
