/** What the chain lookup and the resolution answer, said on the stored rows alone. */
module ChainMeaning {
  import opened Wrappers
  import opened Sorting
  import opened Json
  import opened CostCenters
  import opened Chains

  // The sources are backend-rs/src/chain.rs, `find_chain`, `normalize_level(s)`, `valid_bands`
  // and `resolve`. Nothing here is said through the functions that compute the answers.

  // ----- chains of a cost center

  ghost predicate ActiveOn(c: Chain, key: Option<string>) {
    c.active && c.costCenterId == key
  }

  ghost predicate FirstAt(chains: seq<Chain>, key: Option<string>, c: Chain, i: nat) {
    i < |chains| && chains[i] == c && ActiveOn(c, key) && forall j :: 0 <= j < i ==> !ActiveOn(chains[j], key)
  }

  /** `c` is the first active chain attached to `key` (`None`: the default). */
  ghost predicate FirstActive(chains: seq<Chain>, key: Option<string>, c: Chain) {
    exists i: nat :: FirstAt(chains, key, c, i)
  }

  ghost predicate NoActive(chains: seq<Chain>, key: Option<string>) {
    forall i :: 0 <= i < |chains| ==> !ActiveOn(chains[i], key)
  }

  lemma {:induction false} FirstAtNext(chains: seq<Chain>, key: Option<string>, c: Chain, i: nat)
    requires |chains| > 0 && !ActiveOn(chains[0], key)
    ensures FirstAt(chains, key, c, i + 1) <==> FirstAt(chains[1..], key, c, i)
    ensures !FirstAt(chains, key, c, 0)
  {
    var rest := chains[1..];
    assert forall j :: 0 <= j < |rest| ==> rest[j] == chains[j + 1];
    if FirstAt(rest, key, c, i) {
      forall j | 0 <= j < i + 1 ensures !ActiveOn(chains[j], key) {
        assert j > 0 ==> chains[j] == rest[j - 1];
      }
    }
  }

  lemma {:induction false} FirstChainIs(chains: seq<Chain>, key: Option<string>, c: Chain)
    ensures FirstChain(chains, key) == Some(c) <==> FirstActive(chains, key, c)
    ensures FirstChain(chains, key) == None <==> NoActive(chains, key)
  {
    if |chains| > 0 {
      if ActiveOn(chains[0], key) {
        assert FirstAt(chains, key, chains[0], 0);
      } else {
        var rest := chains[1..];
        FirstChainIs(rest, key, c);
        assert forall j :: 0 <= j < |rest| ==> rest[j] == chains[j + 1];
        if FirstActive(rest, key, c) {
          var i: nat :| FirstAt(rest, key, c, i);
          FirstAtNext(chains, key, c, i);
        }
        if FirstActive(chains, key, c) {
          var i: nat :| FirstAt(chains, key, c, i);
          FirstAtNext(chains, key, c, if i > 0 then i - 1 else 0);
        }
        if NoActive(rest, key) {
          forall i | 0 <= i < |chains| ensures !ActiveOn(chains[i], key) {
            assert i > 0 ==> chains[i] == rest[i - 1];
          }
        }
      }
    }
  }

  // ----- the walk

  /** None of the first `n` nodes from `id` on has an active chain. */
  ghost predicate NoneBefore(m: Index, chains: seq<Chain>, id: string, n: nat) {
    forall j: nat :: j < n && Up(m, id, j).Some? ==> NoActive(chains, Up(m, id, j))
  }

  /** `k` links up stands the nearest stored center with an active chain, and `c` is its first. */
  ghost predicate NearestActive(m: Index, chains: seq<Chain>, id: string, k: nat, c: Chain) {
    Up(m, id, k).Some? && Up(m, id, k).value in m && FirstActive(chains, Up(m, id, k), c)
    && NoneBefore(m, chains, id, k)
  }

  /** `k` links up stands a stored center without a parent, and no center up to it has an active chain. */
  ghost predicate BareRoot(m: Index, chains: seq<Chain>, id: string, k: nat) {
    Up(m, id, k).Some? && Up(m, id, k).value in m && m[Up(m, id, k).value].Parent().None?
    && NoneBefore(m, chains, id, k + 1)
  }

  lemma {:induction false} NearestIs(m: Index, chains: seq<Chain>, id: string, k: nat, c: Chain)
    ensures Nearest(m, chains, id, k, c) <==> NearestActive(m, chains, id, k, c)
  {
    hide FirstChain, FirstActive, NoActive;
    FirstChainIs(chains, Up(m, id, k), c);
    forall j: nat ensures FirstChain(chains, Up(m, id, j)) == None <==> NoActive(chains, Up(m, id, j)) {
      FirstChainIs(chains, Up(m, id, j), c);
    }
  }

  lemma {:induction false} RootIs(m: Index, chains: seq<Chain>, id: string, k: nat, c: Chain)
    ensures ReachesRoot(m, chains, id, k) <==> BareRoot(m, chains, id, k)
  {
    hide FirstChain, FirstActive, NoActive;
    forall j: nat ensures FirstChain(chains, Up(m, id, j)) == None <==> NoActive(chains, Up(m, id, j)) {
      FirstChainIs(chains, Up(m, id, j), c);
    }
  }

  ghost predicate FindsNearest(m: Index, chains: seq<Chain>, id: string, c: Chain) {
    exists k: nat :: k <= MAX_DEPTH && NearestActive(m, chains, id, k, c)
  }

  ghost predicate FindsRoot(m: Index, chains: seq<Chain>, id: string) {
    exists k: nat :: k <= MAX_DEPTH && BareRoot(m, chains, id, k)
  }

  /** The order names a stored, active center. */
  ghost predicate GoodCenter(m: Index, center: Option<string>) {
    center.Some? && center.value in m && m[center.value].active
  }

  lemma {:induction false} WalkExactly(m: Index, chains: seq<Chain>, id: string, c: Chain)
    ensures Search(m, chains, id, MAX_DEPTH + 1) == Hit(c) <==> FindsNearest(m, chains, id, c)
    ensures Search(m, chains, id, MAX_DEPTH + 1) == Root <==> FindsRoot(m, chains, id)
  {
    hide Search, Nearest, ReachesRoot, NearestActive, BareRoot;
    SearchIsNearest(m, chains, id, MAX_DEPTH + 1, c);
    SearchIsRoot(m, chains, id, MAX_DEPTH + 1);
    forall k: nat ensures Nearest(m, chains, id, k, c) <==> NearestActive(m, chains, id, k, c)
    {
      NearestIs(m, chains, id, k, c);
    }
    forall k: nat ensures ReachesRoot(m, chains, id, k) <==> BareRoot(m, chains, id, k)
    {
      RootIs(m, chains, id, k, c);
    }
  }

  /**
  The chain found: the first active one of the nearest center that has any, within the cap; the
  first active default when a root is reached with none on the way, or no center is named.
  */
  lemma {:induction false} FoundExactly(chains: seq<Chain>, m: Index, center: Option<string>, c: Chain)
    ensures ChainFor(chains, m, center) == Found(c)
       <==> if center.None? then FirstActive(chains, None, c)
            else GoodCenter(m, center)
                 && (FindsNearest(m, chains, center.value, c)
                     || (FindsRoot(m, chains, center.value) && FirstActive(chains, None, c)))
  {
    hide Search, FirstChain, FirstActive, NoActive, FindsNearest, FindsRoot;
    FirstChainIs(chains, None, c);
    if center.Some? {
      WalkExactly(m, chains, center.value, c);
    }
  }

  /** The three reasons for having none. */
  lemma {:induction false} MissingExactly(chains: seq<Chain>, m: Index, center: Option<string>)
    ensures ChainFor(chains, m, center) == Missing(NoCostCenter) <==> center.None? && NoActive(chains, None)
    ensures ChainFor(chains, m, center) == Missing(NoChain)
       <==> GoodCenter(m, center) && FindsRoot(m, chains, center.value) && NoActive(chains, None)
    ensures ChainFor(chains, m, center) == Missing(CostCenterInvalid)
       <==> center.Some? && (!GoodCenter(m, center)
                             || (!FindsRoot(m, chains, center.value)
                                 && forall c :: !FindsNearest(m, chains, center.value, c)))
    ensures ChainFor(chains, m, center).Missing? ==>
      ChainFor(chains, m, center).reason in {NoCostCenter, NoChain, CostCenterInvalid}
  {
    hide Search, FirstChain, FirstActive, NoActive, FindsNearest, FindsRoot;
    var any := Chain("", None, false, Json.Null);
    FirstChainIs(chains, None, any);
    if center.Some? {
      WalkExactly(m, chains, center.value, any);
      forall c: Chain
        ensures Search(m, chains, center.value, MAX_DEPTH + 1) == Hit(c) <==> FindsNearest(m, chains, center.value, c)
      {
        WalkExactly(m, chains, center.value, c);
      }
    }
  }

  // ----- levels and bands

  lemma {:induction false} GetMeans(fields: seq<(string, Json)>, key: string, v: Json)
    ensures Get(fields, key) == Some(v)
       <==> exists i :: 0 <= i < |fields| && fields[i] == (key, v) && forall j :: 0 <= j < i ==> fields[j].0 != key
    ensures Get(fields, key) == None <==> forall i :: 0 <= i < |fields| ==> fields[i].0 != key
  {
    if |fields| > 0 {
      var rest := fields[1..];
      GetMeans(rest, key, v);
      if i :| 0 <= i < |rest| && rest[i] == (key, v) && forall j :: 0 <= j < i ==> rest[j].0 != key {
        if fields[0].0 != key {
          assert fields[i + 1] == (key, v) && forall j :: 0 <= j < i + 1 ==> j == 0 || fields[j] == rest[j - 1];
        }
      }
      if i :| 0 < i < |fields| && fields[i] == (key, v) && forall j :: 0 <= j < i ==> fields[j].0 != key {
        assert rest[i - 1] == (key, v) && forall j :: 0 <= j < i - 1 ==> rest[j] == fields[j + 1];
      }
      if forall i :: 0 <= i < |rest| ==> rest[i].0 != key {
        forall i | 0 < i < |fields| ensures fields[i].0 != key {
          assert fields[i] == rest[i - 1];
        }
      }
      forall i | 0 <= i < |rest| ensures rest[i] == fields[i + 1] {
      }
    }
  }

  ghost predicate RoleLevel(raw: Json, l: Level) {
    raw.Obj? && Get(raw.fields, "kind") == Some(Str("role"))
    && exists role :: Get(raw.fields, "role") == Some(Str(role)) && role in {"analyst", "admin"} && l == Role(role)
  }

  /** The named users in order, each once; between one and twenty names were given, none empty. */
  ghost predicate UsersLevel(raw: Json, l: Level) {
    raw.Obj? && Get(raw.fields, "kind") == Some(Str("users")) && l.Users? && StrictlyAscending(l.ids)
    && exists ids: seq<Json> ::
         Get(raw.fields, "user_ids") == Some(Arr(ids)) && 1 <= |ids| <= 20
         && (forall i :: 0 <= i < |ids| ==> ids[i].Str? && ids[i].s != "")
         && forall x :: x in l.ids <==> Str(x) in ids
  }

  lemma {:induction false} UserIdsExactly(items: seq<Json>)
    ensures UserIds(items).Some? <==> forall i :: 0 <= i < |items| ==> items[i].Str? && items[i].s != ""
    ensures UserIds(items).Some? ==> forall x :: x in UserIds(items).value <==> Str(x) in items
  {
    if |items| > 0 {
      var rest := items[1..];
      UserIdsExactly(rest);
      assert items == [items[0]] + rest;
    }
  }

  lemma {:induction false} SameUsers(names: seq<string>, ids: seq<string>)
    requires StrictlyAscending(ids) && forall x :: x in ids <==> x in names
    ensures Dedup(Sort(names, StringLeq)) == ids
  {
    hide Dedup, Sort, StringLeq, StrictlyAscending;
    UsersCanonical(names, names);
    AscendingUnique(Dedup(Sort(names, StringLeq)), ids);
  }

  lemma {:induction false} LevelExactly(raw: Json, l: Level)
    ensures NormalizeLevel(raw) == Some(l) <==> RoleLevel(raw, l) || UsersLevel(raw, l)
  {
    hide Get, Dedup, Sort, StringLeq, UserIds, StrictlyAscending;
    if raw.Obj? && Get(raw.fields, "kind") == Some(Str("users")) {
      match Get(raw.fields, "user_ids") {
        case Some(Arr(ids)) =>
          UserIdsExactly(ids);
          if UserIds(ids).Some? {
            UsersCanonical(UserIds(ids).value, UserIds(ids).value);
            if UsersLevel(raw, l) {
              SameUsers(UserIds(ids).value, l.ids);
            }
          }
        case _ =>
      }
    }
  }

  lemma {:induction false} LevelsInOrder(items: seq<Json>, ls: seq<Level>)
    ensures NormalizeAll(items) == Some(ls)
       <==> |ls| == |items| && forall i :: 0 <= i < |items| ==> NormalizeLevel(items[i]) == Some(ls[i])
  {
    hide NormalizeLevel;
    if |items| > 0 {
      var rest := items[1..];
      if |ls| == |items| {
        LevelsInOrder(rest, ls[1..]);
        if forall i :: 0 <= i < |items| ==> NormalizeLevel(items[i]) == Some(ls[i]) {
          assert forall i :: 0 <= i < |rest| ==> rest[i] == items[i + 1] && ls[1..][i] == ls[i + 1];
        }
        if NormalizeAll(items) == Some(ls) {
          forall i | 0 <= i < |items| ensures NormalizeLevel(items[i]) == Some(ls[i]) {
            assert i > 0 ==> items[i] == rest[i - 1] && ls[i] == ls[1..][i - 1];
          }
        }
        assert ls == [ls[0]] + ls[1..];
      } else if NormalizeAll(rest).Some? {
        LevelsInOrder(rest, NormalizeAll(rest).value);
      }
    }
  }

  /** A stored band is well formed and means `b`: its amount, and between one and five levels in their order. */
  ghost predicate BandIs(raw: Json, b: Band) {
    raw.Obj?
    && (exists n :: Get(raw.fields, "min_amount") == Some(Num(n)) && AsReal(n) >= 0.0 && b.minAmount == AsReal(n))
    && exists items :: Get(raw.fields, "levels") == Some(Arr(items)) && 1 <= |items| <= 5 && |b.levels| == |items|
                       && forall i :: 0 <= i < |items|
                                      ==> RoleLevel(items[i], b.levels[i]) || UsersLevel(items[i], b.levels[i])
  }

  lemma {:induction false} BandExactly(raw: Json, b: Band)
    ensures BandOf(raw) == Some(b) <==> BandIs(raw, b)
  {
    hide Get, AsReal, NormalizeLevel, NormalizeAll, RoleLevel, UsersLevel;
    if raw.Obj? {
      match Get(raw.fields, "levels") {
        case Some(Arr(items)) =>
          LevelsInOrder(items, b.levels);
          if |b.levels| == |items| {
            forall i | 0 <= i < |items|
              ensures NormalizeLevel(items[i]) == Some(b.levels[i])
                 <==> RoleLevel(items[i], b.levels[i]) || UsersLevel(items[i], b.levels[i])
            {
              LevelExactly(items[i], b.levels[i]);
            }
          }
        case _ =>
      }
    }
  }

  /** The stored bands of a chain are between one and ten, each well formed, and mean `bands`, at distinct amounts. */
  ghost predicate StoredBands(stored: Json, bands: seq<Band>) {
    stored.Arr? && 1 <= |stored.items| <= 10 && |bands| == |stored.items|
    && (forall i :: 0 <= i < |bands| ==> BandIs(stored.items[i], bands[i]))
    && forall i, j :: 0 <= i < j < |bands| ==> bands[i].minAmount != bands[j].minAmount
  }

  lemma {:induction false} StoredBandsExactly(stored: Json, bands: seq<Band>)
    ensures StoredBands(stored, bands) <==> BandsAreValid(stored) && bands == BandsIn(stored.items)
  {
    hide BandOf, BandIs;
    if stored.Arr? {
      forall i, b | 0 <= i < |stored.items| ensures BandOf(stored.items[i]) == Some(b) <==> BandIs(stored.items[i], b) {
        BandExactly(stored.items[i], b);
      }
      if StoredBands(stored, bands) {
        assert forall i :: 0 <= i < |bands| ==> BandOf(stored.items[i]) == Some(bands[i]);
        assert bands == BandsIn(stored.items);
      }
    }
  }

  // ----- the resolution

  ghost predicate Reached(bands: seq<Band>, amount: real) {
    exists b :: b in bands && b.minAmount <= amount + 0.005
  }

  /** The band of `bands` with the greatest amount not above `limit`. */
  ghost predicate Greatest(bands: seq<Band>, limit: real, b: Band) {
    b in bands && b.minAmount <= limit && forall x :: x in bands && x.minAmount <= limit ==> x.minAmount <= b.minAmount
  }

  /** No chain is active: nothing is required. No usable chain: the reason of the lookup. */
  lemma {:induction false} WithoutChain(chains: seq<Chain>, m: Index, center: Option<string>, amount: Option<real>,
                                        escalate: bool)
    ensures var r := ResolutionOf(chains, m, center, amount, escalate);
            ((forall i :: 0 <= i < |chains| ==> !chains[i].active) ==> r == NotRequired(None, center))
            && ((exists i :: 0 <= i < |chains| && chains[i].active) && ChainFor(chains, m, center).Missing? ==>
                  r == Unresolved(ChainFor(chains, m, center).reason, None, center))
  {
    hide ChainFor, BandsOf;
  }

  /** A malformed chain, or an unknown amount: which of the two, and of which chain. */
  lemma {:induction false} UnusableChain(chains: seq<Chain>, m: Index, center: Option<string>, amount: Option<real>,
                                         escalate: bool, c: Chain)
    requires ChainFor(chains, m, center) == Found(c) && exists i :: 0 <= i < |chains| && chains[i].active
    ensures var r := ResolutionOf(chains, m, center, amount, escalate);
            ((forall bands :: !StoredBands(c.bands, bands)) ==> r == Unresolved(ChainInvalid, Some(c.id), center))
            && ((exists bands :: StoredBands(c.bands, bands)) && amount.None? ==>
                  r == Unresolved(AmountUnknown, Some(c.id), center))
  {
    hide ChainFor, StoredBands, BandsAreValid, Sort, BandsIn;
    if BandsAreValid(c.bands) {
      BandsValid(c.bands);
      StoredBandsExactly(c.bands, BandsIn(c.bands.items));
    }
    forall bands | StoredBands(c.bands, bands) ensures BandsAreValid(c.bands) {
      StoredBandsExactly(c.bands, bands);
    }
  }

  /** Sorted, the stored bands are the same bands, the last one of greatest amount. */
  lemma {:induction false} SortedStored(stored: Json, bands: seq<Band>)
    requires StoredBands(stored, bands)
    ensures BandsOf(stored).Some?
    ensures var sorted := BandsOf(stored).value;
            |sorted| > 0 && Ascending(sorted) && (forall x :: x in sorted <==> x in bands)
            && sorted[|sorted| - 1] in bands && forall x :: x in bands ==> x.minAmount <= sorted[|sorted| - 1].minAmount
  {
    hide StoredBands, BandsAreValid, BandsOf;
    StoredBandsExactly(stored, bands);
    BandsValid(stored);
    ValidBandsAscend(stored);
    var sorted := BandsOf(stored).value;
    assert sorted[|sorted| - 1] in sorted;
    forall x | x in bands ensures x.minAmount <= sorted[|sorted| - 1].minAmount {
      assert x in sorted;
      var i :| 0 <= i < |sorted| && sorted[i] == x;
    }
  }

  lemma {:induction false} ReachedStored(stored: Json, bands: seq<Band>, amount: real)
    requires StoredBands(stored, bands)
    ensures BandsOf(stored).Some?
    ensures var top := TopReached(BandsOf(stored).value, amount);
            if Reached(bands, amount) then top.Some? && Greatest(bands, amount + 0.005, top.value) else top.None?
  {
    hide StoredBands, TopReached, BandsOf, Ascending;
    SortedStored(stored, bands);
    TopReachedMeans(BandsOf(stored).value, amount);
  }

  /**
  A usable chain decides: escalated, the band of greatest amount; otherwise the greatest one
  reached, and nothing is required exactly when none is.
  */
  lemma {:induction false} DecisionExactly(chains: seq<Chain>, m: Index, center: Option<string>, amount: real,
                                           escalate: bool, c: Chain, bands: seq<Band>)
    requires ChainFor(chains, m, center) == Found(c) && StoredBands(c.bands, bands)
    requires exists i :: 0 <= i < |chains| && chains[i].active
    ensures var r := ResolutionOf(chains, m, center, Some(amount), escalate);
            if escalate then
              r.Required? && r.chain == c.id && r.escalated && r.center == center
              && r.band in bands && forall x :: x in bands ==> x.minAmount <= r.band.minAmount
            else if Reached(bands, amount) then
              r.Required? && r.chain == c.id && !r.escalated && r.center == center
              && Greatest(bands, amount + 0.005, r.band)
            else r == NotRequired(Some(c.id), center)
  {
    hide ChainFor, StoredBands, TopReached, BandsOf, Ascending, Reached, Greatest;
    SortedStored(c.bands, bands);
    ReachedStored(c.bands, bands, amount);
  }
}
