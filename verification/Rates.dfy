/** Which stored exchange rate is in force on a day (backend-rs/src/fx.rs:352-375). */
module Rates {
  import opened Wrappers
  import opened Calendar

  datatype RateRow = RateRow(id: string, currency: string, base: string, effective: Day)

  predicate Applies(r: RateRow, currency: string, base: string, asOf: Day) {
    r.currency == currency && r.base == base && !Before(asOf, r.effective)
  }

  /** Row `k` applies, none that applies is later, and none before it is as late. */
  ghost predicate InForce(rates: seq<RateRow>, currency: string, base: string, asOf: Day, k: nat) {
    k < |rates| && Applies(rates[k], currency, base, asOf)
    && forall j :: 0 <= j < |rates| && Applies(rates[j], currency, base, asOf) ==>
         !Before(rates[k].effective, rates[j].effective) && (j < k ==> Before(rates[j].effective, rates[k].effective))
  }

  method Resolve(rates: seq<RateRow>, currency: string, base: string, asOf: Day) returns (best: Option<RateRow>)
    ensures best.None? <==> forall j :: 0 <= j < |rates| ==> !Applies(rates[j], currency, base, asOf)
    ensures best.Some? ==> exists k: nat :: InForce(rates, currency, base, asOf, k) && best.value == rates[k]
  {
    best := None;
    ghost var at := 0;
    var i := 0;
    while i < |rates|
      invariant 0 <= i <= |rates|
      invariant best.None? <==> forall j :: 0 <= j < i ==> !Applies(rates[j], currency, base, asOf)
      invariant best.Some? ==> InForce(rates[..i], currency, base, asOf, at) && best.value == rates[at]
    {
      var r := rates[i];
      if !(r.currency != currency || r.base != base || Before(asOf, r.effective))
         && (best.None? || Before(best.value.effective, r.effective)) {
        best := Some(r);
        at := i;
      }
      i := i + 1;
    }
    assert rates[..i] == rates;
  }

  /** There is one row in force, and waiting for a later day never goes back to an earlier rate. */
  lemma {:induction false} LaterDayLaterRate(rates: seq<RateRow>, currency: string, base: string, day: Day,
                                             later: Day, k: nat, l: nat)
    requires InForce(rates, currency, base, day, k) && InForce(rates, currency, base, later, l)
    requires !Before(later, day)
    ensures !Before(rates[l].effective, rates[k].effective)
    ensures day == later ==> k == l
  {
    assert Applies(rates[k], currency, base, later);
  }

  /** A rate stays in force until the day on which a later one starts. */
  lemma {:induction false} StaysInForce(rates: seq<RateRow>, currency: string, base: string, day: Day, later: Day,
                                        k: nat)
    requires InForce(rates, currency, base, day, k) && !Before(later, day)
    ensures InForce(rates, currency, base, later, k)
       <==> forall j :: 0 <= j < |rates| && Applies(rates[j], currency, base, later) ==>
           Applies(rates[j], currency, base, day)
  {
    if InForce(rates, currency, base, later, k) {
      forall j | 0 <= j < |rates| && Applies(rates[j], currency, base, later)
        ensures Applies(rates[j], currency, base, day)
      {
        assert !Before(rates[k].effective, rates[j].effective);
      }
    }
  }
}
