/** The at-most-once rule for expiry alerts (backend-rs/src/contract_renewal.rs:200-232). */
module Alerts {
  import opened Wrappers
  import opened Calendar

  // It holds over any run of passes that records what it emits.

  datatype Reason = ContractExpired | ContractExpiring | NoticeDeadline

  datatype Alert = Alert(reason: Reason, lead: Option<int>, expiry: Day, daysLeft: int) {
    function Key(): (Day, Option<int>) {
      (expiry, lead)
    }
  }

  datatype Contract = Contract(periodEnd: Day, noticeDays: Option<int>, leads: seq<int>) {
    /** The date a person must act by. */
    function ActionDate(): Day {
      if noticeDays.Some? then PlusDays(periodEnd, -noticeDays.value) else periodEnd
    }
  }

  type Sent = set<(Day, Option<int>)>

  /** The least configured lead that has been reached. */
  function NearestLead(leads: seq<int>, actionDays: int): (r: Option<int>)
  {
    if |leads| == 0 then None
    else
      var rest := NearestLead(leads[1..], actionDays);
      if actionDays <= leads[0] && (rest.None? || leads[0] < rest.value) then Some(leads[0]) else rest
  }

  function DueAlert(c: Contract, today: Day, sent: Sent): Option<Alert> {
    var daysToExpiry := DaysBetween(c.periodEnd, today);
    if daysToExpiry < 0 then
      if (c.periodEnd, None) in sent then None else Some(Alert(ContractExpired, None, c.periodEnd, daysToExpiry))
    else
      match NearestLead(c.leads, DaysBetween(c.ActionDate(), today))
      case None => None
      case Some(lead) =>
        if (c.periodEnd, Some(lead)) in sent then None
        else
          var reason := if c.noticeDays.None? then ContractExpiring else NoticeDeadline;
          Some(Alert(reason, Some(lead), c.periodEnd, daysToExpiry))
  }

  lemma {:induction false} NearestMeans(leads: seq<int>, actionDays: int)
    ensures var r := NearestLead(leads, actionDays);
            (r.None? <==> forall t :: t in leads ==> t < actionDays)
            && (r.Some? ==> r.value in leads && actionDays <= r.value
                            && forall t :: t in leads && actionDays <= t ==> r.value <= t)
  {
    if |leads| > 0 {
      NearestMeans(leads[1..], actionDays);
      assert leads == [leads[0]] + leads[1..];
      assert leads[0] in leads && forall t :: t in leads[1..] ==> t in leads;
      assert forall t :: t in leads ==> t == leads[0] || t in leads[1..];
    }
  }

  // ----- runs

  ghost predicate Increasing(days: seq<Day>) {
    forall i, j :: 0 <= i < j < |days| ==> Ordinal(days[i]) < Ordinal(days[j])
  }

  /** What has been recorded when pass `i` starts. */
  ghost function SentBefore(c: Contract, days: seq<Day>, initial: Sent, i: nat): Sent
    requires i <= |days|
  {
    if i == 0 then initial
    else
      var before := SentBefore(c, days, initial, i - 1);
      match DueAlert(c, days[i - 1], before)
      case None => before
      case Some(a) => before + {a.Key()}
  }

  ghost function Emitted(c: Contract, days: seq<Day>, initial: Sent, i: nat): Option<Alert>
    requires i < |days|
  {
    DueAlert(c, days[i], SentBefore(c, days, initial, i))
  }

  /** The lead a pass on `today` would raise: `None` inside is the expired alert, `None` outside is nothing. */
  ghost function Owed(c: Contract, today: Day): Option<Option<int>> {
    if Ordinal(today) > Ordinal(c.periodEnd) then Some(None)
    else match NearestLead(c.leads, DaysBetween(c.ActionDate(), today))
      case None => None
      case Some(t) => Some(Some(t))
  }

  /** Days from `today` to the day a person must act by: the notice period before the end of the contract. */
  ghost function DaysToAct(c: Contract, today: Day): int {
    Ordinal(c.periodEnd) - (if c.noticeDays.Some? then c.noticeDays.value else 0) - Ordinal(today)
  }

  lemma {:induction false} ActionDays(c: Contract, today: Day)
    ensures DaysBetween(c.ActionDate(), today) == DaysToAct(c, today)
  {
    if c.noticeDays.Some? {
      PlusDaysOrdinal(c.periodEnd, -c.noticeDays.value);
    }
  }

  /** `t` is configured, has been reached, and no smaller configured lead has. */
  ghost predicate LeastReached(c: Contract, today: Day, t: int) {
    t in c.leads && DaysToAct(c, today) <= t && forall u :: u in c.leads && DaysToAct(c, today) <= u ==> t <= u
  }

  /** What is owed, in days: the expired alert after the end, before it the least lead that has been reached. */
  lemma {:induction false} OwedExactly(c: Contract, today: Day, t: int)
    ensures Owed(c, today) == Some(None) <==> Ordinal(c.periodEnd) < Ordinal(today)
    ensures Owed(c, today) == Some(Some(t)) <==> Ordinal(today) <= Ordinal(c.periodEnd) && LeastReached(c, today, t)
  {
    hide Contract.ActionDate, Ordinal;
    ActionDays(c, today);
    NearestMeans(c.leads, DaysToAct(c, today));
  }

  /** Everything an alert says. */
  lemma {:induction false} AlertSays(c: Contract, today: Day, sent: Sent)
    requires DueAlert(c, today, sent).Some?
    ensures var a := DueAlert(c, today, sent).value;
            a.expiry == c.periodEnd && a.daysLeft == Ordinal(c.periodEnd) - Ordinal(today)
            && (a.reason == ContractExpired <==> a.daysLeft < 0) && (a.lead == None <==> a.daysLeft < 0)
            && (a.reason == ContractExpiring <==> a.daysLeft >= 0 && c.noticeDays == None)
            && (a.lead.Some? ==> LeastReached(c, today, a.lead.value))
  {
    hide Contract.ActionDate, Ordinal;
    ActionDays(c, today);
    NearestMeans(c.leads, DaysToAct(c, today));
  }

  lemma {:induction false} EmitsOwed(c: Contract, today: Day, sent: Sent)
    ensures var a := DueAlert(c, today, sent);
            (a.Some? <==> Owed(c, today).Some? && (c.periodEnd, Owed(c, today).value) !in sent)
            && (a.Some? ==> a.value.lead == Owed(c, today).value && a.value.expiry == c.periodEnd)
  {
  }

  /** What is recorded: the initial records and what some earlier pass owed. */
  lemma {:induction false} SentMeans(c: Contract, days: seq<Day>, initial: Sent, i: nat, lead: Option<int>)
    requires i <= |days|
    ensures (c.periodEnd, lead) in SentBefore(c, days, initial, i)
       <==> (c.periodEnd, lead) in initial || exists j :: 0 <= j < i && Owed(c, days[j]) == Some(lead)
  {
    hide DueAlert, Owed;
    if i > 0 {
      SentMeans(c, days, initial, i - 1, lead);
      EmitsOwed(c, days[i - 1], SentBefore(c, days, initial, i - 1));
    }
  }

  /**
  The whole rule: pass `i` raises `lead` exactly when it is owed that day, was not
  recorded at the start, and no earlier pass owed it.
  */
  lemma {:induction false} AlertExactly(c: Contract, days: seq<Day>, initial: Sent, i: nat, lead: Option<int>)
    requires i < |days|
    ensures Emitted(c, days, initial, i).Some? && Emitted(c, days, initial, i).value.lead == lead
       <==> Owed(c, days[i]) == Some(lead) && (c.periodEnd, lead) !in initial
            && forall j :: 0 <= j < i ==> Owed(c, days[j]) != Some(lead)
  {
    hide DueAlert, Owed, SentBefore;
    EmitsOwed(c, days[i], SentBefore(c, days, initial, i));
    SentMeans(c, days, initial, i, lead);
  }

  /** No (expiry, lead) is raised twice, whatever days are skipped. */
  lemma {:induction false} NeverRepeats(c: Contract, days: seq<Day>, initial: Sent, i: nat, j: nat)
    requires i < j < |days|
    requires Emitted(c, days, initial, i).Some? && Emitted(c, days, initial, j).Some?
    ensures Emitted(c, days, initial, i).value.Key() != Emitted(c, days, initial, j).value.Key()
    ensures Emitted(c, days, initial, i).value.Key() !in initial
  {
    hide DueAlert, SentBefore, Owed;
    AlertExactly(c, days, initial, i, Emitted(c, days, initial, i).value.lead);
    AlertExactly(c, days, initial, j, Emitted(c, days, initial, j).value.lead);
    EmitsOwed(c, days[i], SentBefore(c, days, initial, i));
    EmitsOwed(c, days[j], SentBefore(c, days, initial, j));
  }

  lemma {:induction false} OwedDecreases(c: Contract, a: Day, b: Day)
    requires Ordinal(a) < Ordinal(b)
    ensures Owed(c, a) == Some(None) ==> Owed(c, b) == Some(None)
    ensures Owed(c, a).Some? && Owed(c, a).value.Some? && Owed(c, b).Some? && Owed(c, b).value.Some?
        ==> Owed(c, b).value.value <= Owed(c, a).value.value
  {
    NearestMeans(c.leads, DaysBetween(c.ActionDate(), a));
    NearestMeans(c.leads, DaysBetween(c.ActionDate(), b));
  }

  /** Leads count down strictly; the expired alert comes at most once and nothing follows it. */
  lemma {:induction false} LeadsCountDown(c: Contract, days: seq<Day>, initial: Sent, i: nat, j: nat)
    requires Increasing(days) && i < j < |days|
    requires Emitted(c, days, initial, i).Some? && Emitted(c, days, initial, j).Some?
    ensures var first, second := Emitted(c, days, initial, i).value.lead, Emitted(c, days, initial, j).value.lead;
            first.Some? && (second.Some? ==> second.value < first.value)
  {
    hide DueAlert, SentBefore, Owed;
    NeverRepeats(c, days, initial, i, j);
    EmitsOwed(c, days[i], SentBefore(c, days, initial, i));
    EmitsOwed(c, days[j], SentBefore(c, days, initial, j));
    OwedDecreases(c, days[i], days[j]);
  }

  /** A configured lead fires on the very day it is reached, if a pass runs that day before the contract has expired. */
  lemma {:induction false} FiresWhenReached(c: Contract, days: seq<Day>, initial: Sent, k: nat, t: int)
    requires Increasing(days) && k < |days| && t in c.leads && (c.periodEnd, Some(t)) !in initial
    requires DaysBetween(c.ActionDate(), days[k]) == t && Ordinal(days[k]) <= Ordinal(c.periodEnd)
    ensures Emitted(c, days, initial, k).Some? && Emitted(c, days, initial, k).value.lead == Some(t)
  {
    forall j | 0 <= j < k ensures Owed(c, days[j]) != Some(Some(t)) {
      NearestMeans(c.leads, DaysBetween(c.ActionDate(), days[j]));
    }
    NearestMeans(c.leads, t);
    AlertExactly(c, days, initial, k, Some(t));
  }

  ghost predicate Daily(days: seq<Day>) {
    forall i :: 0 < i < |days| ==> Ordinal(days[i]) == Ordinal(days[i - 1]) + 1
  }

  lemma {:induction false} DailyOrdinal(days: seq<Day>, i: nat)
    requires Daily(days) && i < |days|
    ensures Ordinal(days[i]) == Ordinal(days[0]) + i
  {
    if i > 0 {
      DailyOrdinal(days, i - 1);
    }
  }

  /**
  With a pass every day from before the lead's day to the expiry, a non-negative lead of
  a contract with a non-negative (or no) notice period fires exactly once, on its day.
  */
  lemma {:induction false} DailyFiresOnce(c: Contract, days: seq<Day>, initial: Sent, t: int) returns (k: nat)
    requires Daily(days) && |days| > 0 && t in c.leads && t >= 0 && (c.periodEnd, Some(t)) !in initial
    requires c.noticeDays.Some? ==> c.noticeDays.value >= 0
    requires Ordinal(days[0]) <= Ordinal(c.ActionDate()) - t && Ordinal(c.periodEnd) <= Ordinal(days[|days| - 1])
    ensures k < |days| && DaysBetween(c.ActionDate(), days[k]) == t
    ensures Emitted(c, days, initial, k).Some? && Emitted(c, days, initial, k).value.lead == Some(t)
    ensures forall j :: 0 <= j < |days| && j != k && Emitted(c, days, initial, j).Some?
                        ==> Emitted(c, days, initial, j).value.lead != Some(t)
  {
    hide Emitted;
    if c.noticeDays.Some? {
      PlusDaysOrdinal(c.periodEnd, -c.noticeDays.value);
    }
    DailyOrdinal(days, |days| - 1);
    k := Ordinal(c.ActionDate()) - t - Ordinal(days[0]);
    DailyOrdinal(days, k);
    forall i: nat, j: nat | i < j < |days| ensures Ordinal(days[i]) < Ordinal(days[j]) {
      DailyOrdinal(days, i);
      DailyOrdinal(days, j);
    }
    FiresWhenReached(c, days, initial, k, t);
    forall j: nat | j < |days| && j != k && Emitted(c, days, initial, j).Some?
      ensures Emitted(c, days, initial, j).value.lead != Some(t)
    {
      OnlyOnce(c, days, initial, j, k, t);
    }
  }

  lemma {:induction false} OnlyOnce(c: Contract, days: seq<Day>, initial: Sent, j: nat, k: nat, t: int)
    requires j < |days| && k < |days| && j != k
    requires Emitted(c, days, initial, k).Some? && Emitted(c, days, initial, k).value.lead == Some(t)
    requires Emitted(c, days, initial, j).Some?
    ensures Emitted(c, days, initial, j).value.lead != Some(t)
  {
    EmitsOwed(c, days[j], SentBefore(c, days, initial, j));
    EmitsOwed(c, days[k], SentBefore(c, days, initial, k));
    if j < k {
      NeverRepeats(c, days, initial, j, k);
    } else {
      NeverRepeats(c, days, initial, k, j);
    }
  }
}
