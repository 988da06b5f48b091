# A verified model of the money, approval, contract and reader cores

The repository decides how much money a purchase order is worth in the base currency, who has to
approve it, when a contract's goods are due and what happens when the contract renews. Those
decisions are made by a small number of dense algorithms, mostly in Rust. This project restates
them in Dafny and proves what they promise. Code that changes tables, vectors or strings step by
step is a method with its loops, proved against a function; code made of expressions is a function;
the promises are lemmas about those functions.

| Part | Modules | What is settled |
|---|---|---|
| Exact decimal money | `DigitStrings`, `Decimal`, `DecimalMul`, `Money`, `DecimalText`, `DecimalParse`, `Rates` | Multiplication over digit cells with delayed carry is exact, money is rounded once and half up, totals do not depend on line order, the grammar is read exactly and undone by the printer. |
| Approval chains on the cost-center tree | `CostCenters`, `Descendants`, `Reparenting`, `Chains`, `ChainMeaning`, `ApprovalRuns` | The management guard and the evaluator agree: no run of accepted edits can put an active center into the evaluator's error branch; the chain found, the band taken and each reason are stated on the stored rows. |
| Contract calendar | `Calendar`, `Schedule`, `Renewal`, `Alerts`, `Commitments` | Schedules conserve quantities, renewal tiles time, refusals and drift happen in exactly the clamped cases, alerts never repeat, the one-pass comparison equals its sums. |
| JSON text | `Json`, `PyJson`, `JsonReader`, `JsonStrings`, `JsonNumbers`, `JsonRoundTrip`, `JsonShape`, `JsonAscii` | A reader written from RFC 8259 gives back every printed value, so the signed text identifies the payload; its spacing, escapes and number forms are fixed character by character. |
| Plan ceilings | `Limits` | Over every interleaving of requests that take the tenant lock first, rows never pass the ceiling; over every interleaving, a refused request that rolled back left its own record unless that write failed. |
| QR reader | `QrMask`, `QrCount`, `QrScan`, `QrBlocks`, `QrPlaces`, `QrDecode` | The function table is filled correctly, leaves exactly the number of modules the formula says, the zigzag reads each of them once in the order of the standard, the data mask comes off, and the blocks come back. |
| Chunks and client addresses | `SplitText`, `Networks`, `AddressText`, `ForwardedAddress` | Splitting ends on every text exactly below a stated overlap, and loses no visible character wherever it ends; text left of the trusted entries never changes the client; networks are prefixes of integers, nested or disjoint. |

`Wrappers`, `Algebra`, `Sorting`, `Sums` and `Whitespace` hold the shared option and result types,
arithmetic, sorting, sums and trimming.

Some promises in the repository hold only under a condition. Each of these is stated as an
equivalence, and a lemma gives an input or a run at which the promise fails:

- `next_term` is documented as answering nothing past year 9999 (`backend-rs/src/contract_renewal.rs:242`).
  It answers a term inside the calendar exactly when the old term is recognised as whole months or has
  room for as many days again (`Renewal.NextTermStored`); and whole months are recognised exactly when
  they do not end on 31 December 9999 (`Renewal.WholeMonthsRecognised`). The year 9999 itself is twelve
  months, is not recognised, and is followed by a term in year 10000 (`Renewal.LastYearWitness`,
  `Renewal.DaysPassYear9999`). A renewal refuses all of these (`Renewal.FittingTermStored`).
- A renewed run of terms starts `n * m` months after the first exactly when no shorter month came
  in between (`Renewal.NthStartExact`); from 31 January it drifts to the 28th (`Renewal.DriftWitness`).
- A whole-month contract whose releases all lie in its term is refused exactly for a release in the
  clamped tail of the starting month (`Renewal.MonthTermsRefuseExactly`, `Renewal.RefusalWitness`).
- `split_evenly` is documented as adding up to exactly the total (`backend-rs/src/contract_renewal.rs:111`).
  A line's releases do so exactly when the total is not negative and has at most four decimals
  (`Schedule.LineConserves`). Totals are checked to be positive, but not for decimals
  (`backend/inventory/supply_contract_service.py:243`): a total of 0.00001 gives no release at all
  (`Schedule.FineTotalWitness`). Otherwise the sum is off by at most half a unit of the fourth decimal a line.
- `to_text_trimmed` subtracts a length; the subtraction leaves its range exactly for a zero kept with two
  or more spare decimals (`DecimalText.TrimUnderflowsExactly`, `DecimalText.TrimUnderflowWitness`). The value
  shown is right even then, because the release build wraps, and no decimal that was read from text is
  such a zero (`DecimalParse.ParsedNeverUnderflows`).
- The chunk loop ends on every text exactly when the overlap is below `min(size, size / 2 + 2)`
  (`SplitText.TerminationExactly`); the defaults satisfy it. At or above that there is a text on which it
  never ends (`SplitText.EndlessWitness`).
- "Count, then write" keeps a ceiling when every writer takes the tenant lock first, and only then
  (`Limits.RowsNeverPassCeiling`, `Limits.EveryWriterMustLock`). One writer does not: the update of a stock
  row (`backend-rs/src/routes/w3/stock.rs:501-502`) inserts a row when the one it looked up has been deleted
  since. With one other writer, which does hold the lock, a ceiling of one is passed (`Limits.WithoutTheLock`).

- The alignment step is the standard's in every version but 32 (`QrMask.StepIsStandard`), which the reader's
  tables do not reach.

`dafny verify dfyconfig.toml` checks the whole project.

## Model

| member | source | states |
|---|---|---|
| DigitStrings.StripIsDigits | backend-rs/src/fx.rs:62-69 | Stripping leading zeros gives the one canonical digit string of the same number. |
| DecimalMul.Mul | backend-rs/src/fx.rs:171-191 | The product of two canonical decimals is canonical and worth exactly the product of the two values, over every pair whose shorter factor the 32-bit cells can hold. |
| DecimalMul.AddRow | backend-rs/src/fx.rs:177-181 | One row of digit products brings the cells from the partial product of `i` rows to that of `i + 1`, with every cell within its bound. |
| DecimalMul.AddRows | backend-rs/src/fx.rs:176-181 | Before any carry the cells already weigh the whole product, and none exceeds 81 times the shorter length. |
| DecimalMul.CellsAreProduct | backend-rs/src/fx.rs:176-181 | The cells of the first `i` rows weigh the product of `a`'s last `i` digits with `b`. |
| DecimalMul.PropagateCarry | backend-rs/src/fx.rs:182-188 | The delayed carry keeps the number, turns every cell into a digit, never overflows 32 bits and carries nothing out of the last cell. |
| Decimal.ProductIsExact | backend-rs/src/fx.rs:171-191 | The reference product is canonical and has the product of the values. |
| Decimal.RoundedIsNearest | backend-rs/src/fx.rs:193-230 | The rounded decimal is a canonical money value at most half a cent away, ties going up. |
| Money.DroppedDigits | backend-rs/src/fx.rs:204-213 | Looking only at the first dropped digit decides exactly what rounding half up of the whole value decides. |
| Money.Increment | backend-rs/src/fx.rs:213-228 | Carrying one through trailing nines adds one to the number. |
| Money.RoundMoney | backend-rs/src/fx.rs:194-230 | For every canonical decimal of any length the result is floor(100 v + 1/2) / 100. |
| Money.AddMoney | backend-rs/src/fx.rs:233-251 | Column addition of two money values is canonical and exact. |
| Decimal.SumIsExact | backend-rs/src/fx.rs:233-251 | The reference sum of two money values is exact. |
| Money.ThreeFactorsFit | backend-rs/src/fx.rs:9-14 | Any three decimals that can be read from text multiply without leaving the 32-bit cells, in at most 210 digits. |
| Money.Convert | backend-rs/src/fx.rs:317-320 | Conversion is the exact product rounded once. |
| Money.ConvertLine | backend-rs/src/fx.rs:322-325 | A line in a foreign currency is the exact triple product rounded once. |
| Money.BaseLineValue | backend-rs/src/fx.rs:327-330 | A line in the base currency is the exact product rounded once. |
| Money.Total | backend-rs/src/fx.rs:332-335 | The total of money values is their exact sum. |
| Money.TotalIgnoresOrder | backend-rs/src/fx.rs:332-335 | Reordering the lines gives the same decimal digit for digit. |
| Money.LineValue | backend-rs/src/fx_eval.rs:54-58 | A line with or without a rate is its exact value rounded once. |
| Money.TotalLines | backend-rs/src/fx_eval.rs:50-61 | The total of `n` lines is within half a cent per line of the unrounded total. |
| DecimalText.CompareIsNumeric | backend-rs/src/fx.rs:253-268 | Comparing padded digit strings by length and then digit by digit is the order of the values. |
| DecimalText.ScanSignificantScale | backend-rs/src/fx.rs:271-282 | The scan over trailing zeros computes the significant scale. |
| DecimalText.SignificantScaleIsExact | backend-rs/src/fx.rs:270-282 | The significant scale is at most `k` exactly when the value is a whole number of units of 10^-k. |
| DecimalText.ToText | backend-rs/src/fx.rs:284-298 | The printed text is the decimal's plain notation, zero-filled on the left when there are more decimals than digits. |
| DecimalText.TextShape | backend-rs/src/fx.rs:286-298 | The text is a whole part without leading zeros and, after a point, exactly as many decimals as the scale. |
| DecimalText.ToTextTrimmed | backend-rs/src/fx.rs:300-314 | The text is the plain notation of the value at its kept scale, whichever way the digits were cut. |
| DecimalText.ShownKeepsValue | backend-rs/src/fx.rs:300-314 | That notation has the same value, at most the decimals stored, and past the minimum only significant ones. |
| DecimalText.TrimKeepsValue | backend-rs/src/fx.rs:302-314 | Truncating to the kept scale keeps the value, wrap-around of the length subtraction included. |
| DecimalText.TrimUnderflowsExactly | backend-rs/src/fx.rs:302-314 | The length subtraction underflows exactly for a zero with at least two decimals more than the minimum. |
| DecimalText.TrimUnderflowWitness | backend-rs/src/fx.rs:302-314 | The empty total, trimmed to no decimals, is such a zero; it is shown as zero. |
| DecimalParse.ParseMeaning | backend-rs/src/fx.rs:79-142 | Every text of the grammar gets its meaning: the exact value, or the error its size or precision calls for. |
| DecimalParse.GrammarIsComplete | backend-rs/src/fx.rs:82-142 | Every text that is not refused as not a number is a rendering of the grammar. |
| DecimalParse.ParseIsExact | backend-rs/src/fx.rs:82-142 | An accepted text is in the grammar and its value is mantissa times power of ten, unrounded and within the size limits. |
| DecimalParse.PrintThenParse | backend-rs/src/fx.rs:82-142 | Reading what `to_text` wrote gives the decimal back; a zero loses only its scale. |
| DecimalParse.ParsedNeverUnderflows | backend-rs/src/fx.rs:302-314 | No decimal read from text is such a zero: a zero is read with no decimals. |
| DecimalParse.RateAccepted | backend-rs/src/fx.rs:337-350 | A rate is accepted exactly when it reads as a value in [1e-10, 1e9] with at most ten significant decimals. |
| Rates.Resolve | backend-rs/src/fx.rs:361-375 | The answer is the latest applicable row, the first of equals, and none exactly when no row applies. |
| Rates.LaterDayLaterRate | backend-rs/src/fx.rs:361-375 | One row is in force on a day, and a later day never goes back to an earlier one. |
| Rates.StaysInForce | backend-rs/src/fx.rs:361-375 | A row stays in force exactly until the day another applicable row starts. |
| CostCenters.RootedExact | backend-rs/src/chain.rs:313-322 | A center that reaches a root within the cap has one exact number of nodes above it. |
| CostCenters.NoCycle | backend-rs/src/chain.rs:306-322 | A center that reaches a root is not its own ancestor. |
| CostCenters.UpIsPath | backend-rs/src/chain.rs:163-185 | Following links is walking a path of stored rows, each naming the next as its parent; an empty parent names none. |
| CostCenters.ByIdIsLast | backend-rs/src/chain.rs:163 | The table built from the rows holds the last row of each id. |
| Descendants.BuildKids | backend-rs/src/chain.rs:281-286 | The table lists under each parent the ids of exactly its rows, in order. |
| Descendants.KidsExactly | backend-rs/src/chain.rs:281-286 | With unique ids a center is listed under a parent exactly when its row names that parent. |
| Descendants.VisitedExactly | backend-rs/src/chain.rs:288-301 | When the worklist is empty, what was seen is exactly what lies within the cap below the center. |
| Descendants.Descendants | backend-rs/src/chain.rs:279-304 | On any parent graph, cyclic ones included, the walk ends with a sorted list without duplicates of exactly the nodes that reach the center by at most 32 parent links. |
| Reparenting.CountAbove | backend-rs/src/chain.rs:313-322 | The walk up answers the number of nodes on the way to the root, or gives up exactly past the cap. |
| Reparenting.CountBelow | backend-rs/src/chain.rs:323-340 | The level walk answers the height of the subtree, or more than the cap when the subtree is higher. |
| Reparenting.DepthVerdict | backend-rs/src/chain.rs:323-343 | Nodes above plus one plus height exceed the cap exactly when some path through the moved node is longer than the cap. |
| Reparenting.ReparentProblem | backend-rs/src/chain.rs:306-345 | The guard answers the declarative verdict: a cycle, too deep, or none. |
| Reparenting.VerdictIsExact | backend-rs/src/chain.rs:306-345 | On a rooted tree a move is accepted exactly when every node stays rooted within the cap, and called a cycle exactly when it makes one. |
| Reparenting.TooDeepRefused | backend-rs/src/chain.rs:306-345 | A move refused for depth has a node whose path to the root would be longer than the cap. |
| Reparenting.GuardIsExact | backend-rs/src/chain.rs:306-345 | On the stored rows the guard accepts a move exactly when the result is again a complete, acyclic, bounded forest. |
| Reparenting.CreateKeepsForest | backend-rs/src/routes/cost_centers.rs:272-283 | Creating under a parent that the guard accepted with a placeholder row keeps the forest. |
| Reparenting.MoveExactly | backend-rs/src/routes/cost_centers.rs:331-352 | A move sets that one parent exactly when it is none, or is active and the moved tree is well formed, and changes nothing else. |
| Reparenting.CreateExactly | backend-rs/src/routes/cost_centers.rs:272-292 | A new id is stored exactly when its parent is none, or is active and the tree with the new row is well formed: the placeholder check refuses nothing else. |
| Reparenting.ActivateExactly | backend-rs/src/routes/cost_centers.rs:353-370 | Switching a center on or off changes that flag and nothing else. |
| Reparenting.ApplyKeepsForest | backend-rs/src/routes/cost_centers.rs:331-352 | Every edit as the routes make it keeps the forest. |
| Reparenting.RunKeepsForest | backend-rs/src/routes/cost_centers.rs:271-352 | So does every run of such edits. |
| Chains.LoopIsBroken | backend-rs/src/chain.rs:169-185 | Stopping at a visited node loses nothing: a longer walk from there would find no chain. |
| Chains.FindChain | backend-rs/src/chain.rs:150-190 | The walk answers the declarative lookup, with its three reasons. |
| Chains.SearchIsNearest | backend-rs/src/chain.rs:150-190 | The lookup hits a chain exactly when it is the first active chain of the nearest ancestor that has one, within the cap. |
| Chains.SearchIsRoot | backend-rs/src/chain.rs:150-190 | The lookup falls back to the default exactly when it reaches a stored center without a parent, within the cap and with no chain on the way. |
| ChainMeaning.FirstChainIs | backend-rs/src/chain.rs:155-174 | The chain of a center, or the default, is the first one that is active and names it; there is none exactly when no active one does. |
| ChainMeaning.WalkExactly | backend-rs/src/chain.rs:150-190 | The walk hits exactly the first active chain of the nearest center on the path that has one, and reaches the root exactly when no center on the path has one, both within the cap. |
| ChainMeaning.FoundExactly | backend-rs/src/chain.rs:150-190 | A chain is found exactly when it is the first active default and no center is given, or the center is active and it is the nearest active chain, or the first active default with none on the way to the root. |
| ChainMeaning.MissingExactly | backend-rs/src/chain.rs:150-190 | Which of the three reasons is answered, and exactly when. |
| Chains.GoodForestAnswers | backend-rs/src/chain.rs:150-190 | On a well-formed tree an active center is never answered `cost_center_invalid`. |
| Chains.DedupSorted | backend-rs/src/chain.rs:75-85 | Removing equal neighbours of a sorted list leaves each member once, ascending. |
| Chains.UsersCanonical | backend-rs/src/chain.rs:70-86 | The stored form of a user level depends only on which users it names. |
| ChainMeaning.LevelExactly | backend-rs/src/chain.rs:62-89 | A level is accepted exactly as a known role, or as the distinct non-empty names of a list of one to twenty, in ascending order. |
| ChainMeaning.LevelsInOrder | backend-rs/src/chain.rs:91-97 | A list of levels is accepted level by level and keeps its order. |
| ChainMeaning.BandExactly | backend-rs/src/chain.rs:127-147 | A band is its non-negative amount with one to five levels in stored order, and nothing else is accepted. |
| ChainMeaning.StoredBandsExactly | backend-rs/src/chain.rs:127-147 | Stored bands are valid exactly when there are one to ten, each is a band and no two share an amount. |
| Json.FloatLeads | backend-rs/src/chain.rs:133-137 | A stored float is its first digit at `10^exponent` and less than one more of those. |
| Chains.ValidBands | backend-rs/src/chain.rs:127-147 | The loop accepts exactly the stored bands that the rule accepts and answers them sorted by amount. |
| Chains.SortedBandsAscend | backend-rs/src/chain.rs:127-147 | Valid bands are strictly ascending in amount and are the same bands. |
| Chains.BandOrderIrrelevant | backend-rs/src/chain.rs:127-147 | Permuting the stored bands never changes the result. |
| Chains.Resolve | backend-rs/src/chain.rs:233-277 | The resolver answers the declarative resolution. |
| ChainMeaning.WithoutChain | backend-rs/src/chain.rs:233-247 | With no active chain nothing is required; with one, and none found, the order is unresolved for the reason of the lookup. |
| ChainMeaning.UnusableChain | backend-rs/src/chain.rs:248-253 | A malformed chain and an unknown amount are unresolved for exactly those reasons, with the id of the chain. |
| ChainMeaning.DecisionExactly | backend-rs/src/chain.rs:254-277 | Of a found valid chain and a known amount: without escalation the greatest stored band within reach, not marked escalated, and nothing required exactly when none is; with it the greatest stored band, marked escalated; always the id of that chain. |
| Chains.TopReachedMeans | backend-rs/src/chain.rs:254-266 | The band taken is the highest one the amount reaches, within the shared tolerance. |
| Chains.FailClosed | backend-rs/src/chain.rs:233-277 | An order needs no approval exactly when no chain is active, or the chain is valid, the amount known, nobody escalates and every band lies above the amount. |
| Chains.MonotoneInAmount | backend-rs/src/chain.rs:233-277 | A higher amount never lowers the band and never changes whether or why an order is unresolved. |
| Chains.EscalationNeverRescues | backend-rs/src/chain.rs:233-277 | Escalation takes the top band of a decidable order and changes nothing about an unresolved one. |
| ApprovalRuns.GuardedEditsKeepEvaluatorSound | backend-rs/src/chain.rs:150-345 | After any run of guarded edits of a well-formed tree, no order of an active center is unresolved as `cost_center_invalid`. |
| Calendar.AddMonthsMeans | backend-rs/src/contract_renewal.rs:60-68 | A move by `k` months lands `k` months on, on the clamped day, and exists exactly in years 1 to 9999. |
| Calendar.MonthLengths | backend-rs/src/contract_renewal.rs:50-58 | The eleven months other than February have 30 or 31 days, as the calendar does. |
| Calendar.FebruaryLength | backend-rs/src/contract_renewal.rs:50-58 | February has 29 days exactly in years divisible by 4 and not by 100, or by 400. |
| Calendar.FourHundredYears | backend-rs/src/contract_renewal.rs:70-76 | Four hundred years later is 146,097 days later. |
| Calendar.KnownDays | backend-rs/src/contract_renewal.rs:70-76 | Known days have their known numbers. |
| Calendar.AddMonthsMonotone | backend-rs/src/contract_renewal.rs:60-68 | Moving two dates by the same months never reverses them. |
| Calendar.AddMonthsIncreases | backend-rs/src/contract_renewal.rs:60-68 | More months from one start is strictly later. |
| Calendar.OrdinalOrder | backend-rs/src/contract_renewal.rs:74-76 | The day numbering is the calendar order. |
| Calendar.PlusDaysOrdinal | backend-rs/src/contract_renewal.rs:70-76 | Adding `n` days moves the number by `n`, over leap years and month ends. |
| Schedule.ReleaseDates | backend-rs/src/contract_renewal.rs:94-109 | The loop answers the call-off dates of the period up to the cap. |
| Schedule.DatesComplete | backend-rs/src/contract_renewal.rs:94-109 | Those dates strictly increase, lie inside the period and miss none of it up to the cap. |
| Schedule.MonthlyDates | backend-rs/src/contract_renewal.rs:94-109 | Monthly date `k` is in month `k` after the start, on the start day or the last day of a shorter month. |
| Schedule.MonthlyComplete | backend-rs/src/contract_renewal.rs:94-109 | Every such day of the period, up to the cap, is in its place. |
| Schedule.WeeklyDates | backend-rs/src/contract_renewal.rs:94-109 | Weekly date `k` is `7k` days after the start. |
| Schedule.WeeklyComplete | backend-rs/src/contract_renewal.rs:94-109 | Every such day of the period, up to the cap, is in its place. |
| Schedule.SplitConserves | backend-rs/src/contract_renewal.rs:112-125 | The parts add up exactly to a four-decimal total, and to within half a unit of any other. |
| Schedule.SplitHasFourDecimals | backend-rs/src/contract_renewal.rs:112-125 | Whatever the total, the parts add up to a number of four decimals. |
| Schedule.WholePartsAreEven | backend-rs/src/contract_renewal.rs:112-125 | A whole total splits into whole parts that differ by at most one, larger ones first. |
| Schedule.FractionPartsAreEven | backend-rs/src/contract_renewal.rs:122-124 | Of any other total all parts but the last are the share of one release cut off after four decimals. |
| Schedule.PartsNonNegative | backend-rs/src/contract_renewal.rs:112-125 | No part of a non-negative total is negative, the last one included. |
| Schedule.EmitLine | backend-rs/src/contract_renewal.rs:142-148 | A line emits its positive parts on their dates. |
| Schedule.EmittedExactly | backend-rs/src/contract_renewal.rs:142-148 | What a line emits is exactly its positive parts, each on its own date. |
| Schedule.EvenReleasesExactly | backend-rs/src/contract_renewal.rs:139-148 | The spread schedule is exactly what its lines emit. |
| Schedule.ScheduleOrder | backend-rs/src/contract_renewal.rs:150 | The schedule runs by date, and on one date by product. |
| Schedule.ExpandReleases | backend-rs/src/contract_renewal.rs:130-152 | The schedule is the explicit releases, or every line spread over the dates, sorted by date and product. |
| Schedule.LineConserves | backend-rs/src/contract_renewal.rs:130-152 | With a date to put them on, the releases of a line add up to its total exactly when the total is not negative and has at most four decimals. |
| Schedule.FineTotalWitness | backend-rs/src/contract_renewal.rs:112-125 | A total of 0.00001, which is accepted, is split into nothing and emits nothing. |
| Schedule.ScheduleConserves | backend-rs/src/contract_renewal.rs:130-152 | For every product the schedule holds what the lines order, to within half a unit of the fourth decimal for each line that has more decimals, and exactly when none has; each release is positive. |
| Renewal.TermUnique | backend-rs/src/contract_renewal.rs:235-240 | A term has at most one whole-month length. |
| Renewal.WholeMonthsExact | backend-rs/src/contract_renewal.rs:235-240 | The three candidates tried find every length that `add_months` can reach, and nothing else. |
| Renewal.WholeMonthsRecognised | backend-rs/src/contract_renewal.rs:235-240 | A stored term is answered `k` months exactly when it covers `k` whole months and does not end on the last day of year 9999. |
| Renewal.TermsTile | backend-rs/src/contract_renewal.rs:242-251 | The next term starts the day after the last, and a term in days keeps its length. |
| Renewal.NextWholeTerm | backend-rs/src/contract_renewal.rs:242-251 | A term of `m` months is followed by one of `m` months, starting `m` months after its start. |
| Renewal.NthTerm | backend-rs/src/contract_renewal.rs:242-251 | The `n`-th renewal exists exactly when its end month is within the calendar; it is again `m` months, and its start day is the running minimum over the starting months passed. |
| Renewal.NthStartExact | backend-rs/src/contract_renewal.rs:242-251 | Of the renewals that exist, the `n`-th starts `n * m` months after the first exactly when no shorter month came in between. |
| Renewal.NoDriftUpTo28 | backend-rs/src/contract_renewal.rs:242-251 | From a start day of at most 28 every renewal that exists does. |
| Renewal.DriftWitness | backend-rs/src/contract_renewal.rs:242-251 | From 31 January it does not. |
| Renewal.DaysPassYear9999 | backend-rs/src/contract_renewal.rs:242-251 | A two-day term at the end of year 9999 has a successor in year 10000. |
| Renewal.NextTermStored | backend-rs/src/contract_renewal.rs:242-251 | The next term lies in years 1 to 9999 exactly when the old one is recognised as whole months or has room for as many days again. |
| Renewal.LastYearWitness | backend-rs/src/contract_renewal.rs:242-251 | The year 9999 is twelve whole months, is not recognised, and its next term starts in year 10000. |
| Renewal.FittingTermStored | backend-rs/src/contract_renewal.rs:279-283 | A term that passes the ten-year limit lies in years 1 to 9999, so a renewal never answers a date past them. |
| Renewal.ShiftInDays | backend-rs/src/contract_renewal.rs:253-262 | A release of a term in days moves into the new term. |
| Renewal.ShiftInMonths | backend-rs/src/contract_renewal.rs:253-262 | A release of a whole-month term moves into the new term except in the one clamped case. |
| Renewal.ShiftMoves | backend-rs/src/contract_renewal.rs:253-262 | A release moves on as many months as its term, to the clamped day, or stays as many days into it; it cannot move exactly when that leaves the calendar. |
| Renewal.RenewalTerms | backend-rs/src/contract_renewal.rs:264-300 | The loop answers the new term with every release moved and sorted, or the first release that falls out, or a term that is too long. |
| Renewal.RenewalKeepsGoods | backend-rs/src/contract_renewal.rs:264-300 | A successful renewal keeps the multiset of products and quantities, stays inside the new term and is sorted. |
| Renewal.RenewalMoves | backend-rs/src/contract_renewal.rs:264-300 | A renewed schedule is, up to order, the old one with every release moved as its term is. |
| Renewal.RefusesFirst | backend-rs/src/contract_renewal.rs:264-300 | A refusal is that of the first release that cannot move, and names its product, its date and the date it would have had. |
| Renewal.FitsExactly | backend-rs/src/contract_renewal.rs:279-283 | A term fits exactly when it exists and ends no later than the day 120 months after its start. |
| Renewal.DayTermsNeverRefuse | backend-rs/src/contract_renewal.rs:264-300 | A term in days never refuses its own releases. |
| Renewal.MonthTermsRefuseExactly | backend-rs/src/contract_renewal.rs:264-300 | A whole-month term refuses exactly for a release in the clamped tail. |
| Renewal.NeverRefusedUpTo28 | backend-rs/src/contract_renewal.rs:264-300 | From a start day of at most 28 there is no such tail. |
| Renewal.RefusalWitness | backend-rs/src/contract_renewal.rs:264-300 | 31 December to 30 January with a release on the last day is refused, naming the release and where it would move. |
| Alerts.NearestMeans | backend-rs/src/contract_renewal.rs:223-224 | The lead taken is the smallest configured one not below the days left. |
| Alerts.OwedExactly | backend-rs/src/contract_renewal.rs:203-232 | The expired alert is owed exactly after the end; before it a lead exactly when it is the least configured one not below the days left to the end less the notice period. |
| Alerts.AlertSays | backend-rs/src/contract_renewal.rs:210-231 | An alert carries the end, the days left, and the reason that goes with them and with the notice period. |
| Alerts.AlertExactly | backend-rs/src/contract_renewal.rs:203-232 | A pass raises a lead exactly when it is owed that day and neither recorded before nor owed at an earlier pass. |
| Alerts.NeverRepeats | backend-rs/src/contract_renewal.rs:203-232 | No expiry and lead are raised twice, whatever days are skipped. |
| Alerts.LeadsCountDown | backend-rs/src/contract_renewal.rs:203-232 | Raised leads strictly decrease and nothing follows the expired alert. |
| Alerts.FiresWhenReached | backend-rs/src/contract_renewal.rs:203-232 | A lead fires on the day it is reached if a pass is made that day. |
| Alerts.DailyFiresOnce | backend-rs/src/contract_renewal.rs:203-232 | With a pass every day each non-negative lead fires exactly once, on its day. |
| Commitments.IndexRows | backend-rs/src/contract_renewal.rs:316-321 | The table holds, for each product and date, the last row that names them. |
| Commitments.ScanReleases | backend-rs/src/contract_renewal.rs:322-342 | One pass over the releases gathers the committed, due and overdue figures of every product in order of appearance. |
| Commitments.ScanDeliveries | backend-rs/src/contract_renewal.rs:344-365 | One pass over the rows gathers the delivered, late and undated figures, of fulfilled rows of scheduled products only. |
| Commitments.CommitmentComparison | backend-rs/src/contract_renewal.rs:315-401 | Every exact figure, in total and per product in order of first appearance, is its declarative sum or count over the releases and rows, and the report is those figures rounded. |
| Commitments.LinesAddUp | backend-rs/src/contract_renewal.rs:366-401 | The per-product lines add up to the totals. |
| Commitments.DueWithinCommitted | backend-rs/src/contract_renewal.rs:315-401 | With no negative release, due is at most committed and the shortfall at most what remains. |
| Commitments.Round4Means | backend-rs/src/contract_renewal.rs:28-34 | A reported quantity is within half a unit of the fourth decimal, keeps the order, and is exact at four decimals. |
| Commitments.PercentMeans | backend-rs/src/contract_renewal.rs:36-42 | A percentage is given exactly of something, and is within half a tenth. |
| Commitments.ReportExactly | backend-rs/src/contract_renewal.rs:366-401 | Each column of the report and of its lines is its own figure: counts as they are, quantities the nearest four decimals, percentages the nearest one, halves to even. |
| Commitments.ReportConsistent | backend-rs/src/contract_renewal.rs:384-401 | With no negative release or delivery the term fill never exceeds the fill rate, and when all that was due is delivered the fill rate is at least 100 and no shortfall is shown. |
| PyJson.DumpsStr | backend-rs/src/pyjson.rs:61-82 | The loop appends the quoted text with the escapes of the specification. |
| PyJson.DumpsSep | backend-rs/src/pyjson.rs:88-118 | The recursion appends the text of the value in the chosen separators. |
| PyJson.DumpsItems | backend-rs/src/pyjson.rs:95-104 | So does the loop over an array. |
| PyJson.DumpsFields | backend-rs/src/pyjson.rs:105-117 | And the loop over an object. |
| JsonShape.SpacingExactly | backend-rs/src/pyjson.rs:84-133 | Outside string literals compact text has no white space, and default text has one space after each comma and colon and no other. |
| JsonShape.CompactIsSqueezed | backend-rs/src/pyjson.rs:121-133 | Compact text is default text without those spaces. |
| JsonShape.EscapeExactly | backend-rs/src/pyjson.rs:61-82 | The short escapes stand for their own characters, other printable ASCII for itself, and the rest is one `\u` with four lower-case digits for each UTF-16 unit. |
| JsonShape.IntShape | backend-rs/src/pyjson.rs:50-58 | Integers have no leading zeros. |
| JsonShape.FloatShape | backend-rs/src/pyjson.rs:18-48 | From 0.0001 to below 1e16 a float has a point and no exponent; outside that a signed exponent of at least two digits without further leading zeros. |
| JsonStrings.CharRoundTrip | backend-rs/src/pyjson.rs:61-82 | Every character comes back from its escape, surrogate pairs included, with the rest of the text untouched. |
| JsonStrings.BodyRoundTrip | backend-rs/src/pyjson.rs:61-82 | Every string comes back up to its closing quote. |
| JsonNumbers.SmallFloatRoundTrip | backend-rs/src/pyjson.rs:18-48 | A float printed with leading zeros comes back. |
| JsonNumbers.LargeFloatRoundTrip | backend-rs/src/pyjson.rs:18-48 | A float printed with a point or trailing zeros comes back. |
| JsonNumbers.ScientificRoundTrip | backend-rs/src/pyjson.rs:18-48 | A float printed with an exponent comes back. |
| JsonNumbers.NumberRoundTrip | backend-rs/src/pyjson.rs:18-58 | Every number comes back, its sign and whether it is a float included. |
| JsonRoundTrip.ValueRoundTrip | backend-rs/src/pyjson.rs:84-118 | Every nested value comes back from any place in a longer text, in both styles. |
| JsonRoundTrip.DumpsRoundTrip | backend-rs/src/pyjson.rs:121-133 | The whole text reads as the value. |
| JsonRoundTrip.TextIdentifiesValue | backend-rs/src/pyjson.rs:121-133 | Equal texts mean equal values. |
| JsonAscii.DumpsPrintable | backend-rs/src/pyjson.rs:61-133 | Only characters 0x20 to 0x7e are written. |
| Limits.AllowedWithin | backend-rs/src/limits.rs:36-53 | What the comparison allows stays within the ceiling. |
| Limits.DecideExactly | backend-rs/src/limits.rs:36-53 | No ceiling allows everything, a number exactly what stays within it, and what is no number decides nothing; a refusal names the ceiling. |
| Limits.CheckExactly | backend-rs/src/limits.rs:36-106 | A check counts stored rows and those of its own transaction, goes on, refuses with that count or fails as the ceiling says, and changes nothing else. |
| Limits.EndExactly | backend-rs/src/limits.rs:4-23 | A commit stores what the request wrote, the other ends store nothing, and all free the lock. |
| Limits.OneHolder | backend-rs/src/limits.rs:4-23 | Two requests of tenants with the same lock number are never both past the lock. |
| Limits.ExclusiveStep | backend-rs/src/limits.rs:4-23 | Every step keeps the lock exclusive and in step with the requests' phases. |
| Limits.StepBounded | backend-rs/src/limits.rs:4-23 | Every step keeps, for each request, stored rows plus those it has written and those it has been allowed within the bound. |
| Limits.RowsNeverPassCeiling | backend-rs/src/limits.rs:4-23 | Over every interleaving the stored rows never pass the bound, also when a request decides several ceilings, or one twice, before its first write. |
| Limits.CheckedTwice | backend-rs/src/routes/w3/stock.rs:435-445 | Deciding both ceilings of a new stock row, and then both again in the write itself, allows each row once. |
| Limits.StockRowIsWritten | backend-rs/src/inventory/stock.rs:213-268 | After that both rows are written and the allowance is used up. |
| Limits.RefusalSurvivesRollback | backend-rs/src/limits.rs:55-106 | Over every run from a state without refusals, a refused request never commits; once it has rolled back its own record is in the log, for good, unless the write of that very record failed; only a cancelled request may have been cut off before the write. |
| Limits.EveryRecordIsARefusal | backend-rs/src/limits.rs:83-96 | Every row a run adds to the log is the record of one refused request and of no other. |
| Limits.AccountedStep | backend-rs/src/limits.rs:55-106 | Every step keeps the books: each refused request is waiting for its record or has it, failed, or was cut off; the new rows belong to one request each. |
| Limits.FailedMeans | backend-rs/src/limits.rs:92-96 | Only a failed log write of that request excuses a missing record. |
| Limits.RefusalsAreJustified | backend-rs/src/limits.rs:55-106 | Every record in the log names a count that the ceiling then in force refused. |
| Limits.WithoutTheLock | backend-rs/src/routes/w3/stock.rs:462-503 | One update without the lock, of a row deleted since its look-up, and one writer under the lock together store two rows under a ceiling of one. |
| Limits.EveryWriterMustLock | backend-rs/src/limits.rs:4-8 | From that state the ceiling holds over all runs exactly when no writer may skip the lock. |
| QrMask.Align | Frontend/scripts/check_qr.py:22-28 | The loop from the right places the centres evenly, the first at 6. |
| QrMask.CentresAre | Frontend/scripts/check_qr.py:22-28 | The last centre is seven from the edge, and between the others but the first there is one step. |
| QrMask.StepIsStandard | Frontend/scripts/check_qr.py:22-28 | That step is the one of the standard in every version from 7 to 40 but 32, where it is 28 and not 26. |
| QrMask.AlignSpaced | Frontend/scripts/check_qr.py:22-28 | For every version the centres are at least five apart and only the first is near the edge. |
| QrMask.AlignInside | Frontend/scripts/check_qr.py:36-41 | Every alignment square lies on the symbol, so the unguarded index is always in range. |
| QrMask.FuncMask | Frontend/scripts/check_qr.py:29-49 | The table filled in place marks exactly the timing, finder, alignment, format and version modules. |
| QrCount.AlignPartSize | Frontend/scripts/check_qr.py:16-41 | The alignment modules outside the timing patterns number (5n - 1)^2 - 56 for n centres a side. |
| QrCount.FixedSize | Frontend/scripts/check_qr.py:16-49 | The other patterns cover 225 + 8v modules, and 36 more from version 7. |
| QrCount.FreeCount | Frontend/scripts/check_qr.py:16-21 | The formula is the number of modules no pattern marks, for versions 1 to 40. |
| QrScan.ScanStrip | Frontend/scripts/check_qr.py:73-79 | One strip appends the unmarked modules of its two columns in zigzag order. |
| QrScan.Scan | Frontend/scripts/check_qr.py:71-80 | The nested loops read the unmarked modules along the whole path, never outside the table. |
| QrScan.PathIsZigZag | Frontend/scripts/check_qr.py:71-80 | The whole order in closed form: strip `t` from the right is two columns, the right one first, upwards for even `t` and downwards for odd, from the corner at the lower right. |
| QrScan.BitAt | Frontend/scripts/check_qr.py:71-80 | An unmarked module gives the bit with as many before it as there are unmarked modules before it. |
| QrScan.ScanVisitsOnce | Frontend/scripts/check_qr.py:71-80 | The path passes every module outside column 6 exactly once, for every symbol size. |
| QrScan.EveryDataModuleOnce | Frontend/scripts/check_qr.py:71-80 | With column 6 marked, every unmarked module has exactly one place on the path. |
| QrDecode.DataCapacity | Frontend/scripts/check_qr.py:9 | The codewords left beside the check codewords of all blocks are the capacity the standard gives for level M. |
| QrDecode.ReadsRawModules | Frontend/scripts/check_qr.py:71-82 | The scan yields exactly as many bits as the formula says, for versions 1 to 40. |
| QrDecode.CodewordOfBits | Frontend/scripts/check_qr.py:82 | Cutting eight bits to a codeword undoes writing the codeword in bits. |
| QrDecode.BitsOfAt | Frontend/scripts/check_qr.py:82 | Bit `i` of a codeword is the one that counts 2^(7 - i). |
| QrDecode.PatternPicks | Frontend/scripts/check_qr.py:50-51 | What each of the eight masks picks out, as parities, thirds and remainders of the product by six. |
| QrDecode.MaskComesOff | Frontend/scripts/check_qr.py:50-51 | Taking the mask off gives back the data bits that were placed, for each of the eight patterns. |
| QrBlocks.OrderUsesAll | Frontend/scripts/check_qr.py:92-99 | The rows of the two block groups use up exactly the raw codewords, for all block counts and lengths. |
| QrBlocks.DeInterleave | Frontend/scripts/check_qr.py:92-99 | The loops hand each codeword to its block, read in range and end with `idx == raw`. |
| QrBlocks.DeInterleaveInverts | Frontend/scripts/check_qr.py:92-99 | De-interleaving gives back the blocks that section 7.6 of ISO/IEC 18004:2015 interleaves. |
| QrPlaces.BlocksAreAtTheirPlaces | Frontend/scripts/check_qr.py:83-99 | Every codeword of every block in closed form: rows of all blocks, then the extra row of the longer blocks, which come last, then the check rows. |
| QrDecode.Decode | Frontend/scripts/check_qr.py:69-99 | Mask table, scan with the data mask taken off, codewords and blocks compose, with every index in range, for every version the reader supports. |
| QrDecode.DecodesWhatWasPlaced | Frontend/scripts/check_qr.py:69-99 | A symbol in which interleaved blocks were placed and masked decodes to those blocks. |
| SplitText.CleanKeepsSolid | backend/ai/document_indexer.py:100 | Cleaning removes white space only and leaves none at the ends. |
| SplitText.CollapseNoTriple | backend/ai/document_indexer.py:100 | No three newlines in a row are left. |
| SplitText.CollapseRun | backend/ai/document_indexer.py:100 | Each run of newlines becomes one of at most two and nothing else changes. |
| SplitText.StripExactly | backend/ai/document_indexer.py:100 | Only white space at the two ends is stripped. |
| SplitText.TerminationExactly | backend/ai/document_indexer.py:104-124 | The loop ends on every text exactly when the overlap is below min(size, size / 2 + 2). |
| SplitText.EndlessWitness | backend/ai/document_indexer.py:106-124 | At or above that there is a cleaned text on which it never ends. |
| SplitText.StaysInPlace | backend/ai/document_indexer.py:112-124 | A separator at just the overlap brings the loop back to the same start for good. |
| SplitText.SmallOverlapEnds | backend/ai/document_indexer.py:104-124 | Below the limit every step moves forward, and the loop ends within as many steps as characters are left. |
| SplitText.WindowsCover | backend/ai/document_indexer.py:104-124 | The windows run from the start to the end of the text, are at most `size` long, and neighbours share exactly `overlap` characters. |
| SplitText.WindowsAdvance | backend/ai/document_indexer.py:104-124 | With a small overlap they only move forward, and so lie on the text. |
| SplitText.WindowsCutWell | backend/ai/document_indexer.py:111-120 | Every window on the text but the last is cut at the last separator past its middle, or is full because there is none. |
| SplitText.PiecesOfWindows | backend/ai/document_indexer.py:104-125 | The chunks are the stripped windows in order, empty ones left out. |
| SplitText.SplitText | backend/ai/document_indexer.py:98-125 | The loop answers those chunks, for every text, size and overlap on which it ends, steps back and Python's negative bounds included. |
| SplitText.ChunksTidy | backend/ai/document_indexer.py:98-125 | Every chunk is non-empty, unpadded and at most `size` long. |
| SplitText.ChunksKeepEverything | backend/ai/document_indexer.py:98-125 | Every character of the cleaned text that is not white space lies in some chunk, wherever the steps went. |
| ForwardedAddress.PrependingIgnored | backend-rs/src/ip_allowlist.rs:46-59 | Text put before a header never changes the parsed client address exactly when the header is unread or already has an entry for every trusted proxy. |
| ForwardedAddress.PeerIsClient | backend-rs/src/ip_allowlist.rs:46-59 | With no trusted proxy the client is the socket peer, whatever the header says. |
| ForwardedAddress.ClientBehindProxies | backend-rs/src/ip_allowlist.rs:46-59 | With an entry from each trusted proxy but the peer, the client is the entry before those. |
| AddressText.IpRoundTrip | backend-rs/src/ip_allowlist.rs:28-44 | Every IPv4 address reads back from its display form. |
| AddressText.V4Exactly | backend-rs/src/ip_allowlist.rs:28-44 | Nothing but the display form of four octets is read as an IPv4 address. |
| AddressText.OctetNetwork | backend-rs/src/ip_allowlist.rs:77-136 | An IPv4 network whose prefix is `k` whole octets holds exactly the addresses that start with the same `k`. |
| AddressText.MappedExactly | backend-rs/src/ip_allowlist.rs:28-107 | An IPv4-mapped text is the IPv4 address to a request and is refused as a network. |
| Whitespace.TrimExactly | backend-rs/src/ip_allowlist.rs:29 | Only white space at the two ends is trimmed. |
| AddressText.ParsedIpValid | backend-rs/src/ip_allowlist.rs:28-44 | Every address accepted has the width of its family, mapped ones included. |
| AddressText.ParsedCidrValid | backend-rs/src/ip_allowlist.rs:77-107 | Every network accepted is canonical and holds the address it was written with; without a prefix it holds nothing else. |
| AddressText.NetworkRoundTrip | backend-rs/src/ip_allowlist.rs:77-107 | An IPv4 network written as address and prefix is read with its host bits masked off. |
| Networks.NetMaskIs | backend-rs/src/ip_allowlist.rs:125-136 | The shifted word of ones is 2^width - 2^(width - prefix), prefix zero included. |
| Networks.AndHigh | backend-rs/src/ip_allowlist.rs:125-136 | The bitwise AND with it rounds down to a multiple of 2^(width - prefix). |
| Networks.ContainsIsPrefix | backend-rs/src/ip_allowlist.rs:111-136 | A network holds exactly the addresses of its family whose quotient by 2^(width - prefix) is its own. |
| Networks.MaskedIsNetwork | backend-rs/src/ip_allowlist.rs:125-136 | Masking the host bits gives a canonical network that holds the address it was written with. |
| Networks.NestedOrDisjoint | backend-rs/src/ip_allowlist.rs:111-136 | Of two networks of one family the wider holds all of the narrower or none of it. |

## Left out

- Floating point: release quantities, amounts and ceilings are real numbers. Rounding error in `split_evenly`, in sums and in report roundings, and the `{:.2}` text in approval fingerprints are not modelled.
- The conversion of stored floats and integers to decimals (`from_f64`, `from_i64`) and of counts to `f64` in `decide` is not modelled, nor is overflow of `current + adding`.
- DecimalMul.Mul: requires a shorter factor of at most 47,721,858 digits, because beyond that the 32-bit cells of the release build wrap; `Money.ThreeFactorsFit` shows that no decimal read from text comes near it.
- DecimalText.ToTextTrimmed: follows the release build, where the length subtraction wraps; a build with overflow checks would stop in the cases of `DecimalText.TrimUnderflowsExactly`.
- Descendants.Descendants: the exact set is stated for unique ids, which the table's primary key gives; sortedness and absence of duplicates hold for any rows.
- Reparenting.ReparentProblem: rows are taken to have unique, non-empty ids (a primary key).
- Calendar: chrono's own outer year range, far beyond year 9999, is not modelled; adding days never fails here.
- Alerts.DailyFiresOnce: assumes a non-negative notice period, because with a negative one the action day lies after the expiry and the expired alert pre-empts the lead.
- JSON objects are sequences of fields: uniqueness of keys in the map behind them is not modelled.
- Shortest-digit generation of floats is taken as input (digits and exponent).
- Limits.RowsNeverPassCeiling: the bound is the larger of the rows at the start and the highest ceiling in force, because a plan can be lowered below what is stored; database reads, the hash of the tenant id and `testing_mode` are parameters or absent.
- Limits.RefusalSurvivesRollback: a request whose connection is dropped is cancelled wherever it stands, and may then be cut off between its refusal and the write of the record; that a crash of the server does the same is not modelled.
- The QR reader's format word (the number of the data mask is given), its BCH and Reed-Solomon checks, and the payload text.
- QrDecode.Decode: versions 1 to 10 only, because the reader's tables end there.
- The grammar of IPv6 texts, a library call, and the search over the networks of a tenant; IPv4 texts, trimming and IPv4-mapped addresses are modelled.
- SplitText.SplitText: requires that the loop ends on the given text, as a method must; `SplitText.TerminationExactly` says for which overlaps that is every text. Strings are sequences of Unicode scalar values, so lone surrogates do not occur.
- Role ranks, the text of levels and fingerprints, default lead days, the renewal view and value formatting for display: case tables.
- HTTP routes, SQL, DNS, clocks, connection pools, mail and model clients, the forecasting engine and the user interface.
- The Python implementations of the same rules: the model follows the Rust sources named above.
