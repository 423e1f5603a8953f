# Expense split engine — a Dafny model

This project models the split calculation engine of the expense-sharing backend,
`1.Backend/server/utils/splits/calculator.py`. The engine has three calculators:

- The **equal split** divides the total among an ordered participant list, rounding each share down to the cent. The first participant absorbs what is left over.
- The **exact split** takes one amount per participant and rounds each half-up to the cent. It insists that the rounded amounts add up to the total exactly.
- The **percentage split** sorts the percentages, largest first, with a stable sort. Every participant but the last gets their percentage of the total, rounded half-up. The last in sorted order gets the remainder.

Two validators run before any arithmetic. One checks the participant list and payer; the other checks the per-type split data. The dispatcher `calculate_splits` runs both validators and then picks the calculator. The summary `format_split_summary` separates the payer's own share from what everyone else owes.

Modules:

- `Dicts` (`dicts.dfy`) — Python dicts keyed by user id.
  - A dict is its items in insertion order, each key once (`Dict<V>`).
  - `Put` is `d[k] = v`, `Get` is `d.get(k, default)`, `Sum` is `sum(d.values())`.
- `Money` (`money.dfy`) — money as whole cents.
  - `quantize(Decimal('0.01'), ROUND_DOWN)` of a quotient becomes a division that truncates towards zero (`DivTowardZero`).
  - `ROUND_HALF_UP` to the cent becomes `RoundHalfUp` of the value in cents.
- `Sorting` (`sorting.dfy`) — `sorted(items, key=value, reverse=True)`.
  - It is modelled as a stable insertion sort.
  - Lemmas prove it is a permutation, descending and stable, and that its last item holds the smallest percentage.
- `Calculator` (`calculator.dfy`) — the engine.
  - Each calculator is a `method` with the source's loop, proved against a function giving what the source returns or raises (`EqualSplitResult`, `ExactSplitResult`, `PercentageSplitResult`).
  - The lemmas beside each calculator state its promises: conservation, keys, who absorbs the remainder, the order of the checks.
  - The validators are functions whose contracts state exactly when each error is raised.
  - `CalculateSplits` and `FormatSplitSummary` are methods.
- `Oracles` (`oracles.dfy`) — the repository's unit tests and the docstring examples, proved as concrete facts about the model.

Every `raise ValueError` (and the equal split's failing `assert`) becomes an `Err` of the `SplitError` datatype. Each constructor carries the data that the source puts in its message.

### Behaviour worth knowing

The model keeps these behaviours of the code exactly as written:

- **Percentage check order.** The percentage sum is checked (tolerance 0.01) *before* any single percentage is checked against [0, 100] (`PercentageSplitOutcomes`).
- **Tie-break in the percentage sort.** Equal percentages keep the order of the percentage dict, not of the participant list. The remainder holder is therefore the smallest percentage that comes last in *dict* order (`PercentageRemainderHolder`).
- **Equal-split remainder size.** The first participant's extra is the whole truncation remainder. It can be several cents, up to n − 1: 2.00 among three gives 0.68, 0.66, 0.66 (`EqualSplitRemainderOverOneCent`). So max − min ≤ 1 cent does not hold in general (`EqualSharesDistribution` states what does).
- **Negative last percentage share.** The last percentage share can be negative. A percentage sum up to 0.01 above 100 passes, and rounding can then overshoot the total (`PercentageSplitNegativeRemainder`: 50.0045, 50.0045 and 0 percent of 1000.00 give 500.05, 500.05, −0.10). Shares are therefore not guaranteed to be non-negative.
- **No positive-total check.** No validator checks that the total is positive. The model takes any total, negative ones included.
- **Exact split compares rounded amounts.** The exact split compares the sum of the *rounded* amounts with the total, and it rejects a negative amount before comparing anything.
- **Unknown split type.** An unknown split type is rejected by `validate_split_data`, so `calculate_splits`' own "Unknown split_type" branch can never be reached (`CalculateSplits` ensures so).
- **Separate empty and duplicate errors.** An empty participant list and a repeated participant are separate errors.
- **Repeated participant in a direct call.** A direct call of `calculate_equal_split` with a repeated participant raises no validation error. The later assignment to the repeated key overwrites the earlier share, and the final `assert` fails exactly when an overwritten share is not zero. For a positive total that happens whenever the base share is at least one cent, or the first participant appears again. 100.00 among ["a", "a"] fails the assertion (`EqualSplitRepeatedParticipant`). 0.01 among ["b", "a", "a"] returns {b: 0.01, a: 0.00} (`EqualSplitRepeatedZeroShare`).

## Model

| member | source | states |
|---|---|---|
| Dicts.PutItems | 1.Backend/server/utils/splits/calculator.py:54-60 | dict assignment (`Put`) overwrites an existing key's item in place, keeping key order and size, and otherwise appends the key; no other item changes |
| Dicts.Get | 1.Backend/server/utils/splits/calculator.py:316 | `get` returns the value stored under the key, or the default when the key is absent |
| Dicts.GetPut | 1.Backend/server/utils/splits/calculator.py:316 | after `d[k] = v`, looking up `k` gives `v` and every other key gives what it gave before |
| Dicts.Sum | 1.Backend/server/utils/splits/calculator.py:63 | `sum(d.values())` over cents, defined by recursion; `SumSnoc` gives its step, and the conservation lemmas (`EqualSharesConserve`, `PercentageSharesConserve`, `OthersSum`) are stated with it |
| Dicts.SumReal | 1.Backend/server/utils/splits/calculator.py:140 | `sum(d.values())` over percentages, exact; `PercentageSplitOutcomes` states the sum test with it |
| Dicts.DistinctIffCardinality | 1.Backend/server/utils/splits/calculator.py:198 | `len(s) == len(set(s))` holds exactly when no participant occurs twice (both directions) |
| Money.DivTowardZero | 1.Backend/server/utils/splits/calculator.py:44-47 | ROUND_DOWN to the cent of total / n, as a quotient in cents truncated towards zero; `DivTowardZeroBounds` characterises it |
| Money.DivTowardZeroBounds | 1.Backend/server/utils/splits/calculator.py:44-47 | ROUND_DOWN of total / n is the multiple of n nearest the total on the side of zero: for a non-negative total, base·n ≤ total < base·n + n |
| Money.RoundHalfUp | 1.Backend/server/utils/splits/calculator.py:163-166 | ROUND_HALF_UP lands within half a unit of its argument, on the same side of zero |
| Money.ToCents | 1.Backend/server/utils/splits/calculator.py:100 | an amount rounded half-up to the cent is within half a cent of the amount, and not negative for a non-negative amount |
| Money.PercentOf | 1.Backend/server/utils/splits/calculator.py:163-166 | a percentage in [0, 100] of a non-negative total, rounded half-up, lies between 0 and the total |
| Sorting.SortByPercentage | 1.Backend/server/utils/splits/calculator.py:152-156 | `sorted(..., key=percentage, reverse=True)` as an insertion sort; its properties are the lemmas `SortIsPermutation`, `SortIsDescending`, `SortIsStable`, `SortKeepsDistinctKeys`, `LastHoldsSmallestPercentage` |
| Sorting.SortIsPermutation | 1.Backend/server/utils/splits/calculator.py:152-156 | the sorted items are a permutation (same multiset) of the dict's items |
| Sorting.SortIsDescending | 1.Backend/server/utils/splits/calculator.py:152-156 | the sorted items are in non-increasing order of percentage |
| Sorting.SortIsStable | 1.Backend/server/utils/splits/calculator.py:152-156 | for every percentage, the items holding it keep their dict order (stability of `sorted`) |
| Sorting.SortKeepsDistinctKeys | 1.Backend/server/utils/splits/calculator.py:152-156 | sorting the items of a dict yields no key twice |
| Sorting.LastHoldsSmallestPercentage | 1.Backend/server/utils/splits/calculator.py:152-171 | the last sorted item is an item of the dict with the smallest percentage, and the last item in dict order among those holding it |
| Calculator.EqualSplitResult | 1.Backend/server/utils/splits/calculator.py:37-66 | what `calculate_equal_split` returns or raises, as written, repeated participants included; `EqualSplitOfDistinct` ties it to the closed form `EqualShares`, which `EqualSharesConserve` and `EqualSharesDistribution` characterise |
| Calculator.AssignEqualShares | 1.Backend/server/utils/splits/calculator.py:54-60 | the loop builds the dict of the first participant at base + remainder and every later one at base, assigning in list order |
| Calculator.EqualSplit | 1.Backend/server/utils/splits/calculator.py:21-66 | returns exactly what the function returns or raises; for distinct participants it returns the intended shares, and any result adds up to the total |
| Calculator.EqualSplitOfDistinct | 1.Backend/server/utils/splits/calculator.py:37-66 | with a non-empty list of distinct participants the final assertion holds and the result is one share per participant, the first holding base + remainder |
| Calculator.EqualSharesConserve | 1.Backend/server/utils/splits/calculator.py:62-64 | the equal shares are keyed by the participants in list order and add up to the total exactly |
| Calculator.EqualSharesDistribution | 1.Backend/server/utils/splits/calculator.py:43-60 | for a non-negative total every later share is floor(total / n), the first is that plus total mod n, and the first share is the largest, less than n cents above any other |
| Calculator.RoundedAmounts | 1.Backend/server/utils/splits/calculator.py:96-102 | the converted dict keeps the keys of the amounts and their order; `RoundedAmountsBounds` bounds its values |
| Calculator.RoundedAmountsBounds | 1.Backend/server/utils/splits/calculator.py:96-102 | every non-negative amount becomes a non-negative number of cents within half a cent of 100 × the amount |
| Calculator.ExactSplitResult | 1.Backend/server/utils/splits/calculator.py:87-112 | what `calculate_exact_split` returns or raises; `ExactSplitOutcomes` characterises it |
| Calculator.ExactSplitOutcomes | 1.Backend/server/utils/splits/calculator.py:87-112 | fails on an empty dict, then on the first negative amount in dict order; succeeds exactly when no amount is negative and the rounded amounts sum to the total; a non-empty, non-negative dict whose rounded sum differs from the total fails with that sum and the signed difference total − sum; a success keeps the keys, sums to the total, holds no negative share |
| Calculator.ExactSplit | 1.Backend/server/utils/splits/calculator.py:68-112 | the loop returns exactly what the function returns or raises; a result keeps the keys of the amounts and sums to the total |
| Calculator.RoundedPercentages | 1.Backend/server/utils/splits/calculator.py:162-168 | the rounded shares of the items it is given (the allocation loop gives it all sorted items but the last) keep their keys and order; for a non-negative total each share of a percentage in [0, 100] lies between 0 and the total |
| Calculator.PercentageShares | 1.Backend/server/utils/splits/calculator.py:158-172 | the shares of the sorted items, the last absorbing the remainder; `PercentageSharesConserve` characterises it |
| Calculator.PercentageSplitResult | 1.Backend/server/utils/splits/calculator.py:134-178 | what `calculate_percentage_split` returns or raises; `PercentageSplitOutcomes`, `PercentageSplitSucceeds`, `PercentageRemainderHolder` and `PercentageSharesBounded` characterise it |
| Calculator.PercentageSharesConserve | 1.Backend/server/utils/splits/calculator.py:158-176 | one share per sorted item in sorted order; all but the last are the rounded percentages; the last is the total minus the others; the shares sum to the total, so the final assertion never fails |
| Calculator.PercentageSplitOutcomes | 1.Backend/server/utils/splits/calculator.py:134-149 | fails on an empty dict, then when the percentage sum is more than 0.01 from 100, then on the first percentage outside [0, 100]; succeeds exactly when none applies, with one share per key and the shares summing to the total |
| Calculator.PercentageSplitSucceeds | 1.Backend/server/utils/splits/calculator.py:146-172 | an accepted split is the shares of the sorted items, every one of which holds a percentage in [0, 100] |
| Calculator.PercentageRemainderHolder | 1.Backend/server/utils/splits/calculator.py:151-172 | the share computed as the remainder belongs to a participant with the smallest percentage, the last of those in dict order |
| Calculator.PercentageSharesBounded | 1.Backend/server/utils/splits/calculator.py:158-168 | for a non-negative total every share but the remainder lies between 0 and the total |
| Calculator.AllocateShares | 1.Backend/server/utils/splits/calculator.py:158-176 | the allocation loop and the last assignment build exactly the remainder-absorbing shares, which sum to the total |
| Calculator.PercentageSplit | 1.Backend/server/utils/splits/calculator.py:114-178 | returns exactly what the function returns or raises, checks in source order; any result sums to the total |
| Calculator.ValidateParticipants | 1.Backend/server/utils/splits/calculator.py:184-202 | passes exactly when the list is non-empty, has no repeats and contains the payer; otherwise raises the first failing check's error |
| Calculator.FirstNotInCovers | 1.Backend/server/utils/splits/calculator.py:226-234 | a membership loop runs to the end exactly when every element is in the other collection |
| Calculator.ValidateSplitData | 1.Backend/server/utils/splits/calculator.py:204-253 | passes exactly for "equal", or for "exact"/"percentage" with their dict present and keyed by exactly the participants; names the first missing participant in list order, and only when none is missing the first extra key in dict order; rejects any other type |
| Calculator.CalculateSplits | 1.Backend/server/utils/splits/calculator.py:259-299 | validation errors come first and unchanged; an accepted call returns the chosen calculator's result; any result has one share per participant summing to the total; the unknown-type branch is unreachable |
| Calculator.Others | 1.Backend/server/utils/splits/calculator.py:318-324 | the `owes` filter: the items of everyone but the payer, in dict order; `OthersMembers` and `OthersSum` characterise it |
| Calculator.OthersMembers | 1.Backend/server/utils/splits/calculator.py:318-324 | `owes` holds exactly the items of everyone but the payer, and no item of the payer |
| Calculator.OthersSum | 1.Backend/server/utils/splits/calculator.py:316-324 | the payer's share (0 when absent) plus everything owed is the sum of all shares |
| Calculator.FormatSplitSummary | 1.Backend/server/utils/splits/calculator.py:305-330 | the summary names the payer, gives the payer's share or 0, lists everyone else's items in dict order, and loses no money |
| Oracles.EqualSplitOfHundred | 1.Backend/server/utils/splits/calculator.py:33-35 | 100.00 among three participants is 33.34, 33.33, 33.33 |
| Oracles.EqualSplitOfTen | 1.Backend/tests/test_phase3_splits.py:27-35 | 10.00 among three participants is 3.34, 3.33, 3.33 |
| Oracles.EqualSplitRemainderOverOneCent | 1.Backend/server/utils/splits/calculator.py:43-58 | 2.00 among three participants is 0.68, 0.66, 0.66 |
| Oracles.EqualSplitRepeatedParticipant | 1.Backend/server/utils/splits/calculator.py:54-64 | 100.00 split directly among ["a", "a"] fails the final assertion with 50.00 against 100.00 |
| Oracles.EqualSplitRepeatedZeroShare | 1.Backend/server/utils/splits/calculator.py:44-64 | 0.01 split directly among ["b", "a", "a"] passes the final assertion and returns 0.01 for "b", 0.00 for "a" |
| Oracles.ExactSplitValid | 1.Backend/tests/test_phase3_splits.py:41-53 | 60/25/15 of 100.00 is returned unchanged |
| Oracles.ExactSplitShort | 1.Backend/tests/test_phase3_splits.py:55-64 | 60 + 30 against 100.00 is rejected, 10.00 short |
| Oracles.ExactSplitNegative | 1.Backend/server/utils/splits/calculator.py:96-98 | a negative amount is rejected even when the amounts sum to the total |
| Oracles.PercentageSplitValid | 1.Backend/tests/test_phase3_splits.py:70-82 | 50/30/20 percent of 100.00 is 50.00, 30.00, 20.00 |
| Oracles.PercentageSplitShort | 1.Backend/tests/test_phase3_splits.py:84-93 | 50 + 30 percent is rejected with the sum 80 |
| Oracles.PercentageSplitNegativeRemainder | 1.Backend/server/utils/splits/calculator.py:140-172 | 50.0045/50.0045/0 percent (sum 100.009) of 1000.00 is accepted and gives 500.05, 500.05, −0.10 |
| Oracles.CalculateSplitsEqualExample | 1.Backend/tests/test_phase3_splits.py:99-111 | an equal split of 50.00 between two is accepted and gives 25.00 each |
| Oracles.CalculateSplitsExactExample | 1.Backend/tests/test_phase3_splits.py:113-126 | an exact split 30.00/20.00 of 50.00 is accepted and kept |
| Oracles.CalculateSplitsPercentageExample | 1.Backend/tests/test_phase3_splits.py:128-140 | a 60/40 percentage split of 100.00 is accepted and gives 60.00 and 40.00 |
| Oracles.ParticipantValidationExamples | 1.Backend/server/utils/splits/calculator.py:195-202 | an empty list, a repeated participant and an outside payer each get their own error |
| Oracles.MissingAmountExample | 1.Backend/server/utils/splits/calculator.py:226-229 | a participant without an amount is named |
| Oracles.NonParticipantAmountExample | 1.Backend/server/utils/splits/calculator.py:231-234 | an amount for a non-participant is named |
| Oracles.SplitTypeExamples | 1.Backend/server/utils/splits/calculator.py:236-253 | a percentage split without percentages and an unknown split type are rejected |

## Left out

- Decimal and float conversion is not modelled: `Decimal(str(x))` of a Python float is not reproduced. The total is taken as a whole number of cents. User amounts and percentages are exact rationals (`real`), and `sum` of percentages is exact, without binary floating-point error. Near the 0.01 tolerance the two can disagree: a sum of exactly 100.01 passes in the model, while the program's float sum of 50.005 + 50.005 + 0.0 lies just over 0.01 away from 100 and is rejected. The 28-significant-digit precision of the default Decimal context is not modelled either. In the equal split's division at calculator.py:44 it matters only for totals of about 27 digits or more. In the percentage share at :163-166 it matters much sooner: the product `total * Decimal(str(percentage))` is rounded to 28 digits before the quantize, so a percentage written with 17 significant digits can change a share by a cent once the total reaches about 12 digits in cents. For example, 63644865619.64 with {B: 80.0, A: 13.063930349739389, C: 6.936069650260611} (float sum 100.0) gives A 8314520915.74 in the program, while the exact product is 831452091573.49999999999999996 cents and `PercentOf` gives 8314520915.73; C's remainder then differs by one cent as well.
- A total with more than two decimal places is not modelled. Such a total (e.g. 10.005) cannot be represented in whole cents.
- `format_split_summary` converts amounts to `float`; the summary keeps whole cents.
- Error message text is not modelled. Each `ValueError` is an error constructor carrying the values the message shows.
- The equal split's `assert` (calculator.py:64) is modelled as the error `SplitTotalMismatch`. The percentage split's `assert` (calculator.py:176) has no error: `PercentageSharesConserve` and `AllocateShares` prove it always holds. The removal of assertions under `python -O` is not modelled.
- Calls of the engine from the expense routes, the database, authentication and the rest of the backend are not part of this model.
- Calculator.EqualSharesDistribution: stated for totals of at least zero only. For a negative total the truncation remainder is negative or zero, so the first share is the smallest.
- Calculator.PercentageSharesBounded: stated for totals of at least zero only, and says nothing about the remainder holder's share. That share can be negative (`Oracles.PercentageSplitNegativeRemainder`).
