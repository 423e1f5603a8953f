/** The split calculation engine: equal, exact and percentage splits of an
    expense among its participants, the validation that runs before them, the
    dispatcher that routes on the split type, and the payer/owes summary.
    Money is in whole cents; user-given amounts and percentages are exact rationals. */
module Calculator {
  import opened Dicts
  import opened Money
  import opened Sorting

  /** Every `raise` (and the one failing `assert`) of the engine. */
  datatype SplitError =
    | NoParticipants                                          // a calculator given nothing to split
    | SplitTotalMismatch(calculated: int, total: int)         // the equal split's final assertion
    | NegativeAmount(user: UserId, amount: real)
    | AmountMismatch(calculated: int, total: int, difference: int)
    | PercentageSumMismatch(totalPercentage: real)
    | InvalidPercentage(user: UserId, percentage: real)
    | ParticipantRequired
    | DuplicateParticipants
    | PayerNotParticipant
    | MissingUserAmounts
    | MissingAmount(user: UserId)
    | NonParticipantAmount(user: UserId)
    | MissingUserPercentages
    | MissingPercentage(user: UserId)
    | NonParticipantPercentage(user: UserId)
    | InvalidSplitType(splitType: string)
    | UnknownSplitType(splitType: string)

  datatype Result<T> = Ok(value: T) | Err(error: SplitError)

  datatype Outcome = Pass | Fail(error: SplitError)

  /** The `split_data` dict: `userAmounts` is its "user_amounts" entry, `userPercentages`
      its "user_percentages" entry, None where the key is absent (or `split_data` is
      None or empty). */
  datatype SplitData = SplitData(userAmounts: Option<Dict<real>>, userPercentages: Option<Dict<real>>)

  /** The summary dict: who paid, the payer's own share, and what every other participant owes. */
  datatype Summary = Summary(paidBy: UserId, paidAmount: int, owes: seq<Entry<int>>)

  /** The index at which a `for` loop over `s` that raises on `bad` stops, or |s|. */
  function FirstIndex<T>(s: seq<T>, bad: T -> bool): (i: nat)
    ensures i <= |s|
    ensures forall j :: 0 <= j < i ==> !bad(s[j])
    ensures i < |s| ==> bad(s[i])
  {
    if s == [] then 0
    else if bad(s[0]) then 0
    else 1 + FirstIndex(s[1..], bad)
  }

  /** A loop that has passed every index below `i` and raises at `i` stopped at the first offender. */
  lemma FirstIndexAt<T>(s: seq<T>, bad: T -> bool, i: nat)
    requires i <= |s| && forall j :: 0 <= j < i ==> !bad(s[j])
    requires i < |s| ==> bad(s[i])
    ensures FirstIndex(s, bad) == i
  {
  }

  // ---------------------------------------------------------------------------
  // Equal split
  // ---------------------------------------------------------------------------

  /** The dict the loop over the participants has built after `k` rounds:
      the first participant is assigned base + remainder, every later one base. */
  function EqualDict(ps: seq<UserId>, base: int, remainder: int, k: nat): Dict<int>
    requires k <= |ps|
  {
    if k == 0 then []
    else Put(EqualDict(ps, base, remainder, k - 1), ps[k - 1], if k == 1 then base + remainder else base)
  }

  /** What `calculate_equal_split` returns or raises, as written. */
  function EqualSplitResult(total: int, ps: seq<UserId>): Result<Dict<int>>
  {
    if ps == [] then Err(NoParticipants)
    else
      var base := DivTowardZero(total, |ps|);
      var splits := EqualDict(ps, base, total - base * |ps|, |ps|);
      if Sum(splits) == total then Ok(splits) else Err(SplitTotalMismatch(Sum(splits), total))
  }

  /** The intended equal shares of distinct participants: everybody gets the
      total divided by their number, rounded towards zero to the cent, and the
      first participant also gets what that rounding leaves over. */
  function EqualShares(total: int, ps: seq<UserId>): Dict<int>
    requires ps != [] && Distinct(ps)
  {
    var base := DivTowardZero(total, |ps|);
    seq(|ps|, i requires 0 <= i < |ps| => Entry(ps[i], if i == 0 then base + (total - base * |ps|) else base))
  }

  lemma {:induction false} EqualDictOfDistinct(total: int, ps: seq<UserId>, k: nat)
    requires ps != [] && Distinct(ps) && k <= |ps|
    ensures var base := DivTowardZero(total, |ps|);
            EqualDict(ps, base, total - base * |ps|, k) == EqualShares(total, ps)[..k]
  {
    var base := DivTowardZero(total, |ps|);
    if k > 0 {
      EqualDictOfDistinct(total, ps, k - 1);
      var prev := EqualDict(ps, base, total - base * |ps|, k - 1);
      assert Keys(prev) == ps[..k - 1];
      assert ps[k - 1] !in ps[..k - 1];
      assert EqualShares(total, ps)[..k] == EqualShares(total, ps)[..k - 1] + [EqualShares(total, ps)[k - 1]];
    }
  }

  lemma {:induction false} EqualSharesPrefixSum(total: int, ps: seq<UserId>, k: nat)
    requires ps != [] && Distinct(ps) && 1 <= k <= |ps|
    ensures var base := DivTowardZero(total, |ps|);
            Sum(EqualShares(total, ps)[..k]) == total - base * |ps| + k * base
  {
    var r := EqualShares(total, ps);
    var base := DivTowardZero(total, |ps|);
    if k > 1 {
      EqualSharesPrefixSum(total, ps, k - 1);
      assert r[..k][..k - 1] == r[..k - 1];
      assert k * base == (k - 1) * base + base;
    }
  }

  /** Conservation and keys: one share per participant, in participant order, and
      the shares add up to the total exactly (the source's assertion never fails). */
  lemma EqualSharesConserve(total: int, ps: seq<UserId>)
    requires ps != [] && Distinct(ps)
    ensures Keys(EqualShares(total, ps)) == ps
    ensures Sum(EqualShares(total, ps)) == total
  {
    EqualSharesPrefixSum(total, ps, |ps|);
    assert EqualShares(total, ps)[..|ps|] == EqualShares(total, ps);
  }

  lemma EqualSplitResultOf(total: int, ps: seq<UserId>, base: int, remainder: int)
    requires ps != [] && base == DivTowardZero(total, |ps|) && remainder == total - base * |ps|
    ensures var splits := EqualDict(ps, base, remainder, |ps|);
            EqualSplitResult(total, ps)
            == if Sum(splits) == total then Ok(splits) else Err(SplitTotalMismatch(Sum(splits), total))
  {
  }

  /** With distinct participants `calculate_equal_split` succeeds with the intended shares. */
  lemma EqualSplitOfDistinct(total: int, ps: seq<UserId>)
    requires ps != [] && Distinct(ps)
    ensures EqualSplitResult(total, ps) == Ok(EqualShares(total, ps))
  {
    EqualDictOfDistinct(total, ps, |ps|);
    EqualSharesConserve(total, ps);
    assert EqualShares(total, ps)[..|ps|] == EqualShares(total, ps);
  }

  /** Who gets what, for a positive total: everybody after the first gets
      floor(total / n) cents; the first gets that plus a remainder r with
      0 <= r < n, so the first share is the largest and no share is n cents
      or more below it. */
  lemma EqualSharesDistribution(total: int, ps: seq<UserId>)
    requires total >= 0 && ps != [] && Distinct(ps)
    ensures var r := EqualShares(total, ps);
            var n := |ps|;
            && |r| == n
            && (forall i :: 1 <= i < n ==> r[i].value == total / n)
            && r[0].value == total / n + total % n
            && 0 <= total % n < n
            && (forall i :: 0 <= i < n ==> 0 <= r[0].value - r[i].value < n)
  {
    var n := |ps|;
    assert DivTowardZero(total, n) == total / n;
    assert total - (total / n) * n == total % n;
  }

  /** The loop of `calculate_equal_split` that fills the dict, participant by participant. */
  method AssignEqualShares(participants: seq<UserId>, base: int, remainder: int) returns (splits: Dict<int>)
    ensures splits == EqualDict(participants, base, remainder, |participants|)
  {
    splits := [];
    var i := 0;
    while i < |participants|
      invariant 0 <= i <= |participants|
      invariant splits == EqualDict(participants, base, remainder, i)
    {
      if i == 0 {
        splits := Put(splits, participants[i], base + remainder);
      } else {
        splits := Put(splits, participants[i], base);
      }
      i := i + 1;
    }
  }

  /** `calculate_equal_split`. A direct caller with a repeated participant reaches the
      final assertion with a dict holding fewer shares than participants. */
  method EqualSplit(total: int, participants: seq<UserId>) returns (r: Result<Dict<int>>)
    ensures r == EqualSplitResult(total, participants)
    ensures participants != [] && Distinct(participants) ==> r == Ok(EqualShares(total, participants))
    ensures r.Ok? ==> Sum(r.value) == total
  {
    if |participants| == 0 {
      return Err(NoParticipants);
    }
    var n := |participants|;
    var base := DivTowardZero(total, n);
    var allotted := base * n;
    var remainder := total - allotted;
    var splits := AssignEqualShares(participants, base, remainder);
    var calculated := Sum(splits);
    EqualSplitResultOf(total, participants, base, remainder);
    assert Distinct(participants) ==> EqualSplitResult(total, participants) == Ok(EqualShares(total, participants)) by {
      if Distinct(participants) {
        EqualSplitOfDistinct(total, participants);
      }
    }
    if calculated != total {
      return Err(SplitTotalMismatch(calculated, total));
    }
    r := Ok(splits);
  }

  // ---------------------------------------------------------------------------
  // Exact split
  // ---------------------------------------------------------------------------

  predicate IsNegative(e: Entry<real>)
  {
    e.value < 0.0
  }

  /** Each amount rounded half-up to the cent, keys and order kept. */
  function RoundedAmounts(amounts: Dict<real>): (r: Dict<int>)
    ensures Keys(r) == Keys(amounts)
    ensures forall i :: 0 <= i < |r| ==> r[i].value == ToCents(amounts[i].value)
  {
    var r := seq(|amounts|, i requires 0 <= i < |amounts| => Entry(amounts[i].key, ToCents(amounts[i].value)));
    assert Keys(r) == Keys(amounts);
    r
  }

  /** Every non-negative amount becomes a non-negative number of cents within half
      a cent of the amount. */
  lemma RoundedAmountsBounds(amounts: Dict<real>)
    ensures var r := RoundedAmounts(amounts);
            forall i :: 0 <= i < |r| && amounts[i].value >= 0.0 ==>
              && 0 <= r[i].value
              && amounts[i].value * 100.0 - 0.5 < r[i].value as real <= amounts[i].value * 100.0 + 0.5
  {
  }

  /** What `calculate_exact_split` returns or raises. */
  function ExactSplitResult(total: int, amounts: Dict<real>): Result<Dict<int>>
  {
    if amounts == [] then Err(NoParticipants)
    else
      var i := FirstIndex(amounts, IsNegative);
      if i < |amounts| then Err(NegativeAmount(amounts[i].key, amounts[i].value))
      else
        var splits := RoundedAmounts(amounts);
        if Sum(splits) != total then Err(AmountMismatch(Sum(splits), total, total - Sum(splits)))
        else Ok(splits)
  }

  /** The exact split fails on an empty dict, then on the first negative amount in
      dict order, then unless the rounded amounts add up to the total exactly (the
      error carrying total minus their sum); otherwise it returns the rounded
      amounts under the same keys, none negative, adding up to the total. */
  lemma ExactSplitOutcomes(total: int, amounts: Dict<real>)
    ensures var r := ExactSplitResult(total, amounts);
            && (amounts == [] ==> r == Err(NoParticipants))
            && (forall i :: 0 <= i < |amounts| && amounts[i].value < 0.0 &&
                  (forall j :: 0 <= j < i ==> amounts[j].value >= 0.0)
                  ==> r == Err(NegativeAmount(amounts[i].key, amounts[i].value)))
            && (r.Ok? <==> amounts != [] && (forall i :: 0 <= i < |amounts| ==> amounts[i].value >= 0.0)
                           && Sum(RoundedAmounts(amounts)) == total)
            && (amounts != [] && (forall i :: 0 <= i < |amounts| ==> amounts[i].value >= 0.0)
                && Sum(RoundedAmounts(amounts)) != total
                ==> r == Err(AmountMismatch(Sum(RoundedAmounts(amounts)), total, total - Sum(RoundedAmounts(amounts)))))
            && (r.Err? && r.error.AmountMismatch? ==>
                  r.error.calculated == Sum(RoundedAmounts(amounts)) != total
                  && r.error.difference == total - r.error.calculated)
            && (r.Ok? ==> && Keys(r.value) == Keys(amounts)
                          && Sum(r.value) == total
                          && forall i :: 0 <= i < |r.value| ==>
                               r.value[i].value == ToCents(amounts[i].value) && r.value[i].value >= 0)
  {
    var k := FirstIndex(amounts, IsNegative);
    if amounts != [] && k < |amounts| {
      forall i | 0 <= i < |amounts| && amounts[i].value < 0.0 && (forall j :: 0 <= j < i ==> amounts[j].value >= 0.0)
        ensures k == i
      {
      }
      assert !(forall i :: 0 <= i < |amounts| ==> amounts[i].value >= 0.0) by { assert IsNegative(amounts[k]); }
    } else if amounts != [] {
      var sum := Sum(RoundedAmounts(amounts));
      assert ExactSplitResult(total, amounts)
          == if sum != total then Err(AmountMismatch(sum, total, total - sum)) else Ok(RoundedAmounts(amounts));
    }
  }

  lemma RoundedAmountsStep(amounts: Dict<real>, i: nat)
    requires i < |amounts|
    ensures amounts[i].key !in Keys(RoundedAmounts(amounts[..i]))
    ensures RoundedAmounts(amounts[..i + 1])
         == RoundedAmounts(amounts[..i]) + [Entry(amounts[i].key, ToCents(amounts[i].value))]
  {
    forall j | 0 <= j < i ensures Keys(amounts[..i])[j] != amounts[i].key {
      assert amounts[..i][j] == amounts[j];
    }
  }

  /** `calculate_exact_split` */
  method ExactSplit(total: int, amounts: Dict<real>) returns (r: Result<Dict<int>>)
    ensures r == ExactSplitResult(total, amounts)
    ensures r.Ok? ==> Sum(r.value) == total && Keys(r.value) == Keys(amounts)
  {
    if |amounts| == 0 {
      return Err(NoParticipants);
    }
    var splits: Dict<int> := [];
    var calculated := 0;
    var i := 0;
    while i < |amounts|
      invariant 0 <= i <= |amounts|
      invariant forall j :: 0 <= j < i ==> !IsNegative(amounts[j])
      invariant splits == RoundedAmounts(amounts[..i])
      invariant calculated == Sum(splits)
    {
      var e := amounts[i];
      if IsNegative(e) {
        FirstIndexAt(amounts, IsNegative, i);
        return Err(NegativeAmount(e.key, e.value));
      }
      var cents := ToCents(e.value);
      RoundedAmountsStep(amounts, i);
      SumSnoc(splits, Entry(e.key, cents));
      splits := Put(splits, e.key, cents);
      calculated := calculated + cents;
      i := i + 1;
    }
    assert amounts[..i] == amounts;
    FirstIndexAt(amounts, IsNegative, i);
    if calculated != total {
      return Err(AmountMismatch(calculated, total, total - calculated));
    }
    r := Ok(splits);
  }

  // ---------------------------------------------------------------------------
  // Percentage split
  // ---------------------------------------------------------------------------

  predicate OutOfRange(e: Entry<real>)
  {
    e.value < 0.0 || e.value > 100.0
  }

  /** Each entry's percentage of the total, rounded half-up to the cent. */
  function RoundedPercentages(total: int, es: seq<Entry<real>>): (r: seq<Entry<int>>)
    ensures Keys(r) == Keys(es)
    ensures forall i :: 0 <= i < |r| ==> r[i].value == PercentOf(total, es[i].value)
    ensures forall i :: 0 <= i < |r| && 0 <= total && 0.0 <= es[i].value <= 100.0 ==> 0 <= r[i].value <= total
  {
    var r := seq(|es|, i requires 0 <= i < |es| => Entry(es[i].key, PercentOf(total, es[i].value)));
    assert Keys(r) == Keys(es);
    r
  }

  /** The shares of the sorted entries: every entry but the last gets its rounded
      percentage, the last gets the total minus all of those. */
  function PercentageShares(total: int, sorted: Dict<real>): Dict<int>
    requires sorted != []
  {
    var n := |sorted|;
    RoundedPercentagesStep(total, sorted, n - 1);
    Put(RoundedPercentages(total, sorted[..n - 1]), sorted[n - 1].key,
        total - Sum(RoundedPercentages(total, sorted[..n - 1])))
  }

  /** What `calculate_percentage_split` returns or raises. */
  function PercentageSplitResult(total: int, percentages: Dict<real>): Result<Dict<int>>
  {
    if percentages == [] then Err(NoParticipants)
    else if Abs(SumReal(percentages) - 100.0) > 0.01 then Err(PercentageSumMismatch(SumReal(percentages)))
    else
      var i := FirstIndex(percentages, OutOfRange);
      if i < |percentages| then Err(InvalidPercentage(percentages[i].key, percentages[i].value))
      else
        SortKeepsDistinctKeys(percentages);
        Ok(PercentageShares(total, SortByPercentage(percentages)))
  }

  lemma PercentageSplitAccepts(total: int, percentages: Dict<real>)
    requires percentages != [] && Abs(SumReal(percentages) - 100.0) <= 0.01
    requires FirstIndex(percentages, OutOfRange) == |percentages|
    ensures DistinctKeys(SortByPercentage(percentages))
    ensures PercentageSplitResult(total, percentages) == Ok(PercentageShares(total, SortByPercentage(percentages)))
  {
    SortKeepsDistinctKeys(percentages);
    var i := FirstIndex(percentages, OutOfRange);
    assert !(i < |percentages|);
    assert !(Abs(SumReal(percentages) - 100.0) > 0.01);
  }

  /** Remainder absorption: the shares follow the sorted entries; all but the last
      are the rounded percentages of the total, the last is what remains, so the
      shares add up to the total exactly. */
  lemma PercentageSharesConserve(total: int, sorted: Dict<real>)
    requires sorted != []
    ensures var r := PercentageShares(total, sorted);
            && Keys(r) == Keys(sorted)
            && |r| == |sorted|
            && Sum(r) == total
            && (forall i :: 0 <= i < |r| - 1 ==> r[i].value == PercentOf(total, sorted[i].value))
            && r[|r| - 1] == Entry(sorted[|sorted| - 1].key, total - Sum(r[..|r| - 1]))
  {
    var n := |sorted|;
    var head := RoundedPercentages(total, sorted[..n - 1]);
    var r := PercentageShares(total, sorted);
    RoundedPercentagesStep(total, sorted, n - 1);
    assert r == head + [Entry(sorted[n - 1].key, total - Sum(head))];
    assert r[..n - 1] == head;
    SumSnoc(head, Entry(sorted[n - 1].key, total - Sum(head)));
    assert Keys(r) == Keys(sorted);
  }

  /** Validation order of the percentage split: an empty dict first, then a
      percentage sum further than 0.01 from 100 (before any single percentage is
      looked at), then the first percentage outside [0, 100] in dict order. It
      succeeds exactly when none of these applies, with one share per key. */
  lemma PercentageSplitOutcomes(total: int, percentages: Dict<real>)
    ensures var r := PercentageSplitResult(total, percentages);
            var sum := SumReal(percentages);
            && (percentages == [] ==> r == Err(NoParticipants))
            && (percentages != [] && Abs(sum - 100.0) > 0.01 ==> r == Err(PercentageSumMismatch(sum)))
            && (forall i :: 0 <= i < |percentages| && percentages != [] && Abs(sum - 100.0) <= 0.01
                  && OutOfRange(percentages[i]) && (forall j :: 0 <= j < i ==> !OutOfRange(percentages[j]))
                  ==> r == Err(InvalidPercentage(percentages[i].key, percentages[i].value)))
            && (r.Ok? <==> percentages != [] && Abs(sum - 100.0) <= 0.01
                           && forall i :: 0 <= i < |percentages| ==> 0.0 <= percentages[i].value <= 100.0)
            && (r.Ok? ==> && Sum(r.value) == total
                          && |r.value| == |percentages|
                          && Elements(Keys(r.value)) == Elements(Keys(percentages)))
  {
    var k := FirstIndex(percentages, OutOfRange);
    forall i | 0 <= i < |percentages| && OutOfRange(percentages[i]) && (forall j :: 0 <= j < i ==> !OutOfRange(percentages[j]))
      ensures k == i
    {
    }
    var r := PercentageSplitResult(total, percentages);
    if r.Ok? {
      var sorted := SortByPercentage(percentages);
      SortKeepsDistinctKeys(percentages);
      PercentageSharesConserve(total, sorted);
      SortKeepsKeys(percentages);
      SortLength(percentages);
    }
  }

  /** Who absorbs the remainder: the entry with the smallest percentage, and among
      several with that percentage the last one in dict order. */
  lemma PercentageRemainderHolder(total: int, percentages: Dict<real>)
    requires PercentageSplitResult(total, percentages).Ok?
    ensures var r := PercentageSplitResult(total, percentages).value;
            var sorted := SortByPercentage(percentages);
            var holder := sorted[|sorted| - 1];
            && |r| == |sorted| == |percentages|
            && r[|r| - 1].key == holder.key
            && holder in percentages
            && (forall e :: e in percentages ==> holder.value <= e.value)
            && (var ties := WithPercentage(percentages, holder.value);
                ties != [] && ties[|ties| - 1] == holder)
  {
    var sorted := SortByPercentage(percentages);
    var r := PercentageSplitResult(total, percentages).value;
    var holder := sorted[|sorted| - 1];
    PercentageSplitSucceeds(total, percentages);
    PercentageSharesConserve(total, sorted);
    LastHoldsSmallestPercentage(percentages);
  }

  /** An accepted percentage split is the shares of the sorted items, every one of
      which holds a percentage in [0, 100]. */
  lemma PercentageSplitSucceeds(total: int, percentages: Dict<real>)
    requires PercentageSplitResult(total, percentages).Ok?
    ensures DistinctKeys(SortByPercentage(percentages)) && SortByPercentage(percentages) != []
    ensures PercentageSplitResult(total, percentages).value == PercentageShares(total, SortByPercentage(percentages))
    ensures var sorted := SortByPercentage(percentages);
            forall i :: 0 <= i < |sorted| ==> 0.0 <= sorted[i].value <= 100.0
  {
    var sorted := SortByPercentage(percentages);
    var k := FirstIndex(percentages, OutOfRange);
    assert percentages != [] && !(Abs(SumReal(percentages) - 100.0) > 0.01) && !(k < |percentages|);
    PercentageSplitAccepts(total, percentages);
    SortLength(percentages);
    SortMembers(percentages);
    forall i | 0 <= i < |sorted| ensures 0.0 <= sorted[i].value <= 100.0 {
      assert sorted[i] in percentages;
      var j :| 0 <= j < |percentages| && percentages[j] == sorted[i];
      assert !OutOfRange(percentages[j]);
    }
  }

  /** For a total that is not negative, every share but the remainder holder's lies
      between 0 and the total (the remainder itself may be negative). */
  lemma PercentageSharesBounded(total: int, percentages: Dict<real>)
    requires PercentageSplitResult(total, percentages).Ok? && total >= 0
    ensures var r := PercentageSplitResult(total, percentages).value;
            forall i :: 0 <= i < |r| - 1 ==> 0 <= r[i].value <= total
  {
    PercentageSplitSucceeds(total, percentages);
    PercentageSharesConserve(total, SortByPercentage(percentages));
  }

  /** Rounding the percentages of a prefix of the sorted items keeps their keys, so
      it is a dict, and the next key is not yet in it. */
  lemma RoundedPercentagesStep(total: int, sorted: Dict<real>, i: nat)
    requires i < |sorted|
    ensures DistinctKeys(RoundedPercentages(total, sorted[..i]))
    ensures sorted[i].key !in Keys(RoundedPercentages(total, sorted[..i]))
    ensures RoundedPercentages(total, sorted[..i + 1])
         == RoundedPercentages(total, sorted[..i]) + [Entry(sorted[i].key, PercentOf(total, sorted[i].value))]
  {
    var head := RoundedPercentages(total, sorted[..i]);
    forall j | 0 <= j < i ensures Keys(sorted[..i])[j] != sorted[i].key {
      assert sorted[..i][j] == sorted[j];
    }
    forall a, b | 0 <= a < b < |head| ensures head[a].key != head[b].key {
      assert head[a].key == Keys(head)[a] == sorted[a].key;
      assert head[b].key == Keys(head)[b] == sorted[b].key;
    }
  }

  /** The allocation loop of `calculate_percentage_split` over the sorted entries:
      all but the last get their rounded percentage, the last what remains; the
      closing assertion that the shares add up to the total always holds. */
  method AllocateShares(total: int, sorted: Dict<real>) returns (splits: Dict<int>)
    requires sorted != []
    ensures splits == PercentageShares(total, sorted)
    ensures Sum(splits) == total
  {
    var n := |sorted|;
    splits := [];
    var runningTotal := 0;
    var i := 0;
    while i < n - 1
      invariant 0 <= i <= n - 1
      invariant splits == RoundedPercentages(total, sorted[..i])
      invariant runningTotal == Sum(splits)
    {
      var amount := PercentOf(total, sorted[i].value);
      RoundedPercentagesStep(total, sorted, i);
      SumSnoc(splits, Entry(sorted[i].key, amount));
      splits := Put(splits, sorted[i].key, amount);
      runningTotal := runningTotal + amount;
      i := i + 1;
    }
    assert splits == RoundedPercentages(total, sorted[..n - 1]) && runningTotal == Sum(splits);
    var lastUser := sorted[n - 1].key;
    splits := Put(splits, lastUser, total - runningTotal);
    assert splits == PercentageShares(total, sorted);
    assert Sum(splits) == total by { PercentageSharesConserve(total, sorted); }
  }

  /** `calculate_percentage_split` */
  method PercentageSplit(total: int, percentages: Dict<real>) returns (r: Result<Dict<int>>)
    ensures r == PercentageSplitResult(total, percentages)
    ensures r.Ok? ==> Sum(r.value) == total
  {
    if |percentages| == 0 {
      return Err(NoParticipants);
    }
    var totalPercentage := SumReal(percentages);
    if Abs(totalPercentage - 100.0) > 0.01 {
      assert PercentageSplitResult(total, percentages) == Err(PercentageSumMismatch(totalPercentage));
      return Err(PercentageSumMismatch(totalPercentage));
    }
    var i := 0;
    while i < |percentages|
      invariant 0 <= i <= |percentages|
      invariant forall j :: 0 <= j < i ==> !OutOfRange(percentages[j])
    {
      var e := percentages[i];
      if OutOfRange(e) {
        FirstIndexAt(percentages, OutOfRange, i);
        assert PercentageSplitResult(total, percentages) == Err(InvalidPercentage(e.key, e.value));
        return Err(InvalidPercentage(e.key, e.value));
      }
      i := i + 1;
    }
    FirstIndexAt(percentages, OutOfRange, i);
    SortKeepsDistinctKeys(percentages);
    var sorted: Dict<real> := SortByPercentage(percentages);
    SortLength(percentages);
    var splits := AllocateShares(total, sorted);
    r := Ok(splits);
    assert r == PercentageSplitResult(total, percentages) by { PercentageSplitAccepts(total, percentages); }
  }

  // ---------------------------------------------------------------------------
  // Validation
  // ---------------------------------------------------------------------------

  /** `validate_split_participants`: rejects an empty list, then a list with a
      repeated participant, then a payer outside the list. */
  function ValidateParticipants(participants: seq<UserId>, paidBy: UserId): (o: Outcome)
    ensures o.Pass? <==> participants != [] && Distinct(participants) && paidBy in participants
    ensures participants == [] ==> o == Fail(ParticipantRequired)
    ensures participants != [] && !Distinct(participants) ==> o == Fail(DuplicateParticipants)
    ensures participants != [] && Distinct(participants) && paidBy !in participants ==> o == Fail(PayerNotParticipant)
  {
    DistinctIffCardinality(participants);
    if |participants| == 0 then Fail(ParticipantRequired)
    else if |participants| != |Elements(participants)| then Fail(DuplicateParticipants)
    else if paidBy !in participants then Fail(PayerNotParticipant)
    else Pass
  }

  /** Where a loop `for x in s: if x not in within: raise` stops: the first element
      of `s` missing from `within`, or |s| when there is none. */
  function FirstNotIn(s: seq<UserId>, within: seq<UserId>): (i: nat)
    ensures i <= |s|
    ensures forall j :: 0 <= j < i ==> s[j] in within
    ensures i < |s| ==> s[i] !in within
  {
    if s == [] then 0
    else if s[0] !in within then 0
    else 1 + FirstNotIn(s[1..], within)
  }

  /** The loop runs to the end exactly when every element of `s` is in `within`. */
  lemma FirstNotInCovers(s: seq<UserId>, within: seq<UserId>)
    ensures FirstNotIn(s, within) == |s| <==> Elements(s) <= Elements(within)
  {
    var i := FirstNotIn(s, within);
    if i < |s| {
      assert s[i] in Elements(s);
    } else {
      forall x | x in Elements(s) ensures x in Elements(within) {
        var k :| 0 <= k < |s| && s[k] == x;
      }
    }
  }

  /** `validate_split_data`: the equal split needs no data; the exact and percentage
      splits need their dict, with exactly the participants as keys (a missing
      participant is reported first, in list order, then a key that is not a
      participant, in dict order); any other split type is rejected. */
  function ValidateSplitData(splitType: string, participants: seq<UserId>, data: SplitData): (o: Outcome)
    ensures o.Pass? <==>
              || splitType == "equal"
              || (splitType == "exact" && data.userAmounts.Some?
                  && Elements(Keys(data.userAmounts.value)) == Elements(participants))
              || (splitType == "percentage" && data.userPercentages.Some?
                  && Elements(Keys(data.userPercentages.value)) == Elements(participants))
    ensures splitType == "exact" && data.userAmounts.None? ==> o == Fail(MissingUserAmounts)
    ensures splitType == "exact" && data.userAmounts.Some?
            && !(Elements(participants) <= Elements(Keys(data.userAmounts.value)))
            ==> o.Fail? && o.error.MissingAmount? && o.error.user !in Keys(data.userAmounts.value)
                && exists i :: 0 <= i < |participants| && participants[i] == o.error.user
                     && forall k :: 0 <= k < i ==> participants[k] in Keys(data.userAmounts.value)
    ensures splitType == "exact" && data.userAmounts.Some?
            && Elements(participants) <= Elements(Keys(data.userAmounts.value))
            && Elements(participants) != Elements(Keys(data.userAmounts.value))
            ==> o.Fail? && o.error.NonParticipantAmount? && o.error.user !in participants
                && exists j :: 0 <= j < |Keys(data.userAmounts.value)| && Keys(data.userAmounts.value)[j] == o.error.user
                     && forall k :: 0 <= k < j ==> Keys(data.userAmounts.value)[k] in participants
    ensures splitType == "percentage" && data.userPercentages.None? ==> o == Fail(MissingUserPercentages)
    ensures splitType == "percentage" && data.userPercentages.Some?
            && !(Elements(participants) <= Elements(Keys(data.userPercentages.value)))
            ==> o.Fail? && o.error.MissingPercentage? && o.error.user !in Keys(data.userPercentages.value)
                && exists i :: 0 <= i < |participants| && participants[i] == o.error.user
                     && forall k :: 0 <= k < i ==> participants[k] in Keys(data.userPercentages.value)
    ensures splitType == "percentage" && data.userPercentages.Some?
            && Elements(participants) <= Elements(Keys(data.userPercentages.value))
            && Elements(participants) != Elements(Keys(data.userPercentages.value))
            ==> o.Fail? && o.error.NonParticipantPercentage? && o.error.user !in participants
                && exists j :: 0 <= j < |Keys(data.userPercentages.value)| && Keys(data.userPercentages.value)[j] == o.error.user
                     && forall k :: 0 <= k < j ==> Keys(data.userPercentages.value)[k] in participants
    ensures splitType != "equal" && splitType != "exact" && splitType != "percentage"
            ==> o == Fail(InvalidSplitType(splitType))
  {
    if splitType == "equal" then Pass
    else if splitType == "exact" then
      if data.userAmounts.None? then Fail(MissingUserAmounts)
      else
        var keys := Keys(data.userAmounts.value);
        FirstNotInCovers(participants, keys);
        FirstNotInCovers(keys, participants);
        var i := FirstNotIn(participants, keys);
        if i < |participants| then Fail(MissingAmount(participants[i]))
        else
          var j := FirstNotIn(keys, participants);
          if j < |keys| then Fail(NonParticipantAmount(keys[j])) else Pass
    else if splitType == "percentage" then
      if data.userPercentages.None? then Fail(MissingUserPercentages)
      else
        var keys := Keys(data.userPercentages.value);
        FirstNotInCovers(participants, keys);
        FirstNotInCovers(keys, participants);
        var i := FirstNotIn(participants, keys);
        if i < |participants| then Fail(MissingPercentage(participants[i]))
        else
          var j := FirstNotIn(keys, participants);
          if j < |keys| then Fail(NonParticipantPercentage(keys[j])) else Pass
    else Fail(InvalidSplitType(splitType))
  }

  // ---------------------------------------------------------------------------
  // Dispatcher
  // ---------------------------------------------------------------------------

  /** Both validators accept the call. */
  predicate Accepted(splitType: string, participants: seq<UserId>, paidBy: UserId, data: SplitData)
  {
    ValidateParticipants(participants, paidBy).Pass? && ValidateSplitData(splitType, participants, data).Pass?
  }

  /** `calculate_splits`: both validators run before any arithmetic; then the split
      type picks the calculator. Whatever the type, an accepted split gives one
      share to each participant and the shares add up to the total. */
  method CalculateSplits(total: int, splitType: string, participants: seq<UserId>, paidBy: UserId, data: SplitData)
    returns (r: Result<Dict<int>>)
    ensures ValidateParticipants(participants, paidBy).Fail?
            ==> r == Err(ValidateParticipants(participants, paidBy).error)
    ensures ValidateParticipants(participants, paidBy).Pass? && ValidateSplitData(splitType, participants, data).Fail?
            ==> r == Err(ValidateSplitData(splitType, participants, data).error)
    ensures Accepted(splitType, participants, paidBy, data) && splitType == "equal"
            ==> r == Ok(EqualShares(total, participants))
    ensures Accepted(splitType, participants, paidBy, data) && splitType == "exact"
            ==> r == ExactSplitResult(total, data.userAmounts.value)
    ensures Accepted(splitType, participants, paidBy, data) && splitType == "percentage"
            ==> r == PercentageSplitResult(total, data.userPercentages.value)
    ensures r.Ok? ==> && Sum(r.value) == total
                      && |r.value| == |participants|
                      && Elements(Keys(r.value)) == Elements(participants)
    ensures r.Err? ==> !r.error.UnknownSplitType?
  {
    var v := ValidateParticipants(participants, paidBy);
    if v.Fail? {
      return Err(v.error);
    }
    var w := ValidateSplitData(splitType, participants, data);
    if w.Fail? {
      return Err(w.error);
    }
    if splitType == "equal" {
      r := EqualSplit(total, participants);
      EqualSharesConserve(total, participants);
      assert Elements(Keys(r.value)) == Elements(participants);
    } else if splitType == "exact" {
      var amounts := data.userAmounts.value;
      r := ExactSplit(total, amounts);
      if r.Ok? {
        DictKeysDistinct(amounts);
        SameElementsSameLength(Keys(amounts), participants);
      }
    } else if splitType == "percentage" {
      var percentages := data.userPercentages.value;
      r := PercentageSplit(total, percentages);
      PercentageSplitOutcomes(total, percentages);
      if r.Ok? {
        DictKeysDistinct(percentages);
        SameElementsSameLength(Keys(percentages), participants);
      }
    } else {
      r := Err(UnknownSplitType(splitType));
    }
  }

  // ---------------------------------------------------------------------------
  // Summary
  // ---------------------------------------------------------------------------

  /** The entries of `splits` that do not belong to the payer, in dict order. */
  function Others(splits: seq<Entry<int>>, paidBy: UserId): seq<Entry<int>>
  {
    if splits == [] then []
    else
      var last := splits[|splits| - 1];
      Others(splits[..|splits| - 1], paidBy) + (if last.key != paidBy then [last] else [])
  }

  /** `owes` lists exactly the entries of everyone but the payer, in dict order. */
  lemma {:induction false} OthersMembers(splits: seq<Entry<int>>, paidBy: UserId)
    ensures paidBy !in Keys(Others(splits, paidBy))
    ensures forall e :: e in Others(splits, paidBy) <==> e in splits && e.key != paidBy
  {
    if splits != [] {
      var init := splits[..|splits| - 1];
      var last := splits[|splits| - 1];
      OthersMembers(init, paidBy);
      assert splits == init + [last];
      var o := Others(init, paidBy);
      if last.key != paidBy {
        assert Keys(o + [last]) == Keys(o) + [last.key];
      }
    }
  }

  /** Nothing is lost or counted twice: the payer's share (0 when the payer has no
      entry) plus everything owed is the sum of all shares. */
  lemma {:induction false} OthersSum(splits: Dict<int>, paidBy: UserId)
    ensures Get(splits, paidBy, 0) + Sum(Others(splits, paidBy)) == Sum(splits)
  {
    if splits != [] {
      var init: Dict<int> := splits[..|splits| - 1];
      var last := splits[|splits| - 1];
      OthersSum(init, paidBy);
      var o := Others(init, paidBy);
      if last.key == paidBy {
        assert paidBy !in Keys(init) by {
          forall j | 0 <= j < |init| ensures Keys(init)[j] != paidBy {
            assert init[j] == splits[j];
          }
        }
        assert Get(init, paidBy, 0) == 0;
        assert Get(splits, paidBy, 0) == last.value;
        assert Others(splits, paidBy) == o;
      } else {
        assert Get(splits, paidBy, 0) == Get(init, paidBy, 0);
        assert Others(splits, paidBy) == o + [last];
        SumSnoc(o, last);
      }
    }
  }

  /** `format_split_summary` */
  method FormatSplitSummary(splits: Dict<int>, paidBy: UserId) returns (summary: Summary)
    ensures summary.paidBy == paidBy
    ensures paidBy !in Keys(splits) ==> summary.paidAmount == 0
    ensures forall i :: 0 <= i < |splits| && splits[i].key == paidBy ==> summary.paidAmount == splits[i].value
    ensures summary.owes == Others(splits, paidBy)
    ensures paidBy !in Keys(summary.owes)
    ensures forall e :: e in summary.owes <==> e in splits && e.key != paidBy
    ensures summary.paidAmount + Sum(summary.owes) == Sum(splits)
  {
    var payerAmount := Get(splits, paidBy, 0);
    var owes: seq<Entry<int>> := [];
    var i := 0;
    while i < |splits|
      invariant 0 <= i <= |splits|
      invariant owes == Others(splits[..i], paidBy)
    {
      if splits[i].key != paidBy {
        owes := owes + [splits[i]];
      }
      assert splits[..i + 1][..i] == splits[..i];
      i := i + 1;
    }
    assert splits[..i] == splits;
    OthersMembers(splits, paidBy);
    OthersSum(splits, paidBy);
    summary := Summary(paidBy, payerAmount, owes);
  }
}
