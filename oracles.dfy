/** Worked examples: the engine's documented examples and its unit tests, stated
    as facts about the model, plus inputs that show where the behaviour departs
    from what one might expect. All amounts are in cents. */
module Oracles {
  import opened Dicts
  import opened Money
  import opened Sorting
  import opened Calculator

  /** The call returns exactly the dict `items`. */
  predicate Returns(r: Result<Dict<int>>, items: seq<Entry<int>>)
  {
    r.Ok? && r.value == items
  }

  lemma SumOfTwo(a: Entry<int>, b: Entry<int>)
    ensures Sum([a, b]) == a.value + b.value
  {
    assert [a, b][..1] == [a];
    assert [a][..0] == [];
    assert Sum([a]) == a.value;
  }

  lemma SumOfThree(a: Entry<int>, b: Entry<int>, c: Entry<int>)
    ensures Sum([a, b, c]) == a.value + b.value + c.value
  {
    assert [a, b, c][..2] == [a, b];
    SumOfTwo(a, b);
  }

  lemma SumRealOfTwo(a: Entry<real>, b: Entry<real>)
    ensures SumReal([a, b]) == a.value + b.value
  {
    assert [a, b][..1] == [a];
    assert [a][..0] == [];
    assert SumReal([a]) == a.value;
  }

  lemma SumRealOfThree(a: Entry<real>, b: Entry<real>, c: Entry<real>)
    ensures SumReal([a, b, c]) == a.value + b.value + c.value
  {
    assert [a, b, c][..2] == [a, b];
    SumRealOfTwo(a, b);
  }

  /** Three items already in descending order of percentage stay as they are. */
  lemma SortOfDescendingThree(a: Entry<real>, b: Entry<real>, c: Entry<real>)
    requires a.value >= b.value >= c.value
    ensures SortByPercentage([a, b, c]) == [a, b, c]
  {
    assert [a, b, c][1..] == [b, c];
    assert [b, c][1..] == [c];
    assert [c][1..] == [];
    assert SortByPercentage([c]) == [c];
    assert InsertDescending(b, [c]) == [b, c];
    assert SortByPercentage([b, c]) == [b, c];
    assert InsertDescending(a, [b, c]) == [a, b, c];
  }

  const Three: seq<UserId> := ["user1", "user2", "user3"]

  lemma ThreeDistinct()
    ensures Distinct(Three)
  {
    assert "user1"[4] != "user2"[4] && "user1"[4] != "user3"[4] && "user2"[4] != "user3"[4];
  }

  /** 100.00 among three: 33.34, 33.33, 33.33. */
  lemma EqualSplitOfHundred()
    ensures Returns(EqualSplitResult(10000, Three),
                    [Entry("user1", 3334), Entry("user2", 3333), Entry("user3", 3333)])
  {
    ThreeDistinct();
    EqualSplitOfDistinct(10000, Three);
    assert DivTowardZero(10000, 3) == 3333;
    var r := EqualShares(10000, Three);
    assert r == [Entry("user1", 3334), Entry("user2", 3333), Entry("user3", 3333)];
  }

  /** 10.00 among three: 3.34, 3.33, 3.33. */
  lemma EqualSplitOfTen()
    ensures Returns(EqualSplitResult(1000, Three),
                    [Entry("user1", 334), Entry("user2", 333), Entry("user3", 333)])
  {
    ThreeDistinct();
    EqualSplitOfDistinct(1000, Three);
    assert DivTowardZero(1000, 3) == 333;
    var r := EqualShares(1000, Three);
    assert r == [Entry("user1", 334), Entry("user2", 333), Entry("user3", 333)];
  }

  /** The first participant's extra is the whole truncation remainder, which can
      be more than one cent: 2.00 among three is 0.68, 0.66, 0.66. */
  lemma EqualSplitRemainderOverOneCent()
    ensures Returns(EqualSplitResult(200, Three),
                    [Entry("user1", 68), Entry("user2", 66), Entry("user3", 66)])
  {
    ThreeDistinct();
    EqualSplitOfDistinct(200, Three);
    assert DivTowardZero(200, 3) == 66;
    var r := EqualShares(200, Three);
    assert r == [Entry("user1", 68), Entry("user2", 66), Entry("user3", 66)];
  }

  /** Called directly with a repeated participant, the equal split assigns the
      same key twice and its final check fails: 100.00 for ["a", "a"] leaves one
      share of 50.00. */
  lemma EqualSplitRepeatedParticipant()
    ensures EqualSplitResult(10000, ["a", "a"]) == Err(SplitTotalMismatch(5000, 10000))
  {
    assert DivTowardZero(10000, 2) == 5000;
    var d1 := EqualDict(["a", "a"], 5000, 0, 1);
    assert d1 == [Entry("a", 5000)];
    assert Keys(d1) == ["a"];
    PutItems(d1, "a", 5000);
    assert EqualDict(["a", "a"], 5000, 0, 2) == [Entry("a", 5000)];
  }

  /** A repeated participant whose overwritten share is zero goes unnoticed: 0.01
      among ["b", "a", "a"] is 0.01 for "b" and 0.00 for "a", and the final check holds. */
  lemma EqualSplitRepeatedZeroShare()
    ensures Returns(EqualSplitResult(1, ["b", "a", "a"]), [Entry("b", 1), Entry("a", 0)])
  {
    var ps: seq<UserId> := ["b", "a", "a"];
    assert DivTowardZero(1, 3) == 0;
    EqualSplitResultOf(1, ps, 0, 1);
    var d2 := RepeatedZeroShareDict();
    SumOfTwo(d2[0], d2[1]);
  }

  /** The dict the equal split builds for 0.01 among ["b", "a", "a"]. */
  lemma RepeatedZeroShareDict() returns (d2: Dict<int>)
    ensures d2 == [Entry("b", 1), Entry("a", 0)]
    ensures EqualDict(["b", "a", "a"], 0, 1, 3) == d2
  {
    var ps: seq<UserId> := ["b", "a", "a"];
    var d0 := EqualDict(ps, 0, 1, 0);
    assert d0 == [];
    var d1 := EqualDict(ps, 0, 1, 1);
    assert d1 == Put(d0, "b", 1);
    assert d1 == [Entry("b", 1)];
    assert Keys(d1) == ["b"] && "a"[0] != "b"[0];
    d2 := EqualDict(ps, 0, 1, 2);
    assert d2 == Put(d1, "a", 0);
    assert d2 == [Entry("b", 1), Entry("a", 0)];
    assert Keys(d2) == ["b", "a"];
    var d3 := EqualDict(ps, 0, 1, 3);
    assert d3 == Put(d2, "a", 0);
    PutItems(d2, "a", 0);
    assert d3[0] == d2[0] && d3[1] == d2[1];
  }

  const ExactAmounts: Dict<real> := [Entry("user1", 60.0), Entry("user2", 25.0), Entry("user3", 15.0)]

  /** 60 + 25 + 15 = 100: every amount is kept, in cents. */
  lemma ExactSplitValid()
    ensures Returns(ExactSplitResult(10000, ExactAmounts),
                    [Entry("user1", 6000), Entry("user2", 2500), Entry("user3", 1500)])
  {
    assert ToCents(60.0) == 6000 && ToCents(25.0) == 2500 && ToCents(15.0) == 1500;
    FirstIndexAt(ExactAmounts, IsNegative, 3);
    var r := RoundedAmounts(ExactAmounts);
    assert r == [Entry("user1", 6000), Entry("user2", 2500), Entry("user3", 1500)];
    SumOfThree(r[0], r[1], r[2]);
  }

  /** 60 + 30 = 90 against a total of 100: rejected, 10.00 short. */
  lemma ExactSplitShort()
    ensures ExactSplitResult(10000, [Entry("user1", 60.0), Entry("user2", 30.0)])
         == Err(AmountMismatch(9000, 10000, 1000))
  {
    var amounts: Dict<real> := [Entry("user1", 60.0), Entry("user2", 30.0)];
    assert ToCents(60.0) == 6000 && ToCents(30.0) == 3000;
    FirstIndexAt(amounts, IsNegative, 2);
    var r := RoundedAmounts(amounts);
    assert r == [Entry("user1", 6000), Entry("user2", 3000)];
    SumOfTwo(r[0], r[1]);
  }

  /** A negative amount is rejected before any sum is compared. */
  lemma ExactSplitNegative()
    ensures ExactSplitResult(10000, [Entry("user1", 110.0), Entry("user2", -10.0)])
         == Err(NegativeAmount("user2", -10.0))
  {
    var amounts: Dict<real> := [Entry("user1", 110.0), Entry("user2", -10.0)];
    FirstIndexAt(amounts, IsNegative, 1);
  }

  const Percentages: Dict<real> := [Entry("user1", 50.0), Entry("user2", 30.0), Entry("user3", 20.0)]

  /** 50/30/20 of 100.00: 50.00, 30.00 and 20.00. */
  lemma PercentageSplitValid()
    ensures Returns(PercentageSplitResult(10000, Percentages),
                    [Entry("user1", 5000), Entry("user2", 3000), Entry("user3", 2000)])
  {
    var p := Percentages;
    SumRealOfThree(p[0], p[1], p[2]);
    FirstIndexAt(p, OutOfRange, 3);
    PercentageSplitAccepts(10000, p);
    SortOfDescendingThree(p[0], p[1], p[2]);
    assert PercentOf(10000, 50.0) == 5000 && PercentOf(10000, 30.0) == 3000;
    var head := RoundedPercentages(10000, p[..2]);
    assert head == [Entry("user1", 5000), Entry("user2", 3000)];
    SumOfTwo(head[0], head[1]);
  }

  /** 50 + 30 = 80 percent: rejected with the sum found. */
  lemma PercentageSplitShort()
    ensures PercentageSplitResult(10000, [Entry("user1", 50.0), Entry("user2", 30.0)])
         == Err(PercentageSumMismatch(80.0))
  {
    var p: Dict<real> := [Entry("user1", 50.0), Entry("user2", 30.0)];
    SumRealOfTwo(p[0], p[1]);
  }

  /** A percentage sum up to 0.01 above 100 passes, and two shares rounded up then
      leave a negative remainder: 50.0045, 50.0045 and 0 percent (sum 100.009) of
      1000.00 give 500.05, 500.05 and -0.10. */
  lemma PercentageSplitNegativeRemainder()
    ensures Returns(PercentageSplitResult(100000, [Entry("A", 50.0045), Entry("B", 50.0045), Entry("C", 0.0)]),
                    [Entry("A", 50005), Entry("B", 50005), Entry("C", -10)])
  {
    var p: Dict<real> := [Entry("A", 50.0045), Entry("B", 50.0045), Entry("C", 0.0)];
    SumRealOfThree(p[0], p[1], p[2]);
    FirstIndexAt(p, OutOfRange, 3);
    PercentageSplitAccepts(100000, p);
    SortOfDescendingThree(p[0], p[1], p[2]);
    assert PercentOf(100000, 50.0045) == 50005;
    var head := RoundedPercentages(100000, p[..2]);
    assert head == [Entry("A", 50005), Entry("B", 50005)];
    SumOfTwo(head[0], head[1]);
  }

  /** Two users, 50.00, equal type: both validators accept and each owes 25.00. */
  lemma CalculateSplitsEqualExample()
    ensures Accepted("equal", ["user1", "user2"], "user1", SplitData(None, None))
    ensures EqualShares(5000, ["user1", "user2"]) == [Entry("user1", 2500), Entry("user2", 2500)]
  {
    var ps: seq<UserId> := ["user1", "user2"];
    assert ps[0][4] != ps[1][4];
    assert Distinct(ps);
    assert DivTowardZero(5000, 2) == 2500;
  }

  /** Two users, 50.00, exact type 30.00 / 20.00: accepted, amounts kept. */
  lemma CalculateSplitsExactExample()
    ensures var data := SplitData(Some([Entry("user1", 30.0), Entry("user2", 20.0)]), None);
            && Accepted("exact", ["user1", "user2"], "user1", data)
            && Returns(ExactSplitResult(5000, data.userAmounts.value), [Entry("user1", 3000), Entry("user2", 2000)])
  {
    var ps: seq<UserId> := ["user1", "user2"];
    var amounts: Dict<real> := [Entry("user1", 30.0), Entry("user2", 20.0)];
    assert ps[0][4] != ps[1][4];
    assert Keys(amounts) == ps;
    FirstNotInCovers(ps, ps);
    assert ToCents(30.0) == 3000 && ToCents(20.0) == 2000;
    FirstIndexAt(amounts, IsNegative, 2);
    var r := RoundedAmounts(amounts);
    assert r == [Entry("user1", 3000), Entry("user2", 2000)];
    SumOfTwo(r[0], r[1]);
  }

  /** Two items already in descending order of percentage stay as they are. */
  lemma SortOfDescendingTwo(a: Entry<real>, b: Entry<real>)
    requires a.value >= b.value
    ensures SortByPercentage([a, b]) == [a, b]
  {
    assert [a, b][1..] == [b];
    assert [b][1..] == [];
    assert SortByPercentage([b]) == [b];
  }

  lemma SixtyFortyAccepted()
    ensures Accepted("percentage", ["user1", "user2"], "user1",
                     SplitData(None, Some([Entry("user1", 60.0), Entry("user2", 40.0)])))
  {
    var ps: seq<UserId> := ["user1", "user2"];
    var p: Dict<real> := [Entry("user1", 60.0), Entry("user2", 40.0)];
    assert ps[0][4] != ps[1][4];
    assert Keys(p) == ps;
    FirstNotInCovers(ps, ps);
  }

  /** Two users, 100.00, percentage type 60 / 40: accepted, 60.00 and 40.00. */
  lemma CalculateSplitsPercentageExample()
    ensures var data := SplitData(None, Some([Entry("user1", 60.0), Entry("user2", 40.0)]));
            && Accepted("percentage", ["user1", "user2"], "user1", data)
            && Returns(PercentageSplitResult(10000, data.userPercentages.value),
                       [Entry("user1", 6000), Entry("user2", 4000)])
  {
    SixtyFortyAccepted();
    var p: Dict<real> := [Entry("user1", 60.0), Entry("user2", 40.0)];
    SumRealOfTwo(p[0], p[1]);
    FirstIndexAt(p, OutOfRange, 2);
    PercentageSplitAccepts(10000, p);
    SortOfDescendingTwo(p[0], p[1]);
    SixtyFortyShares();
  }

  lemma SixtyFortyShares()
    ensures PercentageShares(10000, [Entry("user1", 60.0), Entry("user2", 40.0)])
         == [Entry("user1", 6000), Entry("user2", 4000)]
  {
    var p: Dict<real> := [Entry("user1", 60.0), Entry("user2", 40.0)];
    assert PercentOf(10000, 60.0) == 6000;
    var head := RoundedPercentages(10000, p[..1]);
    assert head == [Entry("user1", 6000)];
    assert head[..0] == [];
    assert Sum(head) == 6000;
    assert Keys(head) == ["user1"] && "user1"[4] != "user2"[4];
  }

  /** Participant checks, in order: none at all, a repeated one, a payer outside the list. */
  lemma ParticipantValidationExamples()
    ensures ValidateParticipants([], "u") == Fail(ParticipantRequired)
    ensures ValidateParticipants(["a", "a"], "b") == Fail(DuplicateParticipants)
    ensures ValidateParticipants(["a", "b"], "c") == Fail(PayerNotParticipant)
  {
    var aa: seq<UserId> := ["a", "a"];
    assert aa[0] == aa[1];
    assert "a"[0] != "b"[0] && "a"[0] != "c"[0] && "b"[0] != "c"[0];
    assert Distinct(["a", "b"]);
  }

  /** An exact split needs an amount for every participant. */
  lemma MissingAmountExample()
    ensures ValidateSplitData("exact", ["a", "b"], SplitData(Some([Entry("a", 1.0)]), None))
         == Fail(MissingAmount("b"))
  {
    assert "a"[0] != "b"[0];
    assert Keys([Entry("a", 1.0)]) == ["a"];
  }

  /** An exact split refuses an amount for someone outside the split. */
  lemma NonParticipantAmountExample()
    ensures ValidateSplitData("exact", ["a"], SplitData(Some([Entry("a", 1.0), Entry("c", 1.0)]), None))
         == Fail(NonParticipantAmount("c"))
  {
    assert "a"[0] != "c"[0];
    assert Keys([Entry("a", 1.0), Entry("c", 1.0)]) == ["a", "c"];
  }

  /** A percentage split needs percentages; an unknown type is refused. */
  lemma SplitTypeExamples()
    ensures ValidateSplitData("percentage", ["a"], SplitData(Some([Entry("a", 100.0)]), None))
         == Fail(MissingUserPercentages)
    ensures ValidateSplitData("shares", ["a"], SplitData(None, None)) == Fail(InvalidSplitType("shares"))
  {
    assert "shares" != "equal" && "shares" != "exact" && "shares" != "percentage" by {
      assert "shares"[1] != "equal"[1] && "shares"[1] != "exact"[1] && |"shares"| != |"percentage"|;
    }
  }
}
