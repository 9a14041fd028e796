/**
 * The arithmetic of the total-fare calculation: truncating division as Java
 * performs it, the child/adult partition, the per-leg fare, the sum over the
 * legs, and the round-up of the total to a multiple of 100 yen.
 */
module Fare {
  import opened Common
  import opened TicketTypes

  /** `a / 100` with Java's int semantics: the quotient is truncated toward zero. */
  function TruncDiv100(a: int): (q: int)
    ensures a >= 0 ==> 0 <= a - 100 * q < 100
    ensures a < 0 ==> -100 < a - 100 * q <= 0
  {
    if a >= 0 then a / 100 else -((-a) / 100)
  }

  /** The number of present passengers younger than `adultMinAge`. */
  function ChildCount(ps: seq<Option<Passenger>>, adultMinAge: int): (n: nat)
    ensures n <= |ps|
  {
    if |ps| == 0 then 0
    else
      ChildCount(ps[..|ps| - 1], adultMinAge)
      + (if ps[|ps| - 1].Some? && ps[|ps| - 1].value.age < adultMinAge then 1 else 0)
  }

  /** The number of present passengers of at least `adultMinAge`. */
  function AdultCount(ps: seq<Option<Passenger>>, adultMinAge: int): (n: nat)
    ensures n <= |ps|
    ensures (forall i :: 0 <= i < |ps| ==> ps[i].None? || ps[i].value.age < adultMinAge) ==> n == 0
  {
    if |ps| == 0 then 0
    else
      AdultCount(ps[..|ps| - 1], adultMinAge)
      + (if ps[|ps| - 1].Some? && ps[|ps| - 1].value.age >= adultMinAge then 1 else 0)
  }

  /**
   * With no null element, every passenger is either a child or an adult, so
   * the adult count the service derives as `size - childNum` is the number of
   * passengers of adult age.
   */
  lemma {:induction false} ChildAdultPartition(ps: seq<Option<Passenger>>, adultMinAge: int)
    requires AllPresent(ps)
    ensures ChildCount(ps, adultMinAge) + AdultCount(ps, adultMinAge) == |ps|
  {
    if |ps| > 0 {
      ChildAdultPartition(ps[..|ps| - 1], adultMinAge);
    }
  }

  /** The fare of one leg for `adultNum` adults and `childNum` children. */
  function LegFare(sh: Collaborators, childFareRate: int, f: Flight, adultNum: int, childNum: int): (r: int)
    ensures adultNum == 0 && childNum == 0 ==> r == 0
    ensures childNum == 0 ==>
      r == sh.calculateFare(sh.calculateBasicFare(f.basicFare, f.boardingClassCd, f.departureDate), f.fareType.discountRate) * adultNum
  {
    var baseFare := sh.calculateBasicFare(f.basicFare, f.boardingClassCd, f.departureDate);
    var discountRate := f.fareType.discountRate;
    var boardingFare := sh.calculateFare(baseFare, discountRate);
    boardingFare * adultNum + TruncDiv100(baseFare * (childFareRate - discountRate)) * childNum
  }

  /**
   * The children's share of a leg is rounded down per child: it is never
   * negative and never above the exact share `baseFare * rate% * childNum`.
   */
  lemma ChildFareRoundsDown(sh: Collaborators, childFareRate: int, f: Flight, childNum: int)
    requires childNum >= 0
    requires sh.calculateBasicFare(f.basicFare, f.boardingClassCd, f.departureDate) * (childFareRate - f.fareType.discountRate) >= 0
    ensures var childBase := sh.calculateBasicFare(f.basicFare, f.boardingClassCd, f.departureDate) * (childFareRate - f.fareType.discountRate);
      0 <= 100 * LegFare(sh, childFareRate, f, 0, childNum) <= childBase * childNum
  {
    var childBase := sh.calculateBasicFare(f.basicFare, f.boardingClassCd, f.departureDate) * (childFareRate - f.fareType.discountRate);
    var q := TruncDiv100(childBase);
    assert 0 <= 100 * q <= childBase;
    assert LegFare(sh, childFareRate, f, 0, childNum) == q * childNum;
    assert 100 * (q * childNum) == (100 * q) * childNum;
    MulMonotone(100 * q, childBase, childNum);
  }

  lemma MulMonotone(a: int, b: int, c: int)
    requires 0 <= a <= b && 0 <= c
    ensures 0 <= a * c <= b * c
  {
  }

  /** The pre-rounding total: the sum of the fares of the present legs. */
  function FareSum(sh: Collaborators, childFareRate: int, fs: seq<Option<Flight>>, adultNum: int, childNum: int): (r: int)
    ensures |fs| == 1 && fs[0].Some? ==> r == LegFare(sh, childFareRate, fs[0].value, adultNum, childNum)
    ensures adultNum == 0 && childNum == 0 ==> r == 0
  {
    if |fs| == 0 then 0
    else
      FareSum(sh, childFareRate, fs[..|fs| - 1], adultNum, childNum)
      + (if fs[|fs| - 1].Some? then LegFare(sh, childFareRate, fs[|fs| - 1].value, adultNum, childNum) else 0)
  }

  /** The sum is additive over a split of the legs list (one-way plus return). */
  lemma {:induction false} FareSumAppend(sh: Collaborators, childFareRate: int, a: seq<Option<Flight>>, b: seq<Option<Flight>>, adultNum: int, childNum: int)
    ensures FareSum(sh, childFareRate, a + b, adultNum, childNum)
         == FareSum(sh, childFareRate, a, adultNum, childNum) + FareSum(sh, childFareRate, b, adultNum, childNum)
  {
    if |b| > 0 {
      assert (a + b)[..|a + b| - 1] == a + b[..|b| - 1];
      FareSumAppend(sh, childFareRate, a, b[..|b| - 1], adultNum, childNum);
    } else {
      assert a + b == a;
    }
  }

  /** What rounding "everything below 100 yen up" promises of a rounding function. */
  ghost predicate RoundsUpTo100(ceil: int -> int)
  {
    forall t :: ceil(t) % 100 == 0 && t <= ceil(t) < t + 100
  }

  /** A reference rounding: the total raised to the next multiple of 100. */
  function CeilTo100(t: int): (r: int)
    ensures r % 100 == 0 && t <= r < t + 100
  {
    if t % 100 == 0 then t else t - t % 100 + 100
  }

  lemma CeilTo100RoundsUp()
    ensures RoundsUpTo100(CeilTo100)
  {
  }

  /** The round-up contract fixes the rounded value: it is the smallest multiple of 100 not below `t`. */
  lemma RoundUpIsCeiling(ceil: int -> int, t: int, m: int)
    requires RoundsUpTo100(ceil)
    requires m % 100 == 0 && t <= m
    ensures ceil(t) == CeilTo100(t)
    ensures ceil(t) <= m
  {
    var c := ceil(t);
    var r := CeilTo100(t);
    assert c % 100 == 0 && t <= c < t + 100;
    MultiplesOf100Apart(c, r);
    MultiplesOf100Apart(c, m);
  }

  lemma MultiplesOf100Apart(a: int, b: int)
    requires a % 100 == 0 && b % 100 == 0
    ensures a == b || a - b >= 100 || b - a >= 100
  {
    var qa, qb := a / 100, b / 100;
    assert a == 100 * qa && b == 100 * qb;
    if qa < qb {
      assert b - a == 100 * (qb - qa);
    } else if qa > qb {
      assert a - b == 100 * (qa - qb);
    }
  }

  /**
   * A worked example: adult age 12, child rate 50 %, a basic fare of 10000
   * with no discount, one adult and one five-year-old on one flight cost
   * 10000 + 5000 = 15000, already a multiple of 100.
   */
  lemma OneAdultOneChildExample()
    ensures var sh := Collaborators((b: int, c: string, d: Date) => b,
                                    (b: int, rate: int) => TruncDiv100(b * (100 - rate)),
                                    (ft: FareType, d: Date) => true,
                                    CeilTo100);
      var f := Flight(Date(0), "NTT101", "N", FareType(OtherFareType("OW"), "one-way", 0, 1), 10000);
      var ps := [Some(Passenger("A", "B", 30, F, "")), Some(Passenger("A", "C", 5, M, ""))];
      ChildCount(ps, 12) == 1 && AdultCount(ps, 12) == 1
      && FareSum(sh, 50, [Some(f)], 1, 1) == 15000
      && sh.ceilFare(15000) == 15000
  {
  }
}
