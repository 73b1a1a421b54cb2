/** The rent schedule: a starting monthly rent escalated once per full year
    by an annual percentage and always rounded up to a whole currency unit,
    laid out over years * 12 + 1 consecutive months. */
module Renter {
  import opened Escalation

  /** One row of the schedule: the month's start date and its rent cost. */
  datatype RentRow = RentRow(date: int, rentCost: int)

  class Renting {
    /** The annual escalation as a fraction (the percentage over 100). */
    const annuRentRt: real
    const monthlyRent: real
    const years: nat
    /** The month-start dates of the schedule, from the start month on. */
    const dateRange: seq<int>

    /** The schedule covers years * 12 + 1 consecutive months. */
    ghost predicate Valid()
    {
      |dateRange| == years * 12 + 1 && IsMonthRun(dateRange)
    }

    /** `start` stands for the first day of the current month, which the
        schedule is anchored to. */
    constructor (monthlyRentCost: real, annualRentIncreasePerc: real, years: nat, start: int)
      ensures Valid()
      ensures annuRentRt == annualRentIncreasePerc / 100.0
      ensures monthlyRent == monthlyRentCost
      ensures this.years == years
      ensures dateRange == MonthStarts(start, years * 12 + 1)
    {
      annuRentRt := annualRentIncreasePerc / 100.0;
      monthlyRent := monthlyRentCost;
      this.years := years;
      var periods := years * 12;
      dateRange := MonthStarts(start, periods + 1);
    }

    /** The rent of month index monthN: the exact escalated amount for the
        year it falls in, rounded up to a whole unit. */
    function RentValue(monthN: nat): (rent: int)
      ensures Escalated(monthlyRent, annuRentRt, monthN) <= rent as real
      ensures rent as real < Escalated(monthlyRent, annuRentRt, monthN) + 1.0
    {
      Ceil(Escalated(monthlyRent, annuRentRt, monthN))
    }

    /** Rent changes only at 12-month boundaries. */
    lemma SameYearSameRent(i: nat, j: nat)
      requires i / 12 == j / 12
      ensures RentValue(i) == RentValue(j)
    {
      EscalatedSameYear(monthlyRent, annuRentRt, i, j);
    }

    /** The first month pays the starting rent rounded up, and the first month
        of year k pays the rent escalated k times, rounded up. */
    lemma RentAtYearStart(k: nat)
      ensures RentValue(0) == Ceil(monthlyRent)
      ensures RentValue(12 * k) == Ceil(monthlyRent * Pow(1.0 + annuRentRt, k))
    {
      EscalatedAtYearStart(monthlyRent, annuRentRt, 0);
      assert Escalated(monthlyRent, annuRentRt, 0) == monthlyRent;
      EscalatedAtYearStart(monthlyRent, annuRentRt, k);
      var exact := Escalated(monthlyRent, annuRentRt, 12 * k);
      assert exact == monthlyRent * Pow(1.0 + annuRentRt, k);
    }

    /** With a non-negative rent and rate, rent never goes down. */
    lemma RentNonDecreasing(i: nat, j: nat)
      requires monthlyRent >= 0.0 && annuRentRt >= 0.0 && i <= j
      ensures 0 <= RentValue(i) <= RentValue(j)
    {
      EscalatedMonotone(monthlyRent, annuRentRt, i, j);
      CeilMonotone(Escalated(monthlyRent, annuRentRt, i), Escalated(monthlyRent, annuRentRt, j));
    }

    /** With no escalation every month pays the starting rent rounded up. */
    lemma ZeroRateFlatRent(i: nat)
      requires annuRentRt == 0.0
      ensures RentValue(i) == Ceil(monthlyRent)
    {
      EscalatedZeroRate(monthlyRent, i);
    }

    /** Rounding up can hide a year's escalation: a positive rate does not
        make the rent step up strictly at a year boundary. Nor is a year's rent
        the rounded-up rent of the year before times (1 + rate): each year's
        rent rounds up the exact amount, not the previous rounded rent. */
    lemma RentStepCanBeFlat()
      requires monthlyRent == 999.5 && annuRentRt == 0.0001
      ensures Escalated(monthlyRent, annuRentRt, 0) < Escalated(monthlyRent, annuRentRt, 12)
      ensures RentValue(0) == RentValue(12) == 1000
      ensures RentValue(12) != Ceil(RentValue(0) as real * (1.0 + annuRentRt))
    {
      EscalatedStrictAtYearBoundary(monthlyRent, annuRentRt, 0);
      EscalatedAtYearStart(monthlyRent, annuRentRt, 1);
      assert Escalated(monthlyRent, annuRentRt, 12) == 999.59995;
      CeilUnique(999.59995, 1000);
      CeilUnique(999.5, 1000);
      CeilUnique(1000.1, 1001);
    }

    /** One row per date of the range, in order: row i is month i's date and
        rent. */
    method Schedule() returns (data: seq<RentRow>)
      requires Valid()
      ensures |data| == years * 12 + 1
      ensures forall i :: 0 <= i < |data| ==> data[i] == RentRow(dateRange[0] + i, RentValue(i))
      ensures forall i, j :: 0 <= i < |data| && 0 <= j < |data| && i / 12 == j / 12 ==>
                data[i].rentCost == data[j].rentCost
      ensures monthlyRent >= 0.0 && annuRentRt >= 0.0 ==>
                forall i, j :: 0 <= i <= j < |data| ==> 0 <= data[i].rentCost <= data[j].rentCost
    {
      data := [];
      for i := 0 to |dateRange|
        invariant |data| == i
        invariant forall k :: 0 <= k < i ==> data[k] == RentRow(dateRange[k], RentValue(k))
      {
        var rent := RentValue(i);
        var row := RentRow(dateRange[i], rent);
        data := data + [row];
      }
      forall i, j | 0 <= i < |data| && 0 <= j < |data| && i / 12 == j / 12
        ensures data[i].rentCost == data[j].rentCost
      {
        SameYearSameRent(i, j);
      }
      if monthlyRent >= 0.0 && annuRentRt >= 0.0 {
        forall i, j | 0 <= i <= j < |data|
          ensures 0 <= data[i].rentCost <= data[j].rentCost
        {
          RentNonDecreasing(i, j);
        }
      }
    }
  }
}
