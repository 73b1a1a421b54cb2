/** The salary schedule: a starting monthly net income escalated once per
    full year by an expected annual raise and rounded to cents, laid out over
    years * 12 consecutive months. */
module Income {
  import opened Escalation

  /** One row of the schedule: the month's start date and its net income. */
  datatype IncomeRow = IncomeRow(date: int, monthlyIncome: real)

  class Budget {
    /** The annual raise as a fraction (the percentage over 100). */
    const annuSalaryBumpRt: real
    const monthlyNet: real
    const years: nat
    /** The month-start dates of the schedule, from the start month on. */
    const dateRange: seq<int>

    /** The schedule covers years * 12 consecutive months. */
    ghost predicate Valid()
    {
      |dateRange| == years * 12 && IsMonthRun(dateRange)
    }

    /** `start` stands for the first day of the current month, which the
        schedule is anchored to. */
    constructor (monthlyNetIncome: real, expectedAnnualSalaryIncreasePerc: real, years: nat, start: int)
      ensures Valid()
      ensures annuSalaryBumpRt == expectedAnnualSalaryIncreasePerc / 100.0
      ensures monthlyNet == monthlyNetIncome
      ensures this.years == years
      ensures dateRange == MonthStarts(start, years * 12)
    {
      annuSalaryBumpRt := expectedAnnualSalaryIncreasePerc / 100.0;
      monthlyNet := monthlyNetIncome;
      this.years := years;
      var periods := years * 12;
      dateRange := MonthStarts(start, periods);
    }

    /** The net income of month index monthN: the exact escalated amount for
        the year it falls in, to the nearest cent. */
    function SalaryBump(monthN: nat): (salary: real)
      ensures IsWholeCents(salary)
      ensures -0.005 <= salary - Escalated(monthlyNet, annuSalaryBumpRt, monthN) <= 0.005
      ensures (salary - Escalated(monthlyNet, annuSalaryBumpRt, monthN) == 0.005 ||
               Escalated(monthlyNet, annuSalaryBumpRt, monthN) - salary == 0.005) ==>
                (salary * 100.0).Floor % 2 == 0
    {
      RoundCents(Escalated(monthlyNet, annuSalaryBumpRt, monthN))
    }

    /** The salary changes only at 12-month boundaries. */
    lemma SameYearSameSalary(i: nat, j: nat)
      requires i / 12 == j / 12
      ensures SalaryBump(i) == SalaryBump(j)
    {
      EscalatedSameYear(monthlyNet, annuSalaryBumpRt, i, j);
    }

    /** The first month earns the starting income rounded to cents, and the
        first month of year k earns it escalated k times, rounded to cents. */
    lemma SalaryAtYearStart(k: nat)
      ensures SalaryBump(0) == RoundCents(monthlyNet)
      ensures SalaryBump(12 * k) == RoundCents(monthlyNet * Pow(1.0 + annuSalaryBumpRt, k))
    {
      EscalatedAtYearStart(monthlyNet, annuSalaryBumpRt, 0);
      assert Escalated(monthlyNet, annuSalaryBumpRt, 0) == monthlyNet;
      EscalatedAtYearStart(monthlyNet, annuSalaryBumpRt, k);
      var exact := Escalated(monthlyNet, annuSalaryBumpRt, 12 * k);
      assert exact == monthlyNet * Pow(1.0 + annuSalaryBumpRt, k);
    }

    /** With a non-negative income and raise, the salary never goes down,
        because rounding to cents keeps order. */
    lemma SalaryNonDecreasing(i: nat, j: nat)
      requires monthlyNet >= 0.0 && annuSalaryBumpRt >= 0.0 && i <= j
      ensures 0.0 <= SalaryBump(i) <= SalaryBump(j)
    {
      EscalatedMonotone(monthlyNet, annuSalaryBumpRt, 0, i);
      EscalatedMonotone(monthlyNet, annuSalaryBumpRt, i, j);
      RoundCentsMonotone(0.0, Escalated(monthlyNet, annuSalaryBumpRt, i));
      RoundCentsOfWholeCents(0.0);
      RoundCentsMonotone(Escalated(monthlyNet, annuSalaryBumpRt, i), Escalated(monthlyNet, annuSalaryBumpRt, j));
    }

    /** With no raise every month earns the starting income rounded to cents. */
    lemma ZeroRateFlatSalary(i: nat)
      requires annuSalaryBumpRt == 0.0
      ensures SalaryBump(i) == RoundCents(monthlyNet)
    {
      EscalatedZeroRate(monthlyNet, i);
    }

    /** One row per date of the range, in order: row i is month i's date and
        net income. */
    method Schedule() returns (data: seq<IncomeRow>)
      requires Valid()
      ensures |data| == years * 12
      ensures forall i :: 0 <= i < |data| ==> data[i] == IncomeRow(dateRange[0] + i, SalaryBump(i))
      ensures forall i, j :: 0 <= i < |data| && 0 <= j < |data| && i / 12 == j / 12 ==>
                data[i].monthlyIncome == data[j].monthlyIncome
      ensures monthlyNet >= 0.0 && annuSalaryBumpRt >= 0.0 ==>
                forall i, j :: 0 <= i <= j < |data| ==> 0.0 <= data[i].monthlyIncome <= data[j].monthlyIncome
    {
      data := [];
      for i := 0 to |dateRange|
        invariant |data| == i
        invariant forall k :: 0 <= k < i ==> data[k] == IncomeRow(dateRange[k], SalaryBump(k))
      {
        var salary := SalaryBump(i);
        var row := IncomeRow(dateRange[i], salary);
        data := data + [row];
      }
      forall i, j | 0 <= i < |data| && 0 <= j < |data| && i / 12 == j / 12
        ensures data[i].monthlyIncome == data[j].monthlyIncome
      {
        SameYearSameSalary(i, j);
      }
      if monthlyNet >= 0.0 && annuSalaryBumpRt >= 0.0 {
        forall i, j | 0 <= i <= j < |data|
          ensures 0.0 <= data[i].monthlyIncome <= data[j].monthlyIncome
        {
          SalaryNonDecreasing(i, j);
        }
      }
    }
  }
}
