# Rent and salary escalation schedules

A model of the two month-by-month schedule generators of the home-versus-rent
comparison tool. Both take a starting monthly amount and an annual percentage.
They escalate the amount once per full year, stepwise: month index `i` uses
`i // 12` escalations. The rent schedule (`Renting`) rounds every amount up to
a whole currency unit and covers `years * 12 + 1` months. The salary schedule
(`Budget`) rounds every amount to the nearest cent, with ties going to an even
number of cents as Python's `round` does, and covers `years * 12` months.

Layout:

- `escalation.dfy`, module `Escalation`, holds the arithmetic both schedules
  share: `Pow`, `Ceil` (defined as `-((-x).Floor)`), `RoundHalfEven` and
  `RoundCents`, the exact escalated amount `Escalated`, and the run of
  month-start dates `MonthStarts`.
- `renter.dfy`, module `Renter`, holds class `Renting`.
- `income.dfy`, module `Income`, holds class `Budget`.

Each class keeps the fields its Python constructor sets. The fields are
`const` because nothing assigns them after construction. `RentValue` and
`SalaryBump` are functions. `Schedule` is a method whose loop appends one row
per date, as the source's loop does.

Because each rent rounds up the exact escalated amount, the rent does not
always rise strictly at a year boundary, even at a positive rate, and a year's
rent is not the previous year's rounded rent times `1 + r` rounded up again.

Money and rates are exact reals. A calendar month is an integer month number.
The source anchors each schedule to the first day of the current month. Here
that month is the constructor parameter `start`. Row `i` carries the date
`start + i`.

## Model

| member | source | states |
|---|---|---|
| `Escalation.Ceil` | investment_decision/Renter.py:23 | `math.ceil`: the result is an integer `r` with `x <= r < x + 1` |
| `Escalation.CeilUnique` | investment_decision/Renter.py:23 | any integer within `[x, x + 1)` is the ceiling of `x`, so the bounds pin the ceiling down |
| `Escalation.CeilMonotone` | investment_decision/Renter.py:23 | rounding up keeps order |
| `Escalation.RoundHalfEven` | investment_decision/Income.py:24 | the result is an integer within 1/2 of `y`, and it is even when `y` lies exactly halfway |
| `Escalation.RoundHalfEvenUnique` | investment_decision/Income.py:24 | any integer that is nearest with ties to even equals `RoundHalfEven`; this is an independent characterisation of the rounding |
| `Escalation.RoundHalfEvenMonotone` | investment_decision/Income.py:24 | rounding to the nearest integer keeps order |
| `Escalation.RoundCents` | investment_decision/Income.py:24 | `round(x, 2)`: the result is a whole number of cents within 0.005 of `x`; at an exact half-cent tie it is an even number of cents |
| `Escalation.RoundCentsUnique` | investment_decision/Income.py:24 | any whole-cents amount that is nearest to `x` with ties to an even number of cents equals `RoundCents(x)`, so the contract pins the rounding down |
| `Escalation.RoundCentsMonotone` | investment_decision/Income.py:24 | rounding to cents keeps order |
| `Escalation.RoundCentsOfWholeCents` | investment_decision/Income.py:24 | an amount already in whole cents is unchanged by rounding |
| `Escalation.Pow` | investment_decision/Renter.py:22 | Python's `**` with a natural exponent, defined by repeated multiplication; its contract only adds that a non-negative base gives a non-negative power |
| `Escalation.Escalated` | investment_decision/Renter.py:21-22 | the exact amount `amount * (1 + rate) ** (month_n // 12)` shared by `rent_value` and `salary_bump` (investment_decision/Income.py:22-23 is the same expression); its contract only adds that a non-negative amount at a rate of at least -100 percent never escalates below zero, and the lemmas below state its properties |
| `Escalation.PowOfOne` | investment_decision/Renter.py:22 | `1 ** k == 1`, which is the zero-rate case of the escalation factor |
| `Escalation.PowAtLeastOne` | investment_decision/Renter.py:22 | a factor `(1 + rate) ** k` with a non-negative rate is at least 1 |
| `Escalation.PowGrowsWithExponent` | investment_decision/Renter.py:22 | with a non-negative rate the escalation factor never shrinks as more years pass |
| `Escalation.PowStepGrows` | investment_decision/Renter.py:22 | with a positive rate each further year makes the factor strictly larger |
| `Escalation.EscalatedSameYear` | investment_decision/Renter.py:21-22 | the exact amount depends on the month index only through `month_n // 12` |
| `Escalation.EscalatedAtYearStart` | investment_decision/Renter.py:21-22 | at month `12 * k` the exact amount is the starting amount times `(1 + rate) ** k` |
| `Escalation.EscalatedMonotone` | investment_decision/Renter.py:21-22 | a non-negative amount at a non-negative rate is non-negative and non-decreasing in the month index |
| `Escalation.EscalatedStrictAtYearBoundary` | investment_decision/Renter.py:21-22 | a positive amount at a positive rate is strictly larger after each year boundary |
| `Escalation.EscalatedZeroRate` | investment_decision/Renter.py:21-22 | at rate 0 the exact amount equals the starting amount in every month |
| `Escalation.MonthStarts` | investment_decision/Renter.py:17-19 | `date_range(start, periods, freq='MS')`: exactly `periods` consecutive months beginning at `start` |
| `Renter.Renting.constructor` | investment_decision/Renter.py:5-19 | the rate is the percentage divided by 100; the rent and years are stored; the date range holds `years * 12 + 1` consecutive months from the start month |
| `Renter.Renting.RentValue` | investment_decision/Renter.py:20-23 | the rent is a whole number, at least the exact escalated amount `rent0 * (1 + r) ** (i // 12)`, and less than that amount plus 1 |
| `Renter.Renting.SameYearSameRent` | investment_decision/Renter.py:20-23 | two months in the same 12-month block pay the same rent |
| `Renter.Renting.RentAtYearStart` | investment_decision/Renter.py:21-23 | `rent_value(0) == ceil(monthly_rent)` and `rent_value(12 * k) == ceil(monthly_rent * (1 + r) ** k)` |
| `Renter.Renting.RentNonDecreasing` | investment_decision/Renter.py:11-23 | with a non-negative rent and percentage, the rent is non-negative and never decreases from one month to a later one |
| `Renter.Renting.ZeroRateFlatRent` | investment_decision/Renter.py:11-23 | at 0 percent every month pays `ceil(monthly_rent)` |
| `Renter.Renting.RentStepCanBeFlat` | investment_decision/Renter.py:21-23 | rounding up can absorb a year's escalation: 999.5 at 0.01 percent gives an exact amount that grows while the rent stays 1000; and month 12's rent (1000) is not the rounded-up first rent times `1 + r` (1001) |
| `Renter.Renting.Schedule` | investment_decision/Renter.py:25-34 | exactly `years * 12 + 1` rows; row `i` carries month `start + i` and `rent_value(i)`, so dates increase by one month without gaps; rows in the same 12-month block have equal rent; with a non-negative rent and percentage the rent column is non-decreasing |
| `Income.Budget.constructor` | investment_decision/Income.py:5-20 | the rate is the percentage divided by 100; the income and years are stored; the date range holds `years * 12` consecutive months from the start month |
| `Income.Budget.SalaryBump` | investment_decision/Income.py:21-24 | the salary is a whole number of cents, within 0.005 of the exact escalated amount `net0 * (1 + r) ** (i // 12)`, and an even number of cents at an exact half-cent tie |
| `Income.Budget.SameYearSameSalary` | investment_decision/Income.py:21-24 | two months in the same 12-month block earn the same salary |
| `Income.Budget.SalaryAtYearStart` | investment_decision/Income.py:21-24 | `salary_bump(0) == round(monthly_net, 2)` and `salary_bump(12 * k) == round(monthly_net * (1 + r) ** k, 2)` |
| `Income.Budget.SalaryNonDecreasing` | investment_decision/Income.py:12-24 | with a non-negative income and percentage, the salary is non-negative and never decreases, because rounding to cents keeps order |
| `Income.Budget.ZeroRateFlatSalary` | investment_decision/Income.py:12-24 | at 0 percent every month earns `round(monthly_net, 2)` |
| `Income.Budget.Schedule` | investment_decision/Income.py:26-35 | exactly `years * 12` rows, one fewer than the rent schedule for the same years; row `i` carries month `start + i` and `salary_bump(i)`, in increasing month order; rows in the same 12-month block are equal; with a non-negative income and percentage the income column is non-decreasing |

## Left out

- Calendar dates: `pd.Timestamp('today')` and `pd.date_range` become integer month numbers from a `start` parameter, because the clock is an input and day-of-month arithmetic plays no part in either schedule.
- The pandas DataFrame that `schedule()` returns is modelled as a sequence of (date, amount) rows. Column names and the DataFrame type are not modelled.
- Floating point: amounts are exact reals. `math.ceil` and `round(x, 2)` act here on the exact escalated value. Python applies them to a binary float, which can round differently at a boundary, for instance a rent whose exact value is a whole number but whose float product lands just above it.
- Renter.Renting.constructor: `years` is a natural number. A negative or fractional horizon, which the source passes straight to pandas, is not modelled.
- Income.Budget.constructor: `years` is a natural number, for the same reason.
- Renter.Renting.RentValue: the month index is a natural number. The source's `schedule` only calls it with `i >= 0`, and a negative index is not modelled.
- Income.Budget.SalaryBump: the month index is a natural number, for the same reason.
- The mortgage amortization, the investment compounding, the comparison orchestrator and the web front end are not part of this model. They are either presentation code or depend on code outside the two schedule generators.
