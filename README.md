# Terminal month calendar: grid builder and month navigation

This project models the logic of a small terminal calendar viewer written in Go
(`cmd/main.go`). The program shows one month as a table with the weeks as rows
and the days Monday to Sunday as columns. The left and right keys move to the
previous or next month. Two pieces carry that logic, and both are modelled here:

- `generarDiasDelMes(anio, mes)` builds a 6×7 matrix of strings. Every cell
  starts as the two-space blank `"  "`. The function then walks the dates of the
  month from the 1st. It writes each day, formatted with `%2d`, into the current
  row at the Monday-first column of the day's weekday. After a Sunday it moves
  to the next row.
- `model.Update` handles key presses. `left`/`h` goes back one month and
  `right`/`l` goes forward one month, rolling over the year at January and
  December. `q`/`ctrl+c` quits without touching the state. Every key that is not
  a quit key then rebuilds the grid `dias` and the title `mesActual`
  (`"<Month> <year>"`) from the new `(anio, mes)`.

The project has four modules, one per layer of the program:

- `Dates` (`dates.dfy`) stands in for the parts of Go's `time` package that the
  grid depends on. These are calendar dates, the proleptic Gregorian leap-year
  rule, month lengths, a day count from 0001-01-01, `Weekday` (Sunday = 0),
  stepping one day forward (`AddDate(0, 0, 1)`) and the English month names of
  `time.Month.String`.
- `Format` (`format.dfy`) models the `fmt` verbs `%d` and `%2d`.
- `Grid` (`grid.dfy`) holds `BuildMonthGrid`, an imperative method over an
  `array2<string>` that follows the Go loops step by step. It is proved equal to
  the specification function `MonthGrid`, and the layout properties are lemmas
  about `MonthGrid`.
- `Calendar` (`calendar.dfy`) holds the `Model` class with the four fields of the
  Go `model` struct. Its `Update` method follows the key switch. The pure
  functions `Previous`/`Next` on a `CalendarMonth` value specify the two
  navigation steps.

The class invariant `Model.Valid()` says three things. `mes` is in 1..12. `dias`
holds `MonthGrid(anio, mes)`. `mesActual` is `Title(anio, mes)`. The constructor
establishes it and `Update` preserves it. Inside `Update`, `RetreatMonth` and
`AdvanceMonth` change only the month, and `Regenerate` then restores the invariant.

Two details follow the code rather than the comments and the on-screen help:

- The title uses the English month names of `time.Month.String`. The field
  comment on `mesActual` shows a Spanish title ("Enero 2024"), but the code prints English.
- Every key press that is not a quit key rebuilds grid and title, including keys
  that do not navigate. Other messages change nothing.

## Model

| member | source | states |
|---|---|---|
| `Grid.BuildMonthGrid` | cmd/main.go:21-47 | The array it returns has 6 rows of 7 cells and equals `MonthGrid(year, month)` cell by cell. Every array write is proved in bounds (row below 6, column 0..6) for every month of every year. |
| `Grid.NewBlankGrid` | cmd/main.go:24-30 | The newly allocated array has 6 rows of 7 cells, and every cell is the blank `"  "`. |
| `Grid.MonthGrid` | cmd/main.go:24-30 | The grid always has exactly 6 rows of exactly 7 cells, whatever the month. |
| `Grid.MondayColumn` | cmd/main.go:34-39 | Sunday (0) maps to column 6 and weekday w in 1..6 to w−1. Equivalently the column is `(w + 6) % 7`, always in 0..6. |
| `Grid.DayColumn` | cmd/main.go:34-41 | A day's column is 6, the last one, exactly when the day is a Sunday. |
| `Grid.DayColumnFromFirst` | cmd/main.go:33-39 | Day d sits d−1 columns after day 1, wrapping mod 7. |
| `Grid.WeekRow` | cmd/main.go:32-43 | The row counter `fila`: 0 for day 1, one more after each Sunday. `Grid.WeekRowFromFirst` gives its closed form, and `Grid.DayPlacement` and `Grid.ConsecutiveDays` state its bound and step. |
| `Grid.WeekRowFromFirst` | cmd/main.go:32-43 | The row counter's value for day d is the number of Sundays before d. That equals `(firstColumn + d − 1) / 7`. |
| `Grid.DayPlacement` | cmd/main.go:32-43 | For every month and every day d in 1..DaysInMonth, the row of d is below 6. The grid holds the `%2d` label of d in that row, in the Monday-first column of d's weekday. |
| `Grid.FirstDayPlacement` | cmd/main.go:22-40 | Day 1 is in row 0, in the Monday-first column of the weekday of the 1st. |
| `Grid.DayAppearsOnce` | cmd/main.go:33-40 | A cell holds the label of day d if and only if it is d's place, so each day appears exactly once. |
| `Grid.BlankCells` | cmd/main.go:24-44 | A cell is the blank `"  "` if and only if no day of the month is placed in it. |
| `Grid.TrailingRowsBlank` | cmd/main.go:24-44 | Every row after the week of the last day is entirely blank. |
| `Grid.ConsecutiveDays` | cmd/main.go:34-43 | From day d to day d+1 the column advances by one, mod 7. The row advances by one exactly when d is in the Sunday column. |
| `Grid.RowMajorOrder` | cmd/main.go:33-44 | Reading the non-blank cells row by row gives the labels of days 1, 2, …, N in order. |
| `Grid.February2024` | cmd/main.go:21-47 | February 2024 has " 1" at row 0, column 3 (Thursday) and "29" at row 4, column 3. Row 5 is blank. |
| `Grid.December2024` | cmd/main.go:32-43 | December 2024 is a 31-day month starting on a Sunday. It has " 1" at row 0, column 6, and it needs row 5 for "30" and "31". |
| `Grid.DayLabelsContents` | cmd/main.go:40 | In the sequence of labels of days 1..k, the i-th entry is `%2d` of i+1. |
| `Dates.IsLeapYear` | cmd/main.go:22 | The Gregorian leap-year rule behind `time.Date`: divisible by 4, except centuries not divisible by 400. `Dates.FebruaryLength` (February has 29 days exactly in a leap year), `Dates.DaysBeforeYearStep` (the closed-form day count grows by 366 exactly in a leap year) and `Dates.WeekdayAgreesWithZeller` state what it decides. |
| `Dates.DayNumber` | cmd/main.go:22 | The count of days from 0001-01-01 to a date, on which `time.Date` and `Weekday` rest. `Dates.NextDayIsSuccessor`, `Dates.DayNumberInjective` and `Dates.WeekdayAgreesWithZeller` state its properties. |
| `Dates.DaysInMonth` | cmd/main.go:33 | The month loop runs for 28 to 31 days, and for fewer than 30 only in February. |
| `Dates.DaysInYear` | cmd/main.go:33 | The length of year y; `Dates.MonthsMakeYear`, `Dates.DaysBeforeYearStep` and `Dates.FebruaryLength` state its properties. |
| `Dates.FebruaryLength` | cmd/main.go:33 | February is the rest of the year after the other eleven months (337 days), and it has 29 days exactly in a leap year. |
| `Dates.DaysBeforeMonthStep` | cmd/main.go:33 | The cumulative month table grows by each month's length. |
| `Dates.MonthsMakeYear` | cmd/main.go:33 | The twelve month lengths sum to the length of the year. |
| `Dates.DaysBeforeYearStep` | cmd/main.go:33 | The closed-form count of days before a year grows by exactly that year's length. |
| `Dates.NextDay` | cmd/main.go:33 | Stepping one day from a valid date gives a valid date. It stays in the same month exactly when the day is not the month's last, which is what ends the Go loop. |
| `Dates.NextDayIsSuccessor` | cmd/main.go:33 | The next day's day count is one more, across month ends and year ends. |
| `Dates.NextDayWeekday` | cmd/main.go:33-34 | The next day's weekday is the following weekday, mod 7. |
| `Dates.DayNumberInjective` | cmd/main.go:22 | Distinct valid dates have distinct day counts, so the weekday formula is applied to a well-defined day. |
| `Dates.Weekday` | cmd/main.go:34 | The weekday index is in 0..6, Sunday first. |
| `Dates.WeekdayAgreesWithZeller` | cmd/main.go:34 | On every valid date of every year, the day-count weekday equals the weekday that Zeller's congruence for the Gregorian calendar gives. |
| `Dates.KnownWeekdays` | cmd/main.go:34 | The weekday formula gives Monday for 0001-01-01 and 2024-01-01, Thursday for 2024-02-01, Sunday for 2024-12-01 and Tuesday for 2000-02-29. |
| `Dates.MonthName` | cmd/main.go:53 | Month names have at least three characters and no space. |
| `Dates.MonthNameInjective` | cmd/main.go:90 | No two months share a name. |
| `Format.FormatNat` | cmd/main.go:40 | The decimal digits of a natural number. `Format.FormatNatDigits` and `Format.DecimalValueOfFormatNat` state its shape and the round trip. |
| `Format.FormatNatDigits` | cmd/main.go:40 | `%d` of a natural number is a non-empty string of digits, one digit exactly below ten. |
| `Format.DecimalValueOfFormatNat` | cmd/main.go:40 | Reading the decimal rendering back gives the number (round trip). |
| `Format.FormatInt` | cmd/main.go:90 | `%d` of the year: a minus sign before the digits of a negative number. `Format.FormatIntSign` and `Format.FormatIntInjective` state its properties. |
| `Format.FormatIntSign` | cmd/main.go:53 | `%d` starts with '-' exactly for negative numbers. |
| `Format.FormatIntInjective` | cmd/main.go:53 | Distinct years are printed differently. |
| `Format.Width2` | cmd/main.go:40 | `%2d` of a day number. `Format.Width2IsPadded`, `Format.Width2OfSmall`, `Format.Width2EndsWithDigit` and `Format.Width2Injective` state what it produces. |
| `Format.Width2IsPadded` | cmd/main.go:40 | `%2d` is the `%d` rendering right-justified with spaces in a field of two characters. |
| `Format.Width2OfSmall` | cmd/main.go:40 | `%2d` of 0..99 is a space and a digit below ten, otherwise two digits. |
| `Format.Width2EndsWithDigit` | cmd/main.go:28-40 | A day label ends in a digit, so it is never the blank `"  "`. |
| `Format.Width2Injective` | cmd/main.go:40 | Distinct non-negative numbers get distinct `%2d` labels. |
| `Calendar.Previous` | cmd/main.go:68-74 | Going back one month always gives a month in January..December. |
| `Calendar.Next` | cmd/main.go:76-82 | Going forward one month always gives a month in January..December. |
| `Calendar.StepsAreOneMonth` | cmd/main.go:68-82 | On the month time line `12 * year + month − 1`, `Next` adds exactly one and `Previous` subtracts exactly one. |
| `Calendar.NextPreviousRoundTrip` | cmd/main.go:68-82 | Right then left, or left then right, restores the original `(anio, mes)`. |
| `Calendar.YearRollover` | cmd/main.go:70-82 | December goes forward to January of year+1, and January goes back to December of year−1. |
| `Calendar.Title` | cmd/main.go:90 | The title `fmt.Sprintf("%s %d", mes, anio)`, also built at line 53: the English month name, one space and the year. `Calendar.TitleInjective` states that it determines month and year. |
| `Calendar.TitleInjective` | cmd/main.go:90 | The title `"<Month> <year>"` determines both month and year. |
| `Calendar.Model.Valid` | cmd/main.go:13-18 | The class invariant: `mes` in 1..12, `dias` equal to `generarDiasDelMes(anio, mes)`, and `mesActual` the title of `(anio, mes)`. The constructor establishes it and `Update` restores it. |
| `Calendar.Model.constructor` | cmd/main.go:49-58 | The initial state shows the given month with its grid and title (`Valid()`). |
| `Calendar.Model.RetreatMonth` | cmd/main.go:68-74 | The `left`/`h` branch sets `(anio, mes)` to `Previous` of the old pair. |
| `Calendar.Model.AdvanceMonth` | cmd/main.go:76-82 | The `right`/`l` branch sets `(anio, mes)` to `Next` of the old pair. |
| `Calendar.Model.Regenerate` | cmd/main.go:88-90 | After rebuilding, `dias` is `generarDiasDelMes(anio, mes)` and `mesActual` is the title of `(anio, mes)`. |
| `Calendar.Model.Update` | cmd/main.go:64-93 | Quit is reported exactly for `q`/`ctrl+c`. A quit key, or a message that is not a key press, leaves all four fields unchanged. Left/right apply `Previous`/`Next`, and other keys keep the month. `Valid()` holds again afterwards, so grid and title match the month shown. |
| `Calendar.NavigationScenario` | cmd/main.go:64-93 | A concrete run of the key handling from January 2024: three right presses reach April 2024, one left press gives March 2024 with the matching title and grid, and a quit key then changes nothing. |

## Left out

- `View` and the lipgloss styles (cmd/main.go:95-130): terminal rendering through a UI library.
- `main`, `tea.NewProgram` and `Run` (cmd/main.go:132-138): process startup, the event loop and the exit code.
- `Init` (cmd/main.go:60-62): it returns nil and has no logic.
- `time.Now()` in `initialModel` (cmd/main.go:50) reads the clock. The constructor takes the year and month as parameters instead.
- The `tea.Cmd` that `Update` returns is reduced to a boolean that says whether the quit command is returned.
- Update: Go's value receiver returns an updated copy of `model`. The model updates the one `Model` object in place instead, which is how the returned copy replaces the old state in the event loop.
- The Go `time` package itself is not part of this model. Its behaviour is restated for valid dates with months 1..12 only. `time.Date`'s normalisation of out-of-range months and days, and the package's own year range, are not modelled.
- The year is an unbounded integer. Go's `int` (64 bits on 64-bit platforms) would overflow once `anio` passes 2^63−1. `anio` changes once every twelve left/right steps, so that takes about 9.2·10^18 years of navigation, or 1.1·10^20 key presses. This overflow is not modelled.
- `time.Month.String` for values outside 1..12 (`%!Month(13)`) is not modelled, because `mes` always stays in 1..12.
- Width2: models `%2d` for non-negative numbers only. The grid applies it only to day numbers 1..31, and the title prints the year with `%d`, which is modelled for every integer.
- BuildMonthGrid: does not state that the returned array is freshly allocated, although Go's `make` always allocates.
