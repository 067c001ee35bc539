# Ring clock model

This project models the core of an iOS "ring clock": a view with five
concentric rings of labelled ticks. The rings are seconds (0–59 秒), minutes
(0–59 分), hours (0–23 时), days of the month (1–monthLength 日) and months
(1–12 月). There is also a year label. Once a second, each ring is turned by
the rotation `handleTick` gives it. The seconds ring is turned by second+1,
and the day ring by the day over the month length read at that tick. Which
tick that brings to the reference direction is what the lemmas below
establish. It is not always the current value.

All angles are exact fractions of a full turn (`Turns.Turn(num, den)`), so
`2π·x/n` radians is `Turn(x, n)`. Because of that, "points the same way"
(`Whole`, `Congruent`) can be decided exactly. The model has four modules:

- `Turns`: exact angles, their composition, and congruence modulo a whole turn.
- `Format`: the `%0.2ld` conversion that writes a tick's number, and `Int(String) ?? 0`
  (`intValue`), which reads the date formatter's fields back.
- `Ring`: one ring. It is the `TimeView` class, whose constructor lays out one
  `Component` per index start..end (the `drawTime` loop). It also holds the
  lemmas about which tick a rotation brings to the reference direction.
- `Clock`: the `ClockView` class, which holds five rings and the year text.
  `HandleTick` applies the rotation formulas. `Clock` also holds the lemmas
  about them, including the stale day ring.

Tick `index` is turned by `-index/(end-start+1)` of a turn. The index
itself is used, not its offset from `start` (ClockView.swift:68,
`Ring.Placement`). Each rotation likewise divides the field's value itself
(ClockView.swift:164-168), and the seconds ring uses `second + 1`. As a result:

- The minutes, hours and months rings show the current value (`Clock.MinuteRing`, `Clock.HourRing`, `Clock.MonthRing`).
- The seconds ring shows the next second, (s+1) mod 60, and never s (`Clock.SecondsLeadByOne`).

The day ring gets its tick count n once, when the clock is built
(ClockView.swift:105). Each tick then divides the day by the month length
read at that moment. For a day d that both counts include, tick d comes to
the reference exactly when n equals that month length (`Clock.StaleDayRing`, `Clock.DayRing`). When the two differ:

- On the last day of the month the ring shows tick n (`Clock.StaleLastDay`, `Clock.StaleDayExample`).
- On other days it may show no tick at all. For example, a 31-tick ring on the 15th of a 30-day month shows none (`Clock.StaleMidMonthExample`).

## Model

| member | source | states |
|---|---|---|
| Ring.TimeView.constructor | Clock/ClockView/ClockView.swift:48-55 | a ring keeps its unit, start and end, has exactly the ticks of `Layout(start, end, unit)` drawn, and is not turned; it needs start <= end, since `start...end` traps otherwise |
| Ring.TimeView.DrawTime | Clock/ClockView/ClockView.swift:61-71 | the loop adds, after the ticks already there, one tick per index start..end in increasing order, each with label `%0.2ld`+unit and angle -index/(end-start+1) of a turn |
| Ring.LayoutShape | Clock/ClockView/ClockView.swift:62-64 | tick count end-start+1; tick k has index start+k and label Label(start+k); indices strictly increase along the ring; the indices with a tick are exactly start..end |
| Ring.PlacementsDistinct | Clock/ClockView/ClockView.swift:68 | two ticks of a ring point the same way (their placements differ by a whole number of turns) exactly when they are the same tick |
| Ring.LabelsDistinct | Clock/ClockView/ClockView.swift:64 | two ticks have the same label exactly when they have the same index, for indices in Swift's Int range |
| Ring.AtReferenceMember | Clock/ClockView/ClockView.swift:68-69 | tick i points in the reference direction under a rotation exactly when i is in start..end and rotation plus placement is a whole number of turns |
| Ring.RingAtReference | Clock/ClockView/ClockView.swift:68 | turning an n-tick ring by r/n of a turn brings exactly one tick to the reference, the index in start..end congruent to r mod n |
| Ring.ShownIff | Clock/ClockView/ClockView.swift:68 | for a rotation r/n, tick i is at the reference exactly when i is start + (r-start) mod n |
| Ring.OwnValueAtReference | Clock/ClockView/ClockView.swift:68 | turning a ring by v/n for one of its own indices v brings tick v, and only it, to the reference |
| Ring.PlacementCancels | Clock/ClockView/ClockView.swift:68 | the rotation v/n plus tick v's placement is exactly zero turns |
| Format.Decimal | Clock/ClockView/ClockView.swift:64 | the decimal digits of a number: at least one digit, "0" only for zero, no leading zero otherwise |
| Format.DecimalRoundTrip | Clock/ClockView/ClockView.swift:64 | reading the decimal digits of n back gives n |
| Format.TwoDigitsValue | Clock/ClockView/ClockView.swift:64 | the precision .2 pads to at least two digits without changing the value |
| Format.FormatIndexShape | Clock/ClockView/ClockView.swift:64 | a label number has at least two characters; it is all digits for i >= 0 and a '-' followed by at least two digits for i < 0 |
| Format.FormatSmallIndex | Clock/ClockView/ClockView.swift:64 | indices 0..9 are written "0" followed by the digit, and 10..99 as their two digits (so 3 with unit 秒 is "03秒") |
| Format.FormatIndexRoundTrip | Clock/ClockView/ClockView.swift:229-231 | `Int(...)` and `intValue` read a label number back as the index it was written from, over the whole Int range |
| Format.FormatIndexInjective | Clock/ClockView/ClockView.swift:64 | different indices give different label numbers |
| Format.ParseInt | Clock/ClockView/ClockView.swift:230 | `Int(String)` yields only values in the 64-bit Int range |
| Format.IntValue | Clock/ClockView/ClockView.swift:229-231 | `intValue` is always in the 64-bit Int range |
| Format.TwoDigitField | Clock/ClockView/ClockView.swift:229-231 | a two-digit field such as "05" reads as 10·first + second |
| Format.NonDigitGivesZero | Clock/ClockView/ClockView.swift:229-231 | a string with a non-digit (other than a leading sign) does not parse, and its `intValue` is 0 |
| Format.NoDigitsGiveZero | Clock/ClockView/ClockView.swift:229-231 | "", "+" and "-" do not parse, and their `intValue` is 0 |
| Format.OverflowGivesZero | Clock/ClockView/ClockView.swift:229-231 | an unsigned digit string above Int.max does not parse, and its `intValue` is 0 |
| Format.SignedOverflowGivesZero | Clock/ClockView/ClockView.swift:229-231 | a '+'-signed number above Int.max or a '-'-signed one below Int.min does not parse, and its `intValue` is 0 |
| Clock.MonthLength | Clock/ClockView/ClockView.swift:184-188 | the calendar's day count for the month, or 30 when it reports no range |
| Clock.ClockView.constructor | Clock/ClockView/ClockView.swift:83-115 | builds five fresh, separate rings: 秒 0..59, 分 0..59, 时 0..23, 日 1..monthLength (read now), 月 1..12; none is turned, and no year text is set yet |
| Clock.ClockView.HandleTick | Clock/ClockView/ClockView.swift:150-171 | sets each ring's rotation to its formula applied to the field's `intValue` and the year text to year+"年", leaving the rings' ticks as drawn; then minutes, hours and months show their value, seconds shows (s+1) mod 60, and days shows d when the ring was laid out for this month length |
| Clock.TickShowsDate | Clock/ClockView/ClockView.swift:164-168 | after the rotations of one tick, the rings show the ticks listed for HandleTick |
| Clock.MinuteRing | Clock/ClockView/ClockView.swift:165 | the minutes ring turned by m/60 shows exactly tick m |
| Clock.HourRing | Clock/ClockView/ClockView.swift:166 | the hours ring turned by h/24 shows exactly tick h |
| Clock.DayRing | Clock/ClockView/ClockView.swift:167 | an up-to-date day ring turned by d/monthLength shows exactly tick d |
| Clock.MonthRing | Clock/ClockView/ClockView.swift:168 | the months ring turned by mo/12 shows exactly tick mo |
| Clock.SecondsLeadByOne | Clock/ClockView/ClockView.swift:164 | the seconds ring turned by (s+1)/60 shows exactly tick (s+1) mod 60, and never tick s |
| Clock.SecondsWrap | Clock/ClockView/ClockView.swift:164 | at second 59 the rotation is exactly one full turn, a whole turn |
| Clock.StaleDayRing | Clock/ClockView/ClockView.swift:105 | a day ring laid out for n days, turned by d/monthLength, shows day d exactly when n equals the current month length |
| Clock.StaleSum | Clock/ClockView/ClockView.swift:167 | tick d's placement on n ticks plus d/monthLength is a whole turn exactly when n == monthLength |
| Clock.StaleLastDay | Clock/ClockView/ClockView.swift:167 | on the last day of any month, a day ring of n ticks shows tick n |
| Clock.StaleDayExample | Clock/ClockView/ClockView.swift:105 | a ring built in a 31-day month, on the 30th of a 30-day month, shows 31 |
| Clock.StaleMidMonthExample | Clock/ClockView/ClockView.swift:105 | a ring built in a 31-day month brings no tick to the reference on the 15th of a 30-day month |
| Clock.MinuteHourBounds | Clock/ClockView/ClockView.swift:165-166 | the minutes and hours rotations lie in [0, 1) turn |
| Clock.DayMonthBounds | Clock/ClockView/ClockView.swift:167-168 | the day and month rotations lie in (0, 1] turn, reaching 1 exactly on the last day or month |
| Clock.SecondBounds | Clock/ClockView/ClockView.swift:164 | the seconds rotation lies in [1/60, 1] turn, reaching 1 exactly at second 59 |
| Clock.RotationIncreases | Clock/ClockView/ClockView.swift:164-168 | a larger field value turns a ring strictly further |
| Turns.PlusNegValue | Clock/ClockView/ClockView.swift:69 | composing rotations adds their angles, and the opposite rotation negates the angle |
| Turns.WholeIffIntegral | Clock/ClockView/ClockView.swift:164 | an angle is whole exactly when its value in turns is an integer, i.e. it is the identity transform |
| Turns.WholeSameDen | Clock/ClockView/ClockView.swift:68 | x/n plus y/n is a whole turn exactly when x+y is a multiple of n |
| Turns.CongruentSameDen | Clock/ClockView/ClockView.swift:68 | x/n and y/n point the same way exactly when x ≡ y mod n |

## Left out

- UIKit geometry is left out: frames, centres, anchor points, the ring offsets and subview order. Only each tick's angle and label are modelled.
- Colours and fonts are left out, including `randomColor` and `timeFont`, along with `ComponentView`'s layout. None affects which tick is shown.
- The spring animation and its timing are left out. The model sets each rotation to its final value directly.
- The `Timer` is left out: its scheduling and `deinit` invalidation. Each tick is one call to `HandleTick`.
- `DateFormatter` is left out, and its output is an input (`DateText`). The "YYYY" pattern (week-based year) versus "yyyy" is therefore not modelled.
- `Calendar` is left out, and the month's day count is an input (`dayCount`). Its count is positive, so a zero count is excluded by the type `pos`. `monthLength` also reads the calendar for `Date()` rather than for the date itself; the model takes the count that tick sees.
- CGFloat arithmetic is left out: π and floating-point rounding. Angles are exact turns, so "same direction" means an exact whole-turn difference.
- `Clock.ClockView.HandleTick`: Swift's `intValue + 1` traps at Int.max; this contract is weaker and does not model that trap.
- Ring.TimeView.DrawTime: Swift's `end - start + 1` traps on Int overflow. The model's integers are unbounded, and every ring's range is small, so no ring the clock builds can reach the trap.
- A `%` inside a unit string would be interpreted by `String(format:)`. The units used (秒 分 时 日 月) contain none, so the label is the number followed by the unit.
- The commented-out plain animation is left out. It repeats the same rotations.
- The `init(coder:)` paths are left out. One of them traps, and the other sets up the same views without a timer.
- The lazy creation of the rings is left out. All five are created in the constructor, which is when `setupView` first touches them.
- `ViewController.swift` is not part of this model.
