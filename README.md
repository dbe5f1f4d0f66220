# F1 prediction tracker — client-side formatting logic, in Dafny

The browser side of the tracker is mostly framework wiring: a LiveView socket, chart
hooks and a drag-and-drop hook. A few small pieces of it compute something exactly,
and this project models those pieces and proves their properties:

- **Countdown** (`Hooks.Countdown.updateCountdown` in `assets/js/app.js`). It takes the
  milliseconds left until a prediction deadline. A difference of zero or less shows
  "Deadline passed". A positive one is split by floor/modulo into days, hours, minutes
  and seconds. It is shown as an optional `"N day "`/`"N days "` prefix followed by a
  zero-padded `HH:MM:SS` clock. Module `Countdown` (countdown.dfy).
- **Gap chart data** (`renderChart` in `assets/js/hooks/gap_chart.js`). The input maps each
  lap number to that lap's `{driver_id, gap}` records, and there is a list of driver ids.
  The output has the sorted lap numbers and one `"Lap n"` label per lap. It also has one
  dataset per driver, holding that driver's gap on each lap, or null where the lap has no
  record for them. Module `GapChart` (gap_chart.dfy).
- **Line colours** (`generateColors`). Up to 20 drivers get a prefix of a fixed team
  palette. Beyond that, generated `hsl(...)` colours are appended. Module `Palette`
  (palette.dfy).
- **Legend labels** (`formatDriverId`). Turns `max_verstappen` into `Max Verstappen`.
  Module `DriverLabel` (driver_label.dfy).

Two modules support these. `Decimal` (decimal.dfy) is JavaScript's decimal rendering of
safe integers, |n| < 2^53 (`toString`, `${n}`), together with reading a rendering back. `Wrappers`
(wrappers.dfy) is an `Option` type: `null` chart entries and absent data attributes.

The model is pure functions, except where the source builds its result step by step. The
countdown text is built by appending to a string, so `UpdateCountdown` is a method. The
palette is grown by a `push` loop, so `GenerateColors` is a method with a loop. `renderChart`
calls `generateColors`, so `RenderChart` is a method. Everything else is a function over
integers, strings, sequences and maps. Each operation has a partner:
- the countdown text has a parser that reads the breakdown back, and the breakdown
  recomposes to the difference;
- `formatDriverId` has a character-by-character reference definition;
- split has join;
- the lap sort is specified as "strictly ascending and exactly the key set";
- the first-match search is specified by index.

Inputs that come from the outside world become parameters:
- the millisecond difference `deadline - now`, in place of the two `Date`s;
- the two data attributes, already parsed, as `Option` values. A missing or empty
  attribute is `None`, which the source reads as `"{}"` or `"[]"`.

## Model

| member | source | states |
|---|---|---|
| `Countdown.UpdateCountdown` | assets/js/app.js:102-137 | "Deadline passed" exactly when the difference is ≤ 0. Otherwise the text is the day prefix followed by the 8-character clock of the breakdown, and parsing the text gives back that breakdown. |
| `Countdown.Breakdown` | assets/js/app.js:127-130 | For a positive difference: days is the difference div 86 400 000. Hours < 24, minutes < 60 and seconds < 60. The breakdown's milliseconds are ≤ the difference and within 1000 of it, so it recomposes to the difference truncated to the second. |
| `Countdown.RadixDigitsUnique` | assets/js/app.js:127-130 | Dividing with remainder by 24, 60, 1000, 60 000 or 3 600 000 has one result: equal values with in-range remainders have equal quotients and remainders. |
| `Countdown.NestedRemainders` | assets/js/app.js:128-129 | The hour field reduced modulo a day then an hour is the difference modulo an hour, and likewise for minutes. |
| `Countdown.BreakdownMillisIsWholeSeconds` | assets/js/app.js:127-130 | The breakdown recomposes to exactly the difference rounded down to whole seconds. |
| `Countdown.MillisDetermineRemaining` | assets/js/app.js:127-130 | Two in-range breakdowns stand for the same milliseconds if and only if they are equal. The split is the unique mixed-radix form. |
| `Countdown.SameTextIffSameSecond` | assets/js/app.js:127-137 | Two positive differences show the same countdown text if and only if they agree to the whole second. |
| `Countdown.Pad2` | assets/js/app.js:137 | `padStart(2, '0')` of a number below 100 is exactly two digits, and it reads back as that number. |
| `Countdown.DayPrefix` | assets/js/app.js:134-136 | The day prefix is empty exactly when no whole day is left. |
| `Countdown.DayPrefixShape` | assets/js/app.js:134-136 | One day reads `"1 day "`. More than one reads as a digit string with no leading zero whose value is the number of days, followed by `" days "`. That is exactly the decimal numeral `${days}` prints. |
| `Countdown.Clock` | assets/js/app.js:137 | The clock is 8 characters. Positions 2 and 5 are `:`, and the three two-character fields are digits. |
| `Countdown.ParseDaysOfDayPrefix` | assets/js/app.js:134-136 | Reading a day prefix back gives the number of days it was made from. |
| `Countdown.ParseClockOfClock` | assets/js/app.js:137 | Reading the clock back gives the hours, minutes and seconds. |
| `Countdown.CountdownText` | assets/js/app.js:133-137 | The text the countdown shows for a breakdown. Its contract is stated by `ParseCountdownText` (it parses back to the breakdown) and `SameTextIffSameSecond` (two differences share a text exactly when they agree to the second). |
| `Countdown.ParseCountdownText` | assets/js/app.js:133-137 | The countdown text is the optional day prefix followed by the clock as its last 8 characters. Reading it back gives the breakdown it was made from. |
| `Decimal.NatToString` | assets/js/app.js:135 | Rendering a non-negative count gives at least one digit, all digits, and no leading zero. Numbers below 10 get one digit and numbers below 100 get at most two. |
| `Decimal.ValueOfNatToString` | assets/js/app.js:135 | Reading a rendered number back gives the number. |
| `Decimal.NatToStringInjective` | assets/js/app.js:135 | Distinct counts render differently. |
| `Decimal.IntToString` | assets/js/hooks/gap_chart.js:61 | An interpolated integer starts with `-` exactly when it is negative. |
| `Decimal.IntToStringInjective` | assets/js/hooks/gap_chart.js:61 | Distinct integers render differently. |
| `Palette.GenerateColors` | assets/js/hooks/gap_chart.js:107-140 | Returns exactly `count` colours for `count ≥ 0`, and `slice(0, count)` of the base palette for negative `count`. Its entry i is base colour i for i < 20, and the generated colour for position i from 20 on. |
| `Palette.PaletteKeepsBase` | assets/js/hooks/gap_chart.js:108-139 | A colour list built that way is a prefix of the base palette when it has at most 20 entries. A longer one starts with the whole base palette unchanged, and none of its later entries is a base colour. |
| `Palette.AppendGenerated` | assets/js/hooks/gap_chart.js:133-136 | Each `push` of the generated colour for the next position keeps the list following the extended palette. |
| `Palette.GeneratedColor` | assets/js/hooks/gap_chart.js:134-135 | A generated colour is an `hsl(` string. |
| `Palette.Hue` | assets/js/hooks/gap_chart.js:134 | `(i * 137.5) % 360` is the number in [0, 360) that differs from `i * 137.5` by a whole multiple of 360. |
| `Palette.HueText` | assets/js/hooks/gap_chart.js:134-135 | The printed hue is a non-empty digit string whose value is the hue, or a non-empty digit string followed by `.5` whose value plus one half is the hue. |
| `Palette.GeneratedNotInBase` | assets/js/hooks/gap_chart.js:108-136 | A generated colour never equals a base palette colour. |
| `Palette.SliceEnd` | assets/js/hooks/gap_chart.js:139 | The end index used by `slice(0, end)` never exceeds the length, and it is `end` itself when that is in range. |
| `DriverLabel.FormatDriverId` | assets/js/hooks/gap_chart.js:143-149 | The label for a driver id. Its contract is stated by `FormatDriverIdIsTitleCase` (equal to the character-by-character reference), `FormatDriverIdPointwise` (each position) and `FormatDriverIdCounts` (no `_`, space count). |
| `DriverLabel.ToUpperAscii` | assets/js/hooks/gap_chart.js:147 | `toUpperCase` on one character: the result is never a lower-case letter, and exactly the lower-case letters change, each to its upper-case letter. ASCII only, see Left out. `FormatDriverIdPointwise` states it is applied exactly at piece starts. |
| `DriverLabel.CapitalizeAll` | assets/js/hooks/gap_chart.js:147 | The `.map` over the pieces. `CapitalizeAllCons` states it capitalizes the first piece and maps the rest; `FormatDriverIdIsTitleCase` states the result. |
| `DriverLabel.Join` | assets/js/hooks/gap_chart.js:148 | `.join(sep)`. `JoinSplit` states that it undoes `split` with the same separator. |
| `DriverLabel.Split` | assets/js/hooks/gap_chart.js:146 | `split('_')` yields at least one piece, and no piece contains the separator. |
| `DriverLabel.JoinSplit` | assets/js/hooks/gap_chart.js:146-148 | Joining the pieces of a split with the same separator gives back the original string. |
| `DriverLabel.Capitalize` | assets/js/hooks/gap_chart.js:147 | Capitalizing a piece keeps its length. |
| `DriverLabel.FormatDriverIdIsTitleCase` | assets/js/hooks/gap_chart.js:143-149 | split / capitalize each / join equals the character-by-character reference. That reference replaces `_` by a space, upper-cases the character that starts each piece, and keeps every other character. |
| `DriverLabel.RenderPiecesIsTitleCase` | assets/js/hooks/gap_chart.js:145-148 | The generalization proved by induction: it holds for either case of the first piece. |
| `DriverLabel.TitleCaseAt` | assets/js/hooks/gap_chart.js:145-148 | The reference's character at each position is the expected label character: a space for `_`, upper-cased at a piece start, otherwise unchanged. |
| `DriverLabel.FormatDriverIdPointwise` | assets/js/hooks/gap_chart.js:143-149 | The label has the id's length. Each `_` becomes a space. The first character, and every character right after a `_`, is upper-cased. All other characters are unchanged. |
| `DriverLabel.TitleCaseNoUnderscore` | assets/js/hooks/gap_chart.js:145-148 | The reference output contains no `_`. |
| `DriverLabel.TitleCaseSpaces` | assets/js/hooks/gap_chart.js:145-148 | The reference output has as many spaces as the input has spaces and underscores together. |
| `DriverLabel.FormatDriverIdCounts` | assets/js/hooks/gap_chart.js:145-148 | The label contains no `_`. It has as many spaces as the id had spaces and underscores together, so an id without spaces gets exactly one space per underscore. |
| `GapChart.GapsOf` | assets/js/hooks/gap_chart.js:15 | The `|| "{}"` fallback: a missing gap attribute is the empty map. `RenderChart` states that this gives no labels. |
| `GapChart.DriversOf` | assets/js/hooks/gap_chart.js:16 | The `|| "[]"` fallback: a missing driver attribute is the empty list. `RenderChart` states that this gives no datasets. |
| `GapChart.HasMinimum` | assets/js/hooks/gap_chart.js:34 | Every non-empty set of lap numbers has a least element. |
| `GapChart.Minimum` | assets/js/hooks/gap_chart.js:34 | The least lap number of a non-empty set is in the set and below every other element. |
| `GapChart.SortedLaps` | assets/js/hooks/gap_chart.js:34 | Sorting a set of laps gives a strictly ascending sequence of exactly the set's elements, each once. |
| `GapChart.LapNumbers` | assets/js/hooks/gap_chart.js:34 | `lapNumbers` is strictly ascending and holds exactly the keys of the gap map, with none lost or added. |
| `GapChart.FindIndex` | assets/js/hooks/gap_chart.js:43 | Locates the record that `find` returns: the index of the first record whose driver id matches. It returns none exactly when no record matches. |
| `GapChart.FindGap` | assets/js/hooks/gap_chart.js:42-44 | The entry is the gap of the first matching record. It is null exactly when the lap has no record for the driver. |
| `GapChart.DriverSeries` | assets/js/hooks/gap_chart.js:41-45 | One driver's gap on each lap. `DatasetsFields` states that it has one entry per lap, holding `FindGap` of that lap's records. |
| `GapChart.LapLabelInjective` | assets/js/hooks/gap_chart.js:61 | Two laps get the same `"Lap n"` label if and only if they are the same lap. |
| `GapChart.LapLabel` | assets/js/hooks/gap_chart.js:61 | The label `Lap ${lap}`. `LapLabelInjective` states that different laps get different labels. |
| `GapChart.LapLabels` | assets/js/hooks/gap_chart.js:61 | One label per lap, in order. `LapLabelsDistinct` and `RenderChart` state its length, entries and distinctness. |
| `GapChart.LapLabelsDistinct` | assets/js/hooks/gap_chart.js:61 | Strictly ascending laps give pairwise distinct labels. |
| `GapChart.Datasets` | assets/js/hooks/gap_chart.js:40-55 | One dataset per driver. `DatasetsFields` states each dataset's label, colours and data. |
| `GapChart.DatasetsFields` | assets/js/hooks/gap_chart.js:40-55 | With colours that follow the palette, dataset i has driver i's formatted label, palette entry i as border colour, that colour followed by `33` as background, and one entry per lap holding the driver's first gap on that lap or null. |
| `GapChart.RenderChart` | assets/js/hooks/gap_chart.js:15-61 | One label `"Lap " + n` per lap in ascending order, pairwise distinct. One dataset per driver, in driver order. Each dataset's legend is `formatDriverId` of the driver id, its border colour is palette entry i, and its background is the border colour followed by `33`. Entry j of its data is the gap of that driver's first record on lap j, or null. An empty or missing gap map gives no labels, and an empty or missing driver list gives no datasets. |

## Left out

- The LiveView socket, the CSRF token lookup, topbar and the `window` listeners (assets/js/app.js:19-28, 170-188) are framework plumbing with no logic of their own.
- `CumulativePointsChart` (assets/js/app.js:34-91) hands server-built data to the charting library unchanged. The charting library is not part of this model.
- The Chart.js object at assets/js/hooks/gap_chart.js:58-98 is left out: its axis and plot titles, `fill: false`, `tension: 0.1`, and the tooltip's `toFixed(3)` (floating point). The model stops at the labels and datasets handed to it.
- `Hooks.Sortable` (assets/js/app.js:154-168) only forwards the drag library's `oldIndex`/`newIndex` to the server.
- Timers, `Date` parsing and the DOM are not modelled. This covers `setInterval`/`clearInterval`, `new Date(...)`, writing `outerHTML`/`textContent`, creating the canvas, and replacing the previous chart instance. The countdown takes the millisecond difference as an integer, which a difference of two valid `Date`s is. "Deadline passed" stands for the banner HTML.
- An unparsable `data-deadline` is not modelled. It makes `new Date(...)` an Invalid Date and the difference `NaN` (assets/js/app.js:103-108). `NaN <= 0` is false, so the source then shows `"NaN:NaN:NaN"` on every tick and keeps the timer running.
- Number width is not modelled. Lap numbers and day counts are taken to be safe integers (|n| < 2^53). Above that, `Number(key)` at assets/js/hooks/gap_chart.js:34 rounds, two keys can collide, and the lookup at lines 42-43 can miss. `Decimal.NatToString` and `Decimal.IntToString` match JavaScript's rendering only for safe integers. From 2^53 `Number#toString` prints the shortest digits that round-trip, padded with zeros (`2**60` prints as `"1152921504606847000"`). From 10^21 it switches to exponent notation (`"1e+21"`).
- A record whose `gap` is `null` is not distinguished from a missing record. `driverGap ? driverGap.gap : null` (assets/js/hooks/gap_chart.js:44) gives `null` for both, while `GapChart.FindGap` gives the record's gap for the first and none only for the second.
- `JSON.parse` of the data attributes is not modelled. The model takes the parsed map and list. Malformed JSON, a lap value that is not a list, and non-string driver ids are not modelled.
- Lap keys are taken to be canonical integer strings. A key such as `"01"` would become lap 1, and the later lookup `gapData[1]` would then miss; that case is not modelled.
- The `update_data` event passes `gaps` and `drivers` to `renderChart`, but `renderChart` takes no parameters and re-reads the element's attributes. The model follows that attribute-driven behaviour.
- Gap values are carried through as an opaque type parameter. Their floating-point nature plays no part here.
- `DriverLabel.ToUpperAscii`: upper-casing is modelled for ASCII letters only. JavaScript's full Unicode case mapping, which can change a string's length (`ß` becomes `SS`), is not modelled.
- `Palette.HueText`: the hue `(i * 137.5) % 360` is computed exactly as `((i * 275) % 720) / 2`. This matches double-precision arithmetic while `i * 137.5` stays below 2^52, where every half-integer is exactly representable. Any realistic number of drivers is far below that.
- `Palette.GenerateColors`: `count` is an integer. A `NaN` or fractional count is not modelled; the caller always passes an array length.
