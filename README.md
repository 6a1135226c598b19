# Weekly traffic dashboard analytics — a Dafny model

`streamlit_app.py` is a Streamlit dashboard for the weekly traffic of a news
and broadcast platform. Every week is one row of a CSV sheet whose column
names are in Korean (`주차` is the week label, `방송_PV` the broadcast page
views, `신규회원` the new members, and so on). This project models the
computations behind the dashboard, not its widgets:

- **Preprocessing** (`Normalize`, over `Frame`, `Text`, `Numbers`).
  - Column names are stripped.
  - The text columns (`주차`, `날짜`, `Date`, and ranking columns ending in
    `순위` whose name mentions `키워드` or `기사`) keep their stripped text.
  - Every other column becomes numbers: `,` and `%` are removed, then the
    text is parsed, and 0 is used when parsing fails.
- **Week resolution** (`Weeks`): the selectbox options are the week labels,
  newest first. The selected label resolves to its first row, or to the last
  row when it is absent. The previous week is the row before it.
- **Composite metrics and windows** (`Metrics`).
  - Broadcast app downloads are AOS plus iOS, with a missing side read as 0.
  - The derived chart columns are 0 when either side is missing.
  - The news-UV column is the first candidate present.
  - `df.tail(n)` keeps the last `n` rows.
- **Change formatting** (`Format`, `Delta`).
  - `fmt_delta` is the week-over-week percentage with `{:+.1f}%`, or `N/A`.
  - `fmt_abs_delta` is the absolute difference with `{:+,.0f}`, or `N/A`.
- **Surge detection** (`Surge`).
  - `check_surge` appends an alert to a list when the relative change reaches
    a threshold.
  - The six calls use fixed metrics and thresholds.
  - The outcome is "first week", "warning" or "stable".
- **News acquisition** (`Acquisition`).
  - `to_num`, the row the panel reads, and the five per-source rows.
  - The total users and sessions, with their fallback to the per-source sums.
  - The integer KPI text and the user shares in percent.
- **Keyword top 3** (`Keywords`): the required columns, the skipped blank or
  `nan` ranks, and the share conversion.
- **AI report evidence** (`Evidence`): `safe_int`, the eight-entry KPI
  dictionary and its `- label: value (전주대비 … / …)` lines, and the
  eight-week `tail_rows` snapshots.

A cell value as Python sees it after preprocessing is modelled by
`Numbers.Value`:

- `Null` stands for `None` or an absent key.
- `Number(x)` is a float; floats are exact reals.
- `Str(s)` is a string.
- `float()` is `Numbers.ToFloat`, which parses a decimal with optional
  surrounding whitespace, an optional sign and an optional fractional part.

A table is column-oriented. Its validity says that exactly the text columns
hold text cells, which is what preprocessing establishes. A row is the
sequence of (column name, cell) pairs, and `row.get(name, d)` is
`Frame.Get`, which uses the first column of that name.

The shapes in the model follow the source:

- `Preprocess` and the tail-rows loop are methods with loops.
- `check_surge` mutates a list, so it is the method
  `Surge.AlertLog.CheckSurge` on a class whose `alerts` field it extends.
  The list holds each alert as a record (label, change, direction, both
  values) rather than as its markdown text; `Surge.AlertText` renders a
  record as the line `st.markdown` shows, and its lemmas tie the numbers on
  that line back to the record.
- A keyword entry keeps its numeric rank beside its `f"{rank}위"` title.
- Everything that only computes a value is a function.

## Model

| member | source | states |
|---|---|---|
| Normalize.CleanCell | streamlit_app.py:25-46 | a cell stays text exactly when its column is a text column (`is_text_col`) |
| Frame.IsTextCol | streamlit_app.py:25-32 | `is_text_col`: `주차`, `날짜`, `Date`, and names ending in `순위` that mention `키워드` or `기사`; its consequences are stated by `Metrics.MetricColumnsNumeric`, `Metrics.NumericByLastChar` and `Keywords.KeywordColumnsText` |
| Normalize.CoerceNumber | streamlit_app.py:40-45 | a numeric cell: `,` and `%` removed, `pd.to_numeric`, 0 when parsing fails; `CoerceGrouped`, `CoerceNoDigit`, `CoerceSeparatorOrder`, `CoerceAsciiPadded` and `CoerceNonAsciiPadded` state its behaviour |
| Normalize.AsciiTrimLeft | streamlit_app.py:44 | removes exactly the leading ASCII whitespace (space, `\t` to `\r`): the result is a suffix of the text, everything removed is ASCII whitespace, and the result does not start with it |
| Normalize.AsciiTrimRight | streamlit_app.py:44 | removes exactly the trailing ASCII whitespace: the result is a prefix of the text, everything removed is ASCII whitespace, and the result does not end with it |
| Normalize.ToNumericUnpadded | streamlit_app.py:44 | on a text with no whitespace at its edges, `pd.to_numeric` and `float()` read the same number |
| Normalize.ToNumericAsciiPadded | streamlit_app.py:44 | `pd.to_numeric` skips ASCII whitespace on both sides of a text |
| Normalize.ToNumericNonAsciiLead | streamlit_app.py:44 | a text led by whitespace other than ASCII (a no-break space, say) is not a number to `pd.to_numeric` |
| Normalize.CoerceUnseparated | streamlit_app.py:40-45 | a cell with no `,` and no `%` goes to `pd.to_numeric` unchanged |
| Normalize.CoerceAsciiPaddedDigits | streamlit_app.py:40-45 | a run of digits padded with ASCII whitespace cleans to what the digits read as |
| Normalize.CoerceAsciiPadded | streamlit_app.py:40-45 | a number padded with ASCII whitespace cleans to that number |
| Normalize.CoerceAsciiPaddedExample | streamlit_app.py:40-45 | `" 12\t"` becomes 12 |
| Normalize.FloatSpaceLed | streamlit_app.py:333 | `float()` reads a number led by any whitespace `str.isspace()` knows |
| Normalize.CoerceNonAsciiPadded | streamlit_app.py:40-45 | a number led by whitespace that `float()` skips but pandas does not cleans to 0, although `float()` reads it |
| Normalize.CoerceNoBreakSpaceExample | streamlit_app.py:40-45 | `"\U{A0}12"` (a no-break space, then 12) becomes 0 |
| Normalize.CleanColumn | streamlit_app.py:34-46 | the cleaned column keeps its name and length and cleans every cell by that name's rule |
| Normalize.CleanColumns | streamlit_app.py:34-46 | the loop over columns cleans column k from the k-th stripped name and raw cells |
| Normalize.Preprocess | streamlit_app.py:19-48 | same height and column count, names stripped, each cell cleaned by its column's rule; the result is a valid table |
| Normalize.CoerceGrouped | streamlit_app.py:40-45 | a thousands-grouped number, with or without a trailing `%`, is read back as that number |
| Normalize.CoerceExample | streamlit_app.py:40-45 | `"12,345%"` becomes 12345 |
| Normalize.CoerceNoDigit | streamlit_app.py:40-45 | text without any digit is coerced to 0 (`errors="coerce"` then `fillna(0)`) |
| Normalize.CoerceDashExample | streamlit_app.py:40-45 | a placeholder `-` becomes 0 |
| Normalize.CoerceSeparatorOrder | streamlit_app.py:41-42 | removing `,` then `%` equals removing `%` then `,` |
| Text.Trim | streamlit_app.py:22 | `strip()`: the result has no whitespace at either end and is the input minus whitespace padding |
| Text.TrimOfPadded | streamlit_app.py:22 | stripping whitespace padding around a core without edge whitespace gives back that core |
| Text.RemoveAll | streamlit_app.py:41-42 | `replace(c, "")`: c is gone, every other character is kept, and the length never grows |
| Text.RemoveAllAppend | streamlit_app.py:41-42 | removal distributes over concatenation |
| Text.RemoveAllCommute | streamlit_app.py:41-42 | removing two characters can be done in either order |
| Text.Contains | streamlit_app.py:30 | `p in s` holds exactly when p occurs at some position of s |
| Text.UngroupShowGrouped | streamlit_app.py:356-357 | removing the separators from a `{:,}` rendering gives the plain digits |
| Numbers.ParseUnsignedAccepts | streamlit_app.py:44 | the unsigned parser accepts exactly digits, optionally with one decimal point and at least one digit |
| Numbers.ParseDecimal | streamlit_app.py:333 | `float()` of a text: optional surrounding whitespace and sign around an unsigned decimal; what it accepts and reads back is stated by `ParseUnsignedAccepts`, `NoDigitNoNumber`, `ParseShowNat` and `ParseTrimFirst` |
| Numbers.ToFloat | streamlit_app.py:53-54 | `float(v)`: None raises (no value), a number is itself, a text is `ParseDecimal` of it |
| Numbers.NoDigitNoNumber | streamlit_app.py:44 | text without any digit never parses as a number |
| Numbers.ParseShowNat | streamlit_app.py:44 | the decimal rendering of a natural number parses back to it |
| Numbers.ParseShowSignedNat | streamlit_app.py:602 | a signed rendering `+n` or `-n` parses back to ±n |
| Numbers.ParseShowTenths | streamlit_app.py:61 | a signed rendering with one decimal parses back to its value |
| Numbers.ParseShowUnsignedTenths | streamlit_app.py:540 | an unsigned rendering with one decimal parses back to its value |
| Numbers.ParseTrimFirst | streamlit_app.py:333 | surrounding whitespace does not change what is parsed |
| Numbers.Trunc | streamlit_app.py:592 | `int()` truncates toward zero: the integer is within one of x on x's side of zero |
| Numbers.TruncOdd | streamlit_app.py:592 | truncation is symmetric under negation |
| Numbers.RoundHalfEven | streamlit_app.py:61 | the format's rounding is within one half, with ties to the even integer |
| Numbers.RoundHalfEvenUnique | streamlit_app.py:61 | that rounding is the only integer with those two properties |
| Frame.FieldIndex | streamlit_app.py:173 | `row.get` finds the first field of that name, or none when no field has it |
| Frame.Get | streamlit_app.py:173 | `row.get(name, d)`: the cell of the first field of that name, `d` when there is none; `NumberOr`, `NumberOrNull` and `TextOr` state it per column kind |
| Frame.NumberOr | streamlit_app.py:173 | `row.get(name, d)` on a numeric column is a number, d when the column is absent |
| Frame.NumberOrNull | streamlit_app.py:545 | `row.get(name, None)` is null exactly when the column is absent |
| Frame.TextOr | streamlit_app.py:413 | `row.get(name, "")` on a text column is text, `""` when the column is absent |
| Frame.RowAtValid | streamlit_app.py:34-46 | every row of a preprocessed table has text exactly in its text columns |
| Frame.HasColumnInRow | streamlit_app.py:187 | a row has a key exactly when the table has that column |
| Weeks.FirstIndexOf | streamlit_app.py:165 | `df.index[mask][0]`: the first position holding x, absent exactly when x is absent |
| Weeks.LastIndexOf | streamlit_app.py:338 | `tmp.iloc[-1]`: the last position holding x, absent exactly when x is absent |
| Weeks.ColumnIndex | streamlit_app.py:337 | a table column of that name, absent exactly when the name is not a column |
| Weeks.FieldIndexRowAt | streamlit_app.py:163-166 | a row's key lookup finds the same column as the table's column lookup |
| Weeks.WeekLabels | streamlit_app.py:150 | `df["주차"]` is there exactly when the column exists and holds one label per row |
| Weeks.WeekLabelsContent | streamlit_app.py:150 | label i is the `주차` text that `row.get("주차")` reads from row i |
| Weeks.Reverse | streamlit_app.py:150 | `[::-1]`: same length, element i is element n-1-i |
| Weeks.WeekOptions | streamlit_app.py:150 | the options are the week labels, newest first, with the same members |
| Weeks.Resolve | streamlit_app.py:163-170 | a present label resolves to its first row, an absent one to the last row; the previous week is the row before, none for the first row |
| Weeks.DefaultSelection | streamlit_app.py:150-170 | the default option is the newest label, and it resolves to the first row carrying that label |
| Weeks.FallbackIsLastWeek | streamlit_app.py:166-170 | an unknown label resolves like the newest label exactly when that label does not appear earlier |
| Weeks.RepeatedLabelFirstRow | streamlit_app.py:165 | a repeated label always resolves to its earliest row |
| Metrics.MetricColumnsNumeric | streamlit_app.py:25-32 | none of the metric columns is a text column, so they hold numbers after preprocessing |
| Metrics.NumericByLastChar | streamlit_app.py:25-32 | a name that is not a date column and does not end in `위` is numeric |
| Metrics.Composite | streamlit_app.py:173 | `latest.get(a, 0) + latest.get(b, 0)`: the sum, one side alone when the other is missing |
| Metrics.AppDownloads | streamlit_app.py:173 | `curr_app` is the `Composite` of the AOS and iOS download columns of the row |
| Metrics.PrevAppDownloads | streamlit_app.py:174-177 | `prev_app` is None exactly when there is no previous week, else the previous week's sum |
| Metrics.DerivedColumn | streamlit_app.py:263-273 | the derived column has one value per row and is all zeros when either source column is missing |
| Metrics.BroadcastAppColumn | streamlit_app.py:263-266 | `방송_앱다운로드` has one value per row of the window |
| Metrics.NewsAppColumn | streamlit_app.py:270-273 | `뉴스_앱다운로드` has one value per row of the window |
| Metrics.DerivedColumnAt | streamlit_app.py:263-273 | each cell of a derived column is the sum of the row's two source values, or 0 when either source column is missing |
| Metrics.BroadcastAppColumnAt | streamlit_app.py:263-266 | each cell of `방송_앱다운로드` is the row's iOS plus Android broadcast downloads, or 0 when either column is missing |
| Metrics.NewsAppColumnAt | streamlit_app.py:270-273 | each cell of `뉴스_앱다운로드` is the row's iOS plus Android news downloads, or 0 when either column is missing |
| Metrics.DerivedAgreesWithComposite | streamlit_app.py:263-266 | the chart column equals the KPI sum exactly when both sides are present or both absent, or the present side is 0 |
| Metrics.FirstPresent | streamlit_app.py:187 | `next(...)` gives the first candidate present, none exactly when no candidate is present |
| Metrics.NewsUvColumn | streamlit_app.py:186-187 | the news-UV column is a present candidate, none exactly when no candidate is present |
| Metrics.NewsUvCandidatesNumeric | streamlit_app.py:186 | every news-UV candidate is a numeric column |
| Metrics.NewsUvPrefersFirst | streamlit_app.py:187 | `뉴스_사용자` wins whenever it is present |
| Metrics.NewsUvCurrent | streamlit_app.py:188 | the current news UV is that column's value, or 0 without a column |
| Metrics.NewsUvPrevious | streamlit_app.py:189 | the previous news UV is None exactly when there is no previous week or no column, else the previous row's value |
| Metrics.WeekCount | streamlit_app.py:258-259 | a period covers 13, 26 or 52 weeks |
| Metrics.Tail | streamlit_app.py:260 | `df.tail(n)`: the last min(n, height) rows in order, with every column kept |
| Metrics.TailEndsAtLatest | streamlit_app.py:258-260 | every period window is non-empty and ends with the newest week |
| Metrics.TailOfTail | streamlit_app.py:588 | taking the last m rows of the last n rows (m ≤ n) is taking the last m rows |
| Format.SignOf | streamlit_app.py:61 | the sign written by a format: `-` exactly for negatives, `+` exactly for the rest when forced |
| Format.TenthsOf | streamlit_app.py:61 | `|x|` in tenths, rounded to within one half |
| Format.Fixed1 | streamlit_app.py:61 | `{:+.1f}` / `{:.1f}`: sign, integer part, one rounded decimal; its read-back is `Fixed1RoundTrip` and `Fixed1UnsignedRoundTrip` |
| Format.Grouped0 | streamlit_app.py:602 | `{:+,.0f}` / `{:,.0f}`: sign and the grouped rounded magnitude; its read-back is `Grouped0RoundTrip` and `Grouped0UnsignedRoundTrip` |
| Format.Fixed1RoundTrip | streamlit_app.py:61 | `{:+.1f}` parses back to within 0.05 of the value |
| Format.Grouped0RoundTrip | streamlit_app.py:602 | `{:+,.0f}` without separators parses back to within 0.5 of the value |
| Format.Fixed1UnsignedRoundTrip | streamlit_app.py:540 | `{:.1f}` parses back to within 0.05 of the value |
| Format.Grouped0UnsignedRoundTrip | streamlit_app.py:540 | `{:,.0f}` without separators parses back to within 0.5 of the value |
| Format.ForcedSignFirst | streamlit_app.py:61 | forced-sign renderings start with `+` or `-`, with `-` exactly for negatives |
| Format.IntGrouped | streamlit_app.py:356-357 | `{:,}` of an integer: a minus for negatives, then the grouped digits of the magnitude |
| Format.IntGroupedRoundTrip | streamlit_app.py:356-357 | `{:,}` of an integer without separators parses back to that integer |
| Delta.PercentChange | streamlit_app.py:59 | `(curr - prev) / prev * 100`: p × prev = (curr − prev) × 100, negative exactly when a positive prev fell or a negative prev rose |
| Delta.DeltaPercent | streamlit_app.py:50-62 | a change exists exactly when prev is given, both parse, and prev is not 0 |
| Delta.FmtDelta | streamlit_app.py:50-62 | `N/A` exactly when there is no change, otherwise a text ending in `%` |
| Delta.FmtDeltaRoundTrip | streamlit_app.py:60 | the shown percentage, without `%`, parses back to within 0.05 of the change |
| Delta.FmtDeltaMinus | streamlit_app.py:60 | the text starts with `-` exactly when the change is negative |
| Delta.FmtDeltaSign | streamlit_app.py:59-60 | a `-` is shown exactly when a positive value fell or a negative value rose |
| Delta.FmtAbsDelta | streamlit_app.py:596-604 | `N/A` exactly when prev is None or either value does not parse |
| Delta.FmtAbsDeltaShown | streamlit_app.py:600-602 | otherwise the text is the forced-sign grouped difference |
| Delta.FmtAbsDeltaRoundTrip | streamlit_app.py:602 | that text, without separators, parses back to within 0.5 of curr - prev |
| Delta.ZeroPreviousContrast | streamlit_app.py:596-604 | with a previous value of 0 the percentage is `N/A` but the absolute difference is shown |
| Delta.RiseExample | streamlit_app.py:50-62 | 100 → 120 shows `+20.0%` and `+20` |
| Delta.NegativeZeroExample | streamlit_app.py:60 | 10000 → 9999 shows `-0.0%` |
| Surge.FractionIsPercent | streamlit_app.py:535 | the relative change times 100 is the percentage change of `fmt_delta` |
| Surge.Change | streamlit_app.py:529-535 | `pct` exists exactly when `fmt_delta` would show a percentage, and is that percentage over 100 |
| Surge.SurgeAlert | streamlit_app.py:528-543 | an alert exactly when |pct| reaches the threshold; it carries the label, pct, the direction (rise exactly when pct > 0) and both values |
| Surge.AlertText | streamlit_app.py:539-541 | the alert line is `- **label**: 전주 대비 **`, then the one-decimal percentage, then `%** `, then the direction word, and ends with `(previous → current)`, with nothing else in the line |
| Surge.DirectionWords | streamlit_app.py:538 | the direction word is `급등 📈` exactly for a rise |
| Surge.AlertTextReadsBack | streamlit_app.py:539-541 | the percentage on the line reads back to within 0.05 of `pct*100`, the word is `급등 📈` exactly when the direction is a rise, and both values read back to within 0.5 |
| Surge.SurgeAlertText | streamlit_app.py:535-541 | for a raised alert: the shown percentage is within 0.05 of the `fmt_delta` change, `급등 📈` exactly when that change is positive, and the shown values are within 0.5 of `float(prev)` and `float(curr)` |
| Surge.SurgeAlertNone | streamlit_app.py:530-534 | no alert when prev is None, a value does not parse, or prev is 0 |
| Surge.SurgeAlertOf | streamlit_app.py:535-541 | otherwise the alert is decided by `abs(pct) >= threshold` with the computed pct |
| Surge.AlertLog.constructor | streamlit_app.py:526 | the alert list starts empty |
| Surge.AlertLog.CheckSurge | streamlit_app.py:528-543 | the list grows by exactly the alert of this call, or stays unchanged |
| Surge.PreviousValue | streamlit_app.py:545 | without a previous week the previous value is None |
| Surge.RuleAlert | streamlit_app.py:545-550 | one `check_surge` call: the `SurgeAlert` of the rule's label, current value, previous value and threshold; `RuleCalls` states the six calls |
| Surge.Report | streamlit_app.py:545-550 | the alerts of the calls in call order; `ReportAppend`, `ReportBounded` and `ReportMembers` state its properties |
| Surge.ReportAppend | streamlit_app.py:545-550 | the alerts of consecutive calls concatenate |
| Surge.ReportSix | streamlit_app.py:545-550 | six calls give the concatenation of their six alerts |
| Surge.RuleCalls | streamlit_app.py:545-550 | each of the six calls reads its metric, its previous value and its threshold (0.1, 0.1, 0.15, 0.2, 0.2, 0.05) |
| Surge.DetectSurges | streamlit_app.py:545-550 | the six calls on the alert log leave exactly the report of the six rules |
| Surge.ReportBounded | streamlit_app.py:545-550 | at most one alert per call |
| Surge.ReportMembers | streamlit_app.py:545-550 | an alert is listed exactly when some call raised it |
| Surge.NoPreviousNoAlerts | streamlit_app.py:545-550 | without a previous week no call raises an alert |
| Surge.MissingColumnNoAlert | streamlit_app.py:545 | a column missing in the previous week raises no alert |
| Surge.AlertHasDelta | streamlit_app.py:535 | every alert's change is the `fmt_delta` percentage, which is then not `N/A` |
| Surge.AlertMatchesKpiDelta | streamlit_app.py:545 | when a column rule alerts, the KPI card's `fmt_delta` of that column is not `N/A` |
| Surge.ThresholdInclusiveExample | streamlit_app.py:536 | a change of exactly the threshold alerts (`>=`), a smaller one does not |
| Surge.Verdict | streamlit_app.py:552-559 | the first-week notice without a previous week, otherwise a warning when there are alerts and the all-clear when there are none; `VerdictOfReport` ties it to the calls |
| Surge.VerdictOfReport | streamlit_app.py:552-559 | first week exactly when there is no previous week (with no alerts), warning exactly when some call alerted, stable exactly when none did |
| Acquisition.ToNum | streamlit_app.py:331-335 | `to_num`: None is 0, a number is itself, text is parsed without commas, 0 on failure |
| Acquisition.ToNumIsFloat | streamlit_app.py:331-335 | without commas `to_num` is `float()` with 0 for failure |
| Acquisition.ToNumGrouped | streamlit_app.py:331-335 | a thousands-grouped number is read back exactly |
| Acquisition.AcquisitionRowIndex | streamlit_app.py:337-338 | the panel's row is the last row with the selected label, or the window's last row |
| Acquisition.TailWeekLabels | streamlit_app.py:260 | the window's labels are the last labels of the table |
| Acquisition.AcquisitionRowVersusResolve | streamlit_app.py:337-338 | with distinct labels the panel's row is the resolved week when it lies in the window, otherwise the window's last row |
| Acquisition.SourceRowOf | streamlit_app.py:342-346 | a source's users and sessions are its two columns, 0 when absent |
| Acquisition.SourceColumnsNumeric | streamlit_app.py:344-345 | the per-source columns are numeric |
| Acquisition.AcquisitionRows | streamlit_app.py:340-347 | one row per source, in source order |
| Acquisition.Users | streamlit_app.py:351 | the users column of the per-source rows |
| Acquisition.Sessions | streamlit_app.py:352 | the sessions column of the per-source rows |
| Acquisition.TotalUsers | streamlit_app.py:349-351 | `total_users`: `Total` of the total-users cell, with the sum of the sources as the fallback; `TotalsOnCleanRow` states it on a cleaned row |
| Acquisition.TotalSessions | streamlit_app.py:350-352 | `total_sessions`, by the same rule |
| Acquisition.Total | streamlit_app.py:351-352 | None or `""` falls back to the per-source sum; a number is taken as is |
| Acquisition.TotalColumnsNumeric | streamlit_app.py:349-350 | the two total columns are numeric |
| Acquisition.TotalsOnCleanRow | streamlit_app.py:349-352 | the total is the column's value when present, else the per-source sum |
| Acquisition.BlankTotalShownAsZero | streamlit_app.py:40-45 | a blank total cell, which reaches the cleaning as `"nan"` (or `""`), is 0 after preprocessing, so the fallback of line 351 does not apply |
| Acquisition.TotalText | streamlit_app.py:356-357 | `f"{int(total):,}"`: `IntGrouped` of the truncated total; `TotalTextRoundTrip` states what it reads back as |
| Acquisition.TotalTextRoundTrip | streamlit_app.py:356-357 | `f"{int(total):,}"` parses back to the truncated total, within one of it |
| Acquisition.Scale | streamlit_app.py:366 | every element is multiplied by the factor |
| Acquisition.SumScale | streamlit_app.py:366 | the sum of a scaled sequence is the scaled sum |
| Acquisition.Shares | streamlit_app.py:365-366 | share × total = users × 100 per source, all zero when the total is not positive |
| Acquisition.SharesSumTo100 | streamlit_app.py:365-366 | the shares add up to 100 |
| Acquisition.SumBounds | streamlit_app.py:365 | a sum of non-negative users is non-negative and bounds each term |
| Acquisition.SharesWithinPercent | streamlit_app.py:365-366 | with non-negative users every share is between 0 and 100 |
| Keywords.Missing | streamlit_app.py:406 | the wanted columns absent from the window, and only those |
| Keywords.MissingColumns | streamlit_app.py:404-406 | nothing is missing exactly when all six keyword and share columns exist |
| Keywords.KeywordColumnsText | streamlit_app.py:404 | the rank columns are text columns |
| Keywords.ShareColumnsNumeric | streamlit_app.py:405 | the share columns are numeric |
| Keywords.KeywordOf | streamlit_app.py:413 | the keyword is stripped, and empty when the column is absent |
| Keywords.ShareOf | streamlit_app.py:414-422 | a missing share is 0, a number is itself |
| Keywords.ShareOfIsToNum | streamlit_app.py:420 | the share conversion agrees with `to_num` |
| Keywords.RankText | streamlit_app.py:424 | `f"{i+1}위"` ends in `위` |
| Keywords.RankTextReadsBack | streamlit_app.py:424 | the text before `위` reads back as the rank |
| Keywords.RankKeywords | streamlit_app.py:412-413 | the three stripped keywords in rank order |
| Keywords.RankShares | streamlit_app.py:412-422 | the three converted shares in rank order |
| Keywords.Entries | streamlit_app.py:411-424 | the `rows_kw` loop as a recursion over the first n ranks; `EntriesShape`, `RankShownIffNotBlank` and `EmptyIffAllBlank` state its properties |
| Keywords.TopKeywords | streamlit_app.py:411-424 | `rows_kw` of the row: the entries of the three ranks |
| Keywords.KeywordTop3 | streamlit_app.py:404-424 | the missing columns when any is absent, otherwise the entries of the non-blank ranks |
| Keywords.EntriesShape | streamlit_app.py:411-424 | at most n entries, ranks strictly increasing within 1..n, each labelled `f"{rank}위"` with its rank's keyword, never blank, and its rank's share |
| Keywords.RankShownIffNotBlank | streamlit_app.py:416-417 | a rank is listed exactly when its keyword is not blank or `nan` |
| Keywords.EmptyIffAllBlank | streamlit_app.py:426 | the table is empty exactly when every keyword is blank |
| Keywords.TopKeywordsListsRank | streamlit_app.py:412-424 | on a row, a rank is listed exactly when its keyword is not blank |
| Keywords.EntryAt | streamlit_app.py:424 | each entry is labelled `f"{rank}위"` and carries its rank's keyword and share |
| Keywords.TopKeywordsEntry | streamlit_app.py:424 | on a row, each entry is labelled `f"{rank}위"` and carries its rank's stripped keyword and converted share |
| Evidence.SafeInt | streamlit_app.py:590-594 | `int(float(x))`: 0 when it does not parse, otherwise truncation toward zero |
| Evidence.SafeIntOdd | streamlit_app.py:592 | symmetric under negation |
| Evidence.SafeIntTowardZeroExample | streamlit_app.py:592 | -2.7 becomes -2 |
| Evidence.SafeIntSeparatorExample | streamlit_app.py:592 | `"1,234"` does not parse, so it becomes 0 |
| Evidence.StoredFieldIsGet | streamlit_app.py:621-629 | the stored-field reading finds the same field as `row.get` |
| Evidence.StoredNumberIsGet | streamlit_app.py:622-629 | on a numeric column it is `row.get(name, 0)` |
| Evidence.StoredTextIsGet | streamlit_app.py:621 | on the week column it is `str(row.get("주차", ""))` |
| Evidence.SnapshotOf | streamlit_app.py:620-630 | one `tail_rows` dictionary: the week text and `safe_int` of each metric (downloads: of the AOS plus iOS sum); `SnapshotFields` states it in terms of `row.get` |
| Evidence.SnapshotFields | streamlit_app.py:620-630 | each snapshot field is the week text or `safe_int` of its column (downloads: of the AOS plus iOS sum) |
| Evidence.SnapshotOfWindow | streamlit_app.py:588 | a window row's snapshot is the snapshot of the matching table row |
| Evidence.Rows | streamlit_app.py:619 | `iterrows()`: the rows of the window in order |
| Evidence.Snapshots | streamlit_app.py:618-630 | the loop appends one snapshot per row, in order |
| Evidence.EvidenceWindow | streamlit_app.py:587-630 | the snapshots of the last eight rows, in order |
| Evidence.EvidenceWeeksOfTable | streamlit_app.py:587-588 | min(8, height) snapshots of the newest rows, the last one being the newest week |
| Evidence.KpiColumnsNumeric | streamlit_app.py:606-615 | every KPI column is numeric |
| Evidence.KpiKeysDistinct | streamlit_app.py:606-615 | the eight dictionary keys are distinct, so no entry is overwritten |
| Evidence.KpiCurrent | streamlit_app.py:606-615 | the current value of a KPI is a number |
| Evidence.KpiPrevious | streamlit_app.py:606-615 | None exactly without a previous week; otherwise a number, 0 for a missing column (`prev.get(name, 0)`) |
| Evidence.KpiLines | streamlit_app.py:606-615 | eight lines in dictionary order with each label, current value and previous value as above |
| Evidence.LineText | streamlit_app.py:637 | the line is `- label: `, the `{:,.0f}` value, ` (전주대비 `, the `fmt_delta` text, and ends with ` / `, the `fmt_abs_delta` text and `)`, with nothing else in the line |
| Evidence.LineTextReadsBack | streamlit_app.py:637 | the shown value reads back to within 0.5; when there is a change, the shown percentage reads back to within 0.05 of it; when there is a previous value, the shown absolute change reads back to within 0.5 of current minus previous |
| Evidence.FirstWeekLineText | streamlit_app.py:637 | in the first week a line is its label and value followed by ` (전주대비 N/A / N/A)` |
| Evidence.FirstWeekLinesNotAvailable | streamlit_app.py:637 | in the first week both deltas of every line are `N/A` |
| Evidence.AbsoluteDeltaAlwaysShown | streamlit_app.py:637 | with a previous week every absolute delta is shown |
| Evidence.MissingPreviousColumnLine | streamlit_app.py:607-614 | the selected week and the week before are rows of one table, so a KPI column missing from the previous row is missing from the selected row too; the line shows a value of 0, `N/A` for the percentage and `+0` for the absolute change |

## Left out

- Floating point: every float is an exact real. So there is no
  binary-representation error, overflow, infinity, NaN or signed zero in
  arithmetic. `-0.0` still appears where the format writes it.
- The number parser accepts decimal text with an optional sign, an optional
  point and surrounding whitespace. Exponents, `inf`, `nan`, underscores and
  `pd.to_numeric`'s other spellings are not modelled; they all fall into the
  "does not parse" case.
- `Normalize.CoerceNumber`: `pd.to_numeric` skips only ASCII whitespace
  around a number, and the model follows it (`CoerceNonAsciiPadded`). Other
  whitespace inside the text, which pandas also rejects, is rejected by the
  model too.
- `Acquisition.Shares`: the `.round(1)` applied to the shares is not
  modelled. The exact shares are stated, and the rounding is only what the
  bar labels show.
- `str()` of a float in the bar labels and in `f"{...}"` of the week column
  is not modelled; the week text is the cell's text.
- Duplicate column names: a row lookup returns the first column of that
  name, which is what preprocessing leaves for distinct names. pandas
  returns a Series for duplicates, and that case is not modelled.
- `load_data` (the CSV download and its cache), the sidebar inputs, every
  `st.*` widget, the Plotly charts and `vspace` are left out. They are I/O
  and layout.
- The Gemini call, the prompt text around the KPI lines, the session state
  and the outer `try/except` that shows an error are left out. They are
  network and UI.
- The minimum of two weeks checked at line 136 is not modelled. The
  resolution is modelled for any non-empty table.
- Python's integer `int()` has no width, so no wrap-around is needed.

## Findings

None are claimed. Two observations are stated as lemmas rather than as bugs,
because the intended behaviour cannot be told from the code:

- The acquisition panel reads the last row carrying the selected label
  (`Acquisition.AcquisitionRowVersusResolve`). The KPI cards read the first.
- A KPI column missing from the table is read differently by the two
  consumers. The AI report's KPI lines read it as 0 in both weeks
  (`latest.get(name, 0)`, `prev.get(name, 0)`), so the line shows
  `0 (전주대비 N/A / +0)` (`Evidence.MissingPreviousColumnLine`). The surge
  check reads the same column as None and raises no alert
  (`Surge.MissingColumnNoAlert`).
