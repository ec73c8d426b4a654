# Pixelmatch visual-regression comparison: a verified model

This project models the core of the pixelmatch visual-regression tool
(`vrt/misw-4103-pixelmatch/index.js`). The tool takes two screenshot corpora,
one from the base version of an application and one from the release
candidate. It works in five stages:

- **Grouping.** Screenshot file names are grouped by scenario and step.
  A file named `...ESCnnn_<digits>.png` belongs to scenario `ESCnnn`, and its
  step is the decimal value of the digits.
- **Selecting scenarios.** The scenarios present in both corpora are kept,
  in the base corpus's first-appearance order.
- **Sorting.** Each scenario's screenshots are stable-sorted by step.
- **Matching.** Every base step is paired with the first candidate
  screenshot of the same step. A base step with no partner is skipped.
- **Comparing.** Each pair is compared. Pairs of different dimensions get
  the -1 sentinel. Pairs of equal size get the mismatched-pixel count and
  its percentage of the image area. The percentage then gets a severity
  badge: green below 20, orange below 50, red otherwise.

A screenshot that cannot be decoded throws. The exception ends the whole run.
The reports of the scenarios finished before it remain.

Modules:

- `Wrappers`: `Option` and `Result`.
- `Naming`: the file-name regular expression `(ESC\d{3})_(\d+)\.png$`, `parseInt`, and the diff names `diff_<step>.png` and `<scenario>/diff_<step>.png`.
- `Grouping`: `getScenarioGroups`. It is an imperative loop proved against a fold (`GroupFiles`) whose contents are characterised by a filter over the file list.
- `StepSort`: the comparator sort `(a, b) => a.step - b.step`. It is specified as *the* stable sort by step, and any sorted sequence with the same per-step subsequences equals it.
- `Seqs`: the `filter` that selects the common scenarios (`index.js:138`). The same `Filter` also states which base steps the matching loop compares. The loop itself uses `find` and `continue` (`index.js:150-151`).
- `Severity`: JavaScript number values of the percentage (exact rationals, NaN, +Infinity) and `getColorClass`.
- `PixelCompare`: `compareWithPixelMatch`. Decoding and the `pixelmatch` primitive are parameters.
- `Pipeline`: the matching loop, the per-scenario loop, and the whole run. The loops are methods proved against specification functions.

Three behaviours of the code are easy to miss, and the model keeps them:

- **Decode failure.** An undecodable file aborts the whole run. It does not
  fail just one pair.
- **Scenario order.** Scenarios follow insertion order, which is what
  `Object.keys` gives for keys like `ESC017`. They are not sorted.
- **Duplicates.** Duplicate base steps (e.g. `ESC017_1.png` and
  `ESC017_01.png`) are all kept. Each of them is compared, always against
  the first candidate entry of that step, because `find` returns the first
  match. Compared steps are therefore non-decreasing rather than strictly
  increasing.

## Model

| member | source | states |
|---|---|---|
| Naming.ParseName | vrt/misw-4103-pixelmatch/index.js:23-25 | a name is accepted iff some position starts `ESC`, three digits, `_`, a non-empty digit run, then `.png` at the end; for every such position the result is that scenario and the decimal value of that digit run |
| Naming.DecimalString | vrt/misw-4103-pixelmatch/index.js:156 | the decimal text of a step is non-empty, all digits, has no leading zero unless it is "0", and reads back as the step |
| Naming.LeadingZeroIgnored | vrt/misw-4103-pixelmatch/index.js:27 | `parseInt` ignores a leading zero: "0"+ds has the value of ds |
| Naming.LeadingZerosCollapse | vrt/misw-4103-pixelmatch/index.js:23-27 | `ESC017_01.png` and `ESC017_1.png` both parse to scenario ESC017, step 1 |
| Naming.PrefixAllowedOthersSkipped | vrt/misw-4103-pixelmatch/index.js:23-24 | the pattern is not anchored at the start (`shot-ESC003_12.png` is ESC003 step 12), and a non-`.png` name is skipped |
| Naming.DiffFileNameInjective | vrt/misw-4103-pixelmatch/index.js:156 | two steps get the same `diff_<step>.png` name iff they are equal |
| Naming.DiffReportPathInjective | vrt/misw-4103-pixelmatch/index.js:188 | within a scenario, two steps get the same `<scenario>/diff_<step>.png` path iff they are equal |
| Grouping.GetScenarioGroups | vrt/misw-4103-pixelmatch/index.js:20-31 | the loop (create the array on first sight, push every matching file) yields exactly the grouping `GroupFiles` of the listing |
| Grouping.EntriesFor | vrt/misw-4103-pixelmatch/index.js:22-28 | the entries recorded for a scenario are files of the listing that parse to that scenario and step; there is at least one iff some file mentions the scenario |
| Grouping.GroupFilesContents | vrt/misw-4103-pixelmatch/index.js:20-31 | the grouping lists each scenario once, never holds an empty array, has a key iff some file mentions it, and under each key holds exactly the matching files in listing order |
| Grouping.GroupingLossless | vrt/misw-4103-pixelmatch/index.js:24-27 | every file that matches the pattern appears in its scenario's array with its parsed step |
| Grouping.GroupOrderFirstAppearance | vrt/misw-4103-pixelmatch/index.js:26 | the key order is first-appearance order: an earlier key first appears in the listing before any file of a later key |
| StepSort.WithStepSound | vrt/misw-4103-pixelmatch/index.js:141-142 | the per-step subsequence used to state stability holds only entries of that step taken from the array |
| StepSort.StableSortSorted | vrt/misw-4103-pixelmatch/index.js:141-142 | the sorted array is ordered by step |
| StepSort.StableSortStable | vrt/misw-4103-pixelmatch/index.js:141-142 | entries of equal step keep their original relative order |
| StepSort.SortUnique | vrt/misw-4103-pixelmatch/index.js:141-142 | two step-sorted arrays with the same per-step subsequences are equal, so every stable sort gives the same result |
| StepSort.StableSortIsTheStableSort | vrt/misw-4103-pixelmatch/index.js:141-142 | the sort is a permutation, sorted, and stable, and it is the only array with those properties |
| Seqs.Filter | vrt/misw-4103-pixelmatch/index.js:138 | `filter` keeps exactly the elements satisfying the predicate and never lengthens the array |
| Seqs.FilterMultiplicity | vrt/misw-4103-pixelmatch/index.js:138 | a kept element occurs as often as in the input; a dropped one not at all |
| Seqs.KeptPositions | vrt/misw-4103-pixelmatch/index.js:138 | the positions `filter` keeps: strictly increasing, each accepted, and every accepted position present |
| Seqs.FilterOrdered | vrt/misw-4103-pixelmatch/index.js:138 | `filter`'s result is the subsequence at exactly the accepted positions: as long as the list of those positions, with its i-th element at the i-th of them |
| Seqs.FilterDistinct | vrt/misw-4103-pixelmatch/index.js:138 | filtering an array without duplicates gives one without duplicates |
| Severity.ColorClass | vrt/misw-4103-pixelmatch/index.js:35-41 | a non-finite percentage (NaN, Infinity, non-number) is red; the -1 sentinel and every negative value is green |
| Severity.ColorClassMonotone | vrt/misw-4103-pixelmatch/index.js:38-40 | a larger percentage never gets a milder badge |
| Severity.ColorClassScaleInvariant | vrt/misw-4103-pixelmatch/index.js:38-40 | the badge depends on the percentage's value, not on how the fraction is written |
| PixelCompare.PercentOf | vrt/misw-4103-pixelmatch/index.js:112-113 | over a non-empty area the percentage is exactly 100·count/area, zero iff nothing differs, within [0, 100] when count ≤ area; over an empty area it is not a finite number |
| PixelCompare.CompareImages | vrt/misw-4103-pixelmatch/index.js:100-119 | a dimension mismatch iff width or height differ, then the -1/-1/true record and no diff image; otherwise pixelmatch's count, its percentage of width·height, and the diff image of that size |
| PixelCompare.CompareWithPixelMatch | vrt/misw-4103-pixelmatch/index.js:95-120 | throws iff either file does not decode, naming the old file if it fails and else the new one; otherwise the comparison of the two decoded images |
| PixelCompare.DimensionMismatchBadge | vrt/misw-4103-pixelmatch/index.js:102-104 | a pair of different sizes gets the green badge and no diff image |
| PixelCompare.EqualSizeBadge | vrt/misw-4103-pixelmatch/index.js:112-113 | for equal non-empty sizes: green iff 5·count < area, orange iff area ≤ 5·count and 2·count < area, red iff area ≤ 2·count |
| PixelCompare.IdenticalPairOutcome | vrt/misw-4103-pixelmatch/index.js:106-119 | a pair pixelmatch finds identical reports 0 pixels, exactly 0 percent, a diff image and the green badge |
| PixelCompare.TenByTenBlockIsOnePercent | vrt/misw-4103-pixelmatch/index.js:112-113 | 100 differing pixels on a 100×100 image are exactly 1 percent |
| Pipeline.CommonScenarios | vrt/misw-4103-pixelmatch/index.js:138 | a scenario is compared iff it is a key of the base grouping and of the candidate grouping |
| Pipeline.FindStep | vrt/misw-4103-pixelmatch/index.js:150 | `find` yields nothing iff no entry has the step, and otherwise the first entry with that step |
| Pipeline.MatchStepsPairs | vrt/misw-4103-pixelmatch/index.js:148-151 | the compared base entries are exactly the base entries with a partner, in base order, each paired with the first candidate entry of its step |
| Pipeline.MatchStepsSelection | vrt/misw-4103-pixelmatch/index.js:148-151 | a base entry is compared as often as it occurs when the candidate has its step and never otherwise, the i-th compared base entry is the base entry at the i-th position that has a partner, always with an equal-step candidate entry |
| Pipeline.MatchStepsSorted | vrt/misw-4103-pixelmatch/index.js:141-151 | with the base sorted, the compared steps are non-decreasing |
| Pipeline.MatchStepsMissingStepsSkipped | vrt/misw-4103-pixelmatch/index.js:150-151 | base steps 1, 2 against candidate steps 1, 3 compare only step 1 |
| Pipeline.ComparePairsAllOrFirstError | vrt/misw-4103-pixelmatch/index.js:148-193 | a scenario completes iff every pair compares, then with one row per pair in order; otherwise it throws with the error of the first failing pair |
| Pipeline.CompareSteps | vrt/misw-4103-pixelmatch/index.js:148-193 | the indexed loop with `continue` and the throwing comparison yields exactly the specified rows or the first error |
| Pipeline.ReportsForRows | vrt/misw-4103-pixelmatch/index.js:140-197 | the reports written are those of the leading scenarios, one for one and in order, each holding that scenario's completed rows |
| Pipeline.ReportsForEnd | vrt/misw-4103-pixelmatch/index.js:140-200 | a completed run has one report per scenario; an aborted run stops at the first scenario that throws, with that scenario's error |
| Pipeline.Run | vrt/misw-4103-pixelmatch/index.js:122-197 | the whole run returns early when a directory is missing, otherwise groups both listings, sorts each common scenario in place and collects its reports, exactly as `RunSpec` specifies |
| Pipeline.ScenarioRowsBacked | vrt/misw-4103-pixelmatch/index.js:148-192 | a completed scenario has at most one row per base screenshot, rows non-decreasing by step, each backed by the corpora |
| Pipeline.ScenarioAbortBacked | vrt/misw-4103-pixelmatch/index.js:97-98 | a scenario throws only on a file of the base corpus the base decoder rejects or a file of the candidate corpus the candidate decoder rejects |
| Pipeline.RunReportsScenarios | vrt/misw-4103-pixelmatch/index.js:122-200 | with both directories present, the reports name the common scenarios in order: all of them, unless the run aborts on a corpus file its decoder rejects |
| Pipeline.RunRowsBacked | vrt/misw-4103-pixelmatch/index.js:140-192 | every row of every report: its files are a base and a candidate screenshot named for its scenario and step, its diff path is `<scenario>/diff_<step>.png`, its outcome is the comparison of the decoded pair; rows are non-decreasing by step |

## Left out

- File-system access is left out. Directory listings are parameters (None for a missing directory). `ensureDirSync`, the copies made for GitHub Actions, and the writes of diff images and HTML files are not modelled; each comparison records the diff image it would write.
- The PNG codec is a decoder parameter. A file it rejects stands for the exception `PNG.sync.read` or `readFileSync` raises.
- The internals of `pixelmatch` and its options from `vrt.config.js` are left out. The primitive is a parameter that need only be defined on images of equal size.
- HTML rendering (`generateHTMLReport` apart from `getColorClass`, and `toFixed(2)`) is left out: it is presentation only.
- The `oldPath`/`newPath` written for the HTML depend on the environment (GitHub Actions or local, `path.relative`). The model records the corpus file names instead.
- PixelCompare.PercentOf: the percentage is an exact rational, so the model does not capture floating-point rounding of `(mismatchPixels / totalPixels) * 100`, When the mismatch ratio is exactly 1/5 or 1/2, the double result is exactly 20 or 50, so it lands on the same side as in the model. Only a ratio just below a threshold can round up onto it, which needs an image area of roughly 10^15 pixels or more.
- Naming.ParseName: digit runs are unbounded naturals, so the model does not capture `parseInt`'s loss of precision above 2^53.
- Naming.DecimalString: a step of 1e21 or more renders in exponent form (`diff_1e+21.png`) in a JavaScript template literal; the model always renders plain decimal digits.
- Diff files written by a scenario before a later pair throws are not tracked. Neither is the overwrite of the same `diff_<step>.png` when a scenario repeats a step.
- The `async` wrapper and `main().catch(console.error)` are left out. An exception is modelled as the `Aborted` outcome that keeps the reports already finished.
