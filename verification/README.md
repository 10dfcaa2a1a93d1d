# Baby-name popularity chart — a Dafny model

The page (names.js) loads the rows of a remote baby-name sheet, lists every distinct
name in a selector, and, when a name is picked, draws one bar per year of the fixed
axis 2014..2023. The bars are scaled so that better (smaller) ranks stand taller. The
page also shows the name's origin/meaning line. This project models the pure parts of
that page as functions over immutable values and proves what they compute:

- `Catalog.BuildCatalog`: the deduplicated, sorted name catalog (`[...new Set(names)].sort()`).
  It is built from `Catalog.NamesOf` (the `map` to the name field, names.js:40-42),
  `Sorting.Dedupe` (JavaScript `Set` order) and `Sorting.Sort` (a reference insertion sort). The order is `Lexicographic.Less`, the default `sort` order.
- `Dropdown.Options`: the `<option>` list, an empty-valued "Select a name..." prompt
  followed by one option per catalog name.
- `Normalizer.Normalize`: the `displayGraph` normaliser. It builds the year→rank
  dictionary (a later row wins), collects the positive ranks, and returns either the
  terminal `NoData` state or exactly ten `Bar`s. Each bar has a year caption, a left
  offset, a height, a text and a top-ten flag. Its pieces carry no contract of their own
  and are covered by the `Normalizer.Normalize` row: `Normalizer.LookupRank` and
  `Normalizer.RankOrZero` are `yearToRank[year] || 0` (names.js:150);
  `Normalizer.BarHeight` and `Normalizer.Scale` are the three height cases
  (names.js:152-164); `Normalizer.MakeBar` assembles one bar and its caption
  (names.js:166-194).
- `Meaning.MeaningText`: the meaning line, or its fallback text.
- `Page`: the page state (selector options, chart area, meaning line, error area) and
  the events that change it. These are the arrival of the full dataset, the arrival of
  one name's rows, and a change of selection (the empty value clears the output).
  `Page.Render` turns the normaliser's result into the chart area's content: the "no
  ranking data" text or the bars (names.js:113, 133-135). It is covered by the
  `Page.OnDetailsLoaded` row.

A rank is the row's rank after `parseInt`, modelled as `Option<int>`. `None` stands for
`NaN`, which the code turns into 0 with `|| 0`. Years are strings, as the dictionary
keys are. The rank a year shows is given, without reference to the dictionary, by
`ShownRank`, which scans the rows from the end: the rank of the last row for that year,
or 0 when no row has that year. `IsLast` names that row. `LeastRank` and `GreatestRank`
state the extremes of the positive ranks directly over the rows.

## Model

| member | source | states |
|---|---|---|
| Lexicographic.LessIrreflexive | names.js:48 | no string sorts before itself |
| Lexicographic.LessAsymmetric | names.js:48 | two strings are never ordered both ways |
| Lexicographic.LessTransitive | names.js:48 | the default sort order is transitive |
| Lexicographic.LessTotal | names.js:48 | any two distinct strings are ordered one way or the other |
| Sorting.Dedupe | names.js:48 | the `Set` keeps each name once, and a name is kept exactly when it occurs in the input |
| Sorting.Insert | names.js:48 | inserting into a sorted list keeps it sorted and adds exactly that element |
| Sorting.Sort | names.js:48 | the result is sorted and is a permutation of the input |
| Sorting.SortedPermutationUnique | names.js:48 | two sorted permutations of the same list are equal |
| Sorting.SortIsCanonical | names.js:48 | any sorted permutation equals `Sort`, so the engine's sort algorithm does not change the catalog |
| Sorting.PermutationKeepsNoDuplicates | names.js:48 | sorting a duplicate-free list leaves it duplicate-free |
| Sorting.StrictlyIncreasingUnique | names.js:48 | a strictly increasing list is determined by its members |
| Catalog.BuildCatalog | names.js:40-48 | the catalog is strictly increasing (sorted, no duplicates), and a name is in it exactly when some row has that name |
| Catalog.CatalogCanonical | names.js:40-48 | the catalog is the only strictly increasing listing of the data's names |
| Catalog.CatalogOrderIndependent | names.js:40-48 | serving the same rows in another order gives the same catalog |
| Dropdown.Options | names.js:64-72 | there are one more options than names; the first is the empty-valued prompt; option i+1 has value and text names[i] |
| Dropdown.OptionsRoundTrip | names.js:67-72 | reading back the option values after the prompt gives the name list |
| Normalizer.YearToRank | names.js:122-125 | the dictionary has a key for exactly the years some row has, and each key holds the rank of the last row for that year |
| Normalizer.LookupIsShownRank | names.js:150 | the dictionary lookup, defaulting to 0, equals the rank found by scanning the rows from the end for that year |
| Normalizer.ShownRankOfLast | names.js:122-125 | the rank a year shows is that of the year's last row, with NaN read as 0 |
| Normalizer.ShownRankOfMissing | names.js:150 | a year no row has shows rank 0 |
| Normalizer.PositiveRanks | names.js:128-130 | a value is collected exactly when some row's parsed rank equals it and it is above 0, counting years off the axis too |
| Normalizer.MinOf | names.js:141 | the minimum belongs to the list and is below or equal to every element |
| Normalizer.MaxOf | names.js:143 | the maximum belongs to the list and is above or equal to every element |
| Normalizer.ExtremesAreMinMax | names.js:141-143 | the least and greatest positive ranks are what `Math.min` and `Math.max` return |
| Normalizer.Normalize | names.js:119-197 | "no ranking data" exactly when no row has a positive parsed rank; otherwise ten bars, bar i captioned allYears[i] at 10 + 60·i. With r the year's shown rank, the height is 0 for r = 0, 80 when the least and greatest positive ranks coincide, and floor((max − r)·180 / (max − min)) otherwise. The text is r exactly when the height is positive, and the top-ten flag is set exactly when 0 < r ≤ 10 |
| Normalizer.UnrankedYearEmpty | names.js:150-156 | a year whose last row has rank 0 or NaN gets height 0, no text and no top-ten flag |
| Normalizer.MissingYearEmpty | names.js:150-156 | a year no row mentions gets height 0, no text and no top-ten flag |
| Normalizer.TiedRanksFlat | names.js:157-159 | when the least and greatest positive ranks coincide, a year whose last row has a non-zero rank gets height 80 and shows that rank |
| Normalizer.ScaledHeight | names.js:160-164 | otherwise a year whose last row has a non-zero rank r gets height floor((max − r)·180 / (max − min)) |
| Normalizer.BestRankFullHeight | names.js:160-179 | when the ranks differ, a year whose last row has the least rank gets height 180 and shows that rank |
| Normalizer.WorstRankEmpty | names.js:160-179 | when the ranks differ, a year whose last row has the greatest rank gets height 0 and shows no text |
| Normalizer.PopularIff | names.js:183-185 | the top-ten flag is set exactly when 1 ≤ the rank of the year's last row ≤ 10, whatever the height |
| Normalizer.TextIffHeight | names.js:176-179 | a bar shows text exactly when its height is positive, and the text is the rank of the year's last row |
| Normalizer.HeightsBounded | names.js:152-164 | when no parsed rank is negative, every bar height lies in [0, 180] |
| Normalizer.HeightAntitone | names.js:160-164 | of two years whose last rows have positive ranks, the better-ranked year's bar is at least as tall |
| ChartExamples.FiveAndFiftyBars | names.js:141-179 | ranks 5 and 50 give heights 180 (text 5) and 0 (no text); an absent year gets 0 |
| ChartExamples.TopTenFlags | names.js:183-185 | ranks 1, 2 and 3 are flagged top-ten, rank 11 is not |
| ChartExamples.NegativeRankOverflows | names.js:128-163 | a rank of −5 beside ranks 5 and 10 is not rejected and gets height 540, above the 180 scale |
| Meaning.MeaningText | names.js:206-212 | the line starts with "Origin/Meaning: "; when the first row has a non-empty meaning, the rest of the line is that meaning; otherwise the line is the fixed fallback |
| Meaning.MeaningFromFirstRow | names.js:207-208 | rows after the first never affect the meaning line |
| Meaning.MeaningInjective | names.js:208 | two present meanings give the same line exactly when they are equal |
| Meaning.PlaceholderMeaningIndistinguishable | names.js:207-211 | a meaning equal to the fallback's own text gives the same line as no meaning |
| Page.OnNamesLoaded | names.js:36-53 | after the catalog loads, the selector holds the prompt and then options whose value equals their text, in strictly increasing order; a value is offered exactly when some row has that name; the selector is enabled and the chart, meaning and error are untouched |
| Page.OnDetailsLoaded | names.js:96-99 | the chart shows the "no ranking data" text exactly when no row has a positive rank, and ten bars otherwise; the meaning line is redrawn; the selector and the error area (including an earlier error message) are untouched |
| Page.OnChange | names.js:223-234 | the empty value requests nothing and sets the chart, meaning and error to empty, and changes nothing else; a non-empty value requests that name and changes nothing |
| Page.PromptResets | names.js:223-234 | choosing the prompt clears the chart, meaning and error and requests nothing |
| Page.CatalogChoiceRequestsName | names.js:223-228 | choosing a catalog option with a non-empty value requests exactly that name, and that name occurs in the data |
| Page.EmptyNameActsAsPrompt | names.js:224-233 | for any data with a row whose name is empty, the option right after the prompt has value "", and choosing it requests nothing and clears the chart, meaning and error, changing nothing else |
| Page.ResetDiscardsLoad | names.js:229-233 | clearing after a load leaves the same page state as clearing before it |

## Left out

- Network access: the two `fetch` calls, `response.json()`, and the promise chains (names.js:27-59, 91-103). A request is returned as `Step.request`, the argument passed to `fetchNameDetails`. What the server receives is not modelled: names.js:92 puts the name into the URL path without escaping it, so a name containing `#`, `?`, `/` or a `%xx` sequence queries a different filter than that name. The responses come in as the arguments of `Page.OnNamesLoaded` and `Page.OnDetailsLoaded`.
- `handleError` and the error text it writes (names.js:216-218). The `.catch` handlers at names.js:54 and names.js:100 report any failure of their promise chain. That covers a failed `fetch`, and also exceptions thrown by the catalog code, `populateDropdown`, `displayGraph` and `displayMeaning`. The model only shows which transitions leave the error area alone or clear it.
- Malformed responses. The responses are typed as `seq<Record>`. `fetch` does not reject on an HTTP error status, so a body that is not an array (such as an error object served with a 4xx status) reaches the callbacks. So does an array holding a `null` row. In `fetchNames`, `data.map` (names.js:40) then throws and the selector is never filled. In `displayGraph`, the chart is emptied at names.js:113, then `rankings.forEach` (names.js:123) or `item.year` (names.js:124) throws, and `displayMeaning` never runs. The page then shows an empty chart, the previous meaning line and the error message, a state no modelled transition produces.
- DOM construction and styling (`createElement`, `classList`, `innerHTML`, `style`), and the `DOMContentLoaded` and `change` listeners as event plumbing. Only the data they render is modelled. The `px` suffix of heights and offsets is not modelled.
- The race between overlapping selections: a slow response can overwrite the view of a newer selection. This is concurrency, outside the sequential model.
- `parseInt` string semantics. The parsed rank is an `Option<int>` input.
- Row fields that are missing or not strings (an absent `name`, or a numeric `year`). Names and years are strings; an absent meaning is `None`.
- `Math.min(...)`/`Math.max(...)` throwing on argument lists too long for the engine's spread limit.
- Normalizer.ScaledHeight: the source computes `Math.floor(((max − r) / (max − min)) * 180)` in IEEE-754 doubles; the model uses exact floor division. The two can differ by one when the exact value is an integer. For example, with min 1, max 11 and r 4, the double product 0.7 * 180 is 125.99999999999999, so the page draws 125 where the model gives 126.
- Normalizer.Normalize: states the scaled height with the same exact floor division as `Normalizer.ScaledHeight`, so it can differ by one from the page in the same cases.
- Normalizer.HeightsBounded: requires every parsed rank to be non-negative. The code does not reject negative ranks, and `ChartExamples.NegativeRankOverflows` shows one drawn at 540 pixels.
- Lexicographic.Less: compares Dafny characters (Unicode scalar values). JavaScript's default sort compares UTF-16 code units. The two orders agree on names inside the Basic Multilingual Plane.
