# Wikipedia analytics dashboard: record-level data derivation

This project models, in Dafny, the pure data logic underneath a small
analytics dashboard over a collection of Wikipedia articles. The dashboard
loads every article document, normalises two numeric fields, derives a
publication year, and computes an aggregation bundle. The bundle holds
per-year counts, the ten longest articles, the word-count column, a text
sample, three KPIs and the normalised rows. Chart builders then decide
what each chart plots and when there is nothing to plot. A table view
lets the operator search the rows and choose the columns shown.

Everything is modelled as pure functions over immutable sequences of
records whose fields may be null:

- `Records`: a stored field is `Value` (null, integer or text). A
  document is `Doc` with `title`, `text_clean`, `word_count`, `text_len`
  and `rev_ts` fields, plus any other stored columns. After loading, a
  row is an `Article`. `WellFormed` states what the loader needs from its
  input: the `title`, `word_count` and `rev_ts` columns exist, because the
  source reads them without a guard and would raise otherwise.
- `Numeric`: the cast-to-string, delete-every-comma, cast-to-integer step.
  The integer cast accepts an optional `-` followed by at least one digit.
- `Normalise`: the per-document normalisation and `year` derivation.
  Timestamp parsing is abstract. Each stored `rev_ts` carries its parse
  outcome (`RevTs.parsed`), which is null when the value does not parse.
- `YearStats`: `groupBy(year).count().orderBy(year)`, with nulls sorted
  first, as an insertion into an ascending table. Also the latest-year KPI.
- `TopN`: a stable descending insertion sort, the first ten rows, and the
  longest-article KPI.
- `Aggregate`: the text sample, the KPIs, the display frame and the
  bundle. The random sampler's coin flips are a parameter (`keep`, one
  flag per row), and the first 100 sampled rows are kept. A failed compute
  session or a missing connection secret is a `None` source, which yields
  no bundle.
- `Charts`: the four chart builders, reduced to the data they select.
- `Search`: the default columns, the case-insensitive search mask over
  title and text, and the projection onto the selected columns.
- `Seqs` and `Wrappers`: order-preserving filter, coin-flip pick,
  subsequence embedding, and `Option`.

## Model

| member | source | states |
|---|---|---|
| `Numeric.ParseInt` | data_loader.py:47 | the integer cast yields a value exactly for an optional `-` followed by digits; without the sign the value is non-negative |
| `Numeric.ParseIntToString` | data_loader.py:45-47 | casting an integer field to a string and back to an integer returns the same integer |
| `Numeric.ParseIntLeadingZero` | data_loader.py:47 | leading zeros do not change the value of a literal, with or without a `-`, and `"-0"` is 0; with the previous row this fixes the integer every literal denotes |
| `Numeric.StripCommas` | data_loader.py:46 | no `,` is left, every other character survives, and text without a comma is unchanged |
| `Numeric.StripCommasIsFilter` | data_loader.py:46 | deleting the separators is the order-preserving filter of the characters other than `,`: exactly the positions holding another character survive, in order |
| `Numeric.CastToString` | data_loader.py:45 | the string cast: null stays null, text is kept as it is, and an integer prints without a `,` as a string that casts back to the same integer |
| `Numeric.CleanInt` | data_loader.py:45-47 | null stays null; an integer field comes back unchanged; text yields a value exactly when it is an integer literal once its commas are deleted |
| `Numeric.NormaliseWordCount` | data_loader.py:44-48 | `word_count` is never null after loading: the cleaned integer, or 0 when the cast gives null; an integer field is kept |
| `Numeric.NormaliseTextLen` | data_loader.py:50-53 | `text_len` goes through the same cleaning as `word_count`: text gives the integer its comma-free form spells, or null when that is not an integer literal. An integer is kept, and a null stays null where `word_count` would become 0 |
| `Numeric.WordCountIdempotent` | data_loader.py:45-48 | normalising an already normalised `word_count` changes nothing |
| `Numeric.TextLenIdempotent` | data_loader.py:51-53 | normalising an already normalised `text_len`, null included, changes nothing |
| `Numeric.ThousandsSeparatorExample` | data_loader.py:45-48 | the stored text `"1,234"` loads as 1234 |
| `Numeric.MalformedCountExample` | data_loader.py:45-53 | the stored text `"12,a"` loads as word count 0 and a null `text_len` |
| `Normalise.YearOf` | data_loader.py:55-57 | the derived year is null exactly when `rev_ts` is missing or does not parse; otherwise it is the parsed year |
| `Normalise.NormaliseDoc` | data_loader.py:44-57 | `word_count` is the cleaned integer or 0, `text_len` is the cleaned integer or null, and the year is null exactly when `rev_ts` is missing or does not parse, otherwise its parsed year. Title, text, `rev_ts` and other fields are kept |
| `Normalise.NormaliseIdempotent` | data_loader.py:44-53 | normalising a document whose counts are already normalised returns the same article |
| `Normalise.NormaliseAll` | data_loader.py:44-57 | loading keeps every document: one article per document, in order |
| `YearStats.GroupByYear` | data_loader.py:62 | the per-year table is strictly ascending (null first, so no year is repeated), has counts > 0, covers exactly the articles' years with null as its own group, reports for every year the number of articles of that year, and its counts sum to the row count |
| `YearStats.GroupByYearCounts` | data_loader.py:62 | each row's count is the number of articles with that row's year |
| `YearStats.MaxYear` | data_loader.py:77 | a null-skipping maximum: null exactly when every year is null, otherwise the largest year listed |
| `YearStats.LatestYearAsWritten` | data_loader.py:77 | 0 for an empty table, otherwise the null-skipping maximum, which is NaN (`None`) when every year is null |
| `YearStats.LatestYearNaNWithoutYears` | data_loader.py:77 | for a non-empty collection in which no year is present, the KPI as written is NaN and the corrected one is 0 |
| `YearStats.LatestYear` | data_loader.py:77 | the latest-year KPI is the largest year listed, or 0 when none is listed |
| `YearStats.LatestYearOfArticles` | data_loader.py:62-77 | the latest year bounds every article's year and is the year of some article, or is 0 when no article has a year |
| `TopN.InsertDesc` | data_loader.py:65 | inserting into a non-increasing sequence keeps it non-increasing and adds exactly that entry |
| `TopN.SortDesc` | data_loader.py:65 | the descending sort is a permutation of its input in non-increasing `word_count` order |
| `TopN.Entries` | data_loader.py:64 | `select("title", "word_count")`: one entry per article, in order, holding its title and word count |
| `TopN.Top10` | data_loader.py:64-66 | the top table has min(10, n) entries taken from the articles, in non-increasing order, and every entry left out is no longer than the shortest one kept |
| `TopN.MaxWordCount` | data_loader.py:76 | the largest `word_count` of the table, reached by some entry, or 0 for an empty table |
| `TopN.MaxOfTopIsGlobalMax` | data_loader.py:64-76 | the longest-article KPI taken over the top table bounds every article and is reached by one, or is 0 for an empty collection |
| `Aggregate.SampleText` | data_loader.py:70-73 | without a `text_clean` column the sample is a frame with no columns; otherwise it has at most 100 values, each the text of a sampled row |
| `Aggregate.SampleShape` | data_loader.py:71 | the sample is an order-preserving subsequence of the text column; it holds every sampled row when at most 100 are sampled, and exactly 100 otherwise |
| `Aggregate.WordCounts` | data_loader.py:68 | the distribution column has one value per article, its `word_count` |
| `Aggregate.WithColumn` | data_loader.py:56-57 | adding a column keeps the existing columns in place; a column of the same name is replaced where it stands, otherwise the new one is appended, so the frame grows by exactly one column or not at all |
| `Aggregate.RawColumns` | data_loader.py:55-57 | the display frame has the loaded columns plus `timestamp` and `year`, and no others |
| `Aggregate.RawCell` | data_loader.py:79-84 | a display cell: title and text are the stored strings, `rev_ts` and `timestamp` are printed strings, `word_count`, `text_len` and `year` are the normalised integers, a null field is a null cell, and any other column is the stored field |
| `Aggregate.RawCellOfDoc` | data_loader.py:44-84 | each display cell of a loaded document in terms of the stored document: its title, text and printed `rev_ts`, the cleaned counts, the parsed year and printed timestamp, other fields unchanged |
| `Aggregate.MakeKpi` | data_loader.py:75-77 | `total_docs` is the row count; `max_len` is the largest word count of the top table, reached by one of its entries, or 0 when it is empty; `latest_year` is the largest year listed, reached by a row, or 0 when no year is listed |
| `Aggregate.KpiOfRows` | data_loader.py:75-77 | the KPIs of a collection: every row counted; the longest word count of any row, reached by some row, or 0; the latest year of any row, reached by some row, or 0 when no row has one |
| `Aggregate.Assemble` | data_loader.py:86-97 | the bundle: one display row and one distribution value per document, in order; the per-year table, top table, sample and KPIs are derived from those rows; the display columns are the loaded ones plus `timestamp` and `year` |
| `Aggregate.LoadAndProcess` | data_loader.py:29-36 | no bundle without a compute session and connection secret; otherwise the bundle of the loaded collection |
| `Aggregate.BundleCounts` | data_loader.py:62-75 | `total_docs`, the distribution length and the display row count all equal the document count, and the per-year counts sum to it |
| `Charts.TimeTrend` | visualizer.py:15-26 | no chart for a null or empty table; otherwise one vertical bar per row, year on x and count on y, in table order |
| `Charts.TimeTrendOfArticles` | visualizer.py:15-26 | fed the per-year table, the trend is absent only for an empty collection, its years are strictly ascending and cover exactly the articles' years, and each bar is that year's article count |
| `Charts.TopLongest` | visualizer.py:31-45 | no chart for a null or empty table; otherwise one horizontal bar per row, `word_count` on x and `title` on y, categories ordered by ascending total |
| `Charts.TopLongestOfArticles` | visualizer.py:31-45 | fed the top table, the chart is absent only for an empty collection, has at most ten bars, and its first bar is the longest article |
| `Charts.Distribution` | visualizer.py:51-82 | no chart for a null or empty column, or when nothing remains after filtering. By default exactly the values < 5000 are kept on a linear axis with automatic ticks. With outliers shown every value is kept on a log axis with ticks 1, 10, 100, 1k, 10k. Always 50 bins |
| `Charts.DistributionKeepsBelowCut` | visualizer.py:58-59 | by default the histogram plots exactly the positions whose value is below 5000, in order, and as many values as there are such positions |
| `Charts.DistributionExample` | visualizer.py:58-72 | values 10, 20, 5000, 7000 plot as 10, 20 by default and as all four on a log axis with outliers shown |
| `Charts.JoinSpaced` | visualizer.py:90 | the join of nothing is empty, of one string that string, and otherwise as long as all the parts plus one space between each pair of neighbours |
| `Charts.JoinSpacedCons` | visualizer.py:90 | a join of two or more strings is the first, one space, and the join of the rest, which fixes every character of the text |
| `Charts.JoinEmptyIff` | visualizer.py:90-91 | the joined text is empty exactly when there are no parts or only one empty part |
| `Charts.WordCloudText` | visualizer.py:88-91 | no word cloud for a missing or column-less sample. Otherwise the text is the non-null `text_clean` values, in order, joined by single spaces, and there is none exactly when that text is empty |
| `Seqs.SomesSnoc` | visualizer.py:90 | `dropna`: one more entry adds its value at the end when it is present, and nothing when it is null |
| `Seqs.SomesPositions` | visualizer.py:90 | `dropna` keeps exactly the positions holding a value, in ascending order and each once, so the texts handed to the join are neither reordered nor merged |
| `Search.DefaultColumns` | app.py:78-79 | the default selection holds exactly those of `title`, `year`, `word_count` that the frame has |
| `Search.DefaultColumnsOrdered` | app.py:79 | the default selection keeps the order `title`, `year`, `word_count` |
| `Search.DefaultColumnsOfBundle` | app.py:78-79 | on the display frame of a loaded collection the default selection is all three of `title`, `year`, `word_count` |
| `Search.Occurs` | app.py:85 | the substring test is true exactly when the term occurs at some position of the text |
| `Search.OccursAtLower` | app.py:85 | searching the lower-cased term in the lower-cased text finds exactly the positions where the term matches character by character ignoring case |
| `Search.ContainsIgnoringCase` | app.py:85 | a field contains the term ignoring case exactly when it is not null and the term matches at some position, character by character ignoring case |
| `Search.Matches` | app.py:85-87 | the search mask is set exactly when the title, or the text when the frame has a text column, contains the term ignoring case |
| `Search.SearchRows` | app.py:82-90 | an empty term keeps every row and reports no count. Otherwise a row is kept exactly when its title, or its text when the frame has a text column, contains the term ignoring case. The count reported is the number of rows kept |
| `Search.SearchKeepsMaskedRows` | app.py:85-90 | a search keeps exactly the positions whose mask is set, in their original order, and reports as many results as there are set positions |
| `Search.SearchIsSubsequence` | app.py:82-89 | with or without a term the rows shown are an order-preserving subsequence of the display frame |
| `Search.SearchIgnoresCaseExample` | app.py:85 | a row titled "Paris" is found by the term "pAR" |
| `Search.Display` | app.py:92-100 | an empty column selection shows only a warning. Otherwise the table has exactly the selected columns, in order, and one row of cells per row kept by the search |

## Left out

- Creating the compute session, reading the connection secret and reading the collection (data_loader.py:7-42) are I/O. The model receives the loaded collection, or `None` when session or secret is missing.
- Streamlit caching, session state, widgets, layout and messages (app.py:1-76) are framework plumbing and are not modelled.
- Figure styling, chart titles, colours, text positions and `update_chart_layout` (visualizer.py:5-12) are presentation and are not modelled. The charts are reduced to the data they select.
- Word-cloud layout and rasterisation (visualizer.py:93-101) is an external algorithm. The model stops at the text handed to it.
- Charts.TopLongest: the category order is stated as "ascending by total" and not computed. The plotting library also merges bars whose titles are equal into one category.
- Numeric.ParseInt: accepts only an optional `-` followed by digits. Surrounding whitespace, a `+` sign, decimals and 32-bit overflow, which the real cast treats differently, are not modelled.
- Normalise.YearOf: timestamp parsing is abstract. Each stored `rev_ts` carries its parse outcome, and its printed form for the display frame.
- Aggregate.SampleText: the sampling rate (about 10%) is not modelled. The coin flips are an arbitrary parameter. Of the sampled rows, the first 100 in row order are kept, whereas the real limit takes whichever 100 come first from the engine.
- TopN.Top10: ties are broken by input order (a stable sort). The real engine leaves the order of equal word counts unspecified.
- Search.Matches: the term is matched as a literal substring, which is faithful only for terms without regular-expression metacharacters. A null field never matches, whereas converting a column to strings turns nulls into "None" or "nan", which a term could match.
- Search.Lower: case folding covers ASCII letters only. Other letters, including Vietnamese ones, are compared as they are.
- Records.WellFormed: a collection without a `title`, `word_count` or `rev_ts` column makes the loader raise, and it is excluded by precondition instead of being modelled as an error. It also requires that no other stored field is named like a named or derived column (`FieldColumns`), since the model keeps those fields apart.
- Aggregate.MakeKpi: `latest_year` is the corrected KPI (`YearStats.LatestYear`), 0 when no row has a year, where the program yields NaN (see Findings).
- Aggregate.KpiOfRows: states the corrected `latest_year`, 0 for a non-empty collection without years, where the program yields NaN.
- Aggregate.Assemble: the bundle carries the corrected `latest_year`; the program's NaN for a collection without years is modelled only by `YearStats.LatestYearAsWritten`.
- Aggregate.LoadAndProcess: returns the bundle of `Aggregate.Assemble`, so it too carries the corrected `latest_year`.
- KPI numbers are plain integers. The floating-point representation a year column gets once it holds nulls is modelled only for the all-null case (see Findings).
- The heatmap, violin/outlier table, slice loader and day-of-week mapping do not appear in the modelled files.

## Findings

| source | as written | input that shows it | evidently intended | confidence | as-written member | corrected member |
|---|---|---|---|---|---|---|
| data_loader.py:77 | The latest year is the null-skipping `max()` of the year column whenever the per-year table is non-empty. When every year is null, the table's only row is the null group and the maximum is NaN. app.py:31 then applies `int()` to it, which fails | a non-empty collection in which no `rev_ts` is present or parses; `YearStats.LatestYearNaNWithoutYears` shows the KPI is NaN | the KPI is 0 when no year is present, as it already is for an empty table | not executed; medium | `YearStats.LatestYearAsWritten` | `YearStats.LatestYear` |
