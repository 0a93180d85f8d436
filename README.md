# Survey-analysis core of the course dashboard, in Dafny

The dashboard (`app.py`) loads a survey of research-methods courses at Chinese
universities. Each row is one course. It normalises the table, then builds the
figures the dashboard shows from the filtered rows. This project models:

- **`preprocess_data`** (`app.py:82-176`), the normaliser. It applies these steps, in order:
  - numeric columns 学分 / 学时 / 课堂规模: coerced to numbers, with missing values filled by the column median, or 0 when the column has no numbers;
  - the grading-weight text 平时/期末权重 (`"40/60"`): parsed into the columns 平时权重 / 期末权重, with `(50, 50)` as the fallback;
  - four yes/no flag columns: mapped to `是` / `否`;
  - four free-text columns: missing cells and the placeholders `"0"` and `"无"` become `未提供`;
  - two categorical columns: empty cells become `未知`;
  - the class-hour tier column 学时分层.
- **The sidebar filter chain** (`app.py:316-322`): by university, by an inclusive class-hour range, and by teaching mode.
- **`analyze_software_tools`** (`app.py:200-227`): the comma / `、` tokeniser of the tool column, the 20 most frequent tools, and their lab status (机房已有 / 需补充).
- **`analyze_teaching_methods`** (`app.py:230-254`): the adoption percentage of four teaching practices.
- **The distinct-tool count** of the software-practice courses (`app.py:491-508`).
- **The assessment-method counter** (`app.py:555-562`).

A table is modelled column by column, the way the normaliser reassigns whole
columns: `Frames.Frame(n, cols: map<string, seq<Cell>>)`. A cell is `Missing`
(NaN/None), `Num(real)` or `Str(string)`. The filter chain reads the table as a
sequence of rows (`Frames.Rows`) and rebuilds it from the kept rows.

Modules:

| module | holds |
|---|---|
| `Wrappers` | `Option` |
| `Strings` | Python `strip`, `split`, ASCII `lower`, substring search |
| `Numerals` | integer and decimal text |
| `Stats` | sorting and the median |
| `Frames` | the table |
| `Cleaning` | the normaliser, as specification functions and the imperative `Preprocess` method |
| `CleaningFacts` | properties of the normalised table |
| `Filters` | the filter chain |
| `Tally` | `collections.Counter.most_common` |
| `Tools` | the tool table, the distinct-tool count and the assessment counter |
| `Adoption` | the teaching-practice ratios |

In these cases the code does something other than its own labels (the tier labels at
`app.py:172`) or a reader of the page would expect (case-insensitive yes/no answers, a tier for
every course, an empty selection showing no course). The model follows the code:

- **Flag values are matched case-sensitively.** The mapping at `app.py:141-144` is exact-case on the stripped text, so `"YES"` and `"是的"` become `否`.
- **The tiers are the half-open bins of `pd.cut(..., right=False)`:** `[0, 32)`, `[32, 48)` and `[48, 100)`. Hours ≥ 100 or < 0 get no tier. So 32 hours falls in `中学时(33-48)`, although the label of the first tier reads `≤32`.
- **An empty selection disables its filter** (`if selected_unis:`); it does not select nothing.
- **The distinct-tool count does not drop missing cells** (`tolist()` at `app.py:499`). A missing cell is read as the token `"nan"`; the tool table (`dropna()` at `app.py:203`) reads it as nothing. On the dashboard this cannot show: `preprocess_data` has already filled every missing 软件工具 cell with 未提供 (`app.py:154-157`), which both counts skip. The difference only matters for a table that has not been cleaned.
- **The assessment counter tests its sentinels before stripping.** A cell of spaces yields the empty item `""`.

## Model

| member | source | states |
|---|---|---|
| Cleaning.ToNumber | app.py:91 | a cell as `to_numeric(errors='coerce')` reads it: a missing cell is NaN, a number is itself, and a string is `ParseNumber` of its text (no contract of its own; see `ParseNumber`'s lemmas) |
| Numerals.ParseNumber | app.py:91 | the numeric text pandas reads: ASCII white space around an optional sign and a decimal numeral (no contract of its own; `ParseNumberText` and `ParseNumberAsciiOnly` state its properties) |
| Numerals.ParseNumberAsciiOnly | app.py:91 | only ASCII white space is skipped: `"32 "` is 32, but a full-width or no-break space next to the digits makes the cell NaN |
| Cleaning.NumbersOf | app.py:91 | the numbers `to_numeric` reads from a column; there are none exactly when no cell parses; at most one per cell |
| Cleaning.NumbersOfOne | app.py:91 | a single cell contributes its number when it parses, and nothing otherwise |
| Cleaning.NumbersOfAppend | app.py:91-93 | the numbers of stacked columns are those of the first followed by those of the second, so with NumbersOfOne they are the parsed values in row order |
| Cleaning.NumbersOfCons | app.py:91 | a cell on top of a column contributes its number, when it parses, ahead of the numbers of the rest |
| Cleaning.NumbersOfMembers | app.py:91-93 | a value is among the numbers exactly when some cell of the column parses to it |
| Stats.Median | app.py:93 | `Series.median()`: the middle of the sorted values, or the mean of the two middle ones (no contract of its own; `MedianHalves` and `MedianOfPermutation` state its properties) |
| Cleaning.FillValue | app.py:93 | the fill value is 0 for a column without numbers, else a median: at least half the numbers are ≤ it and at least half are ≥ it |
| Cleaning.FillNumeric | app.py:87-94 | a cleaned numeric column keeps its length, holds only numbers, keeps every parsed value, and puts the fill value in every other cell |
| Stats.MedianHalves | app.py:93 | `Median` splits its data into two halves: ≤ it and ≥ it each cover at least half the values |
| Stats.MedianOfPermutation | app.py:93 | the median depends only on the multiset of values, not their order |
| Stats.Sort | app.py:93 | the sort the median uses returns a sorted permutation of its input |
| Stats.SortedUnique | app.py:93 | two sorted permutations of the same multiset are equal, so the median is well defined |
| Numerals.ParseInt | app.py:109-110 | `int(...)` of a stripped side succeeds exactly on an optional sign followed by one or more ASCII digits |
| Numerals.ParseIntText | app.py:109-110 | the decimal text of every integer parses back to that integer |
| Numerals.ParseNumberText | app.py:91 | the decimal text of every integer is read by `to_numeric` as that number |
| Numerals.NatText | app.py:109-110 | the decimal text of a natural number is a non-empty digit string whose value is that number |
| Cleaning.ParseWeight | app.py:99-132 | a weight text is read as two integers only if it is a non-sentinel string with exactly one `/`; its outcome, the datatype `WeightParse`, is `Parsed(usual, final)` after the `/` split of `app.py:105-111` or `Defaulted` for every fallback |
| Cleaning.WeightSides | app.py:99-124 | a text `a/b` gives `(int(a.strip()), int(b.strip()))` when both sides parse, else `(50, 50)` |
| Cleaning.WeightRoundTrip | app.py:104-113 | writing any two integers as `u/f`, padded with whitespace anywhere around the numbers, reads back as `(u, f)` |
| Cleaning.WeightNeedsOneSlash | app.py:105-132 | a text without exactly one `/` always yields `(50, 50)` |
| CleaningFacts.WeightOfDigits | app.py:104-130 | two digit strings around a `/` yield their values, also the case of the `isdigit` branch |
| CleaningFacts.WeightOfBadSide | app.py:108-113 | a left side that is not an integer yields `(50, 50)` |
| CleaningFacts.WeightExample4060 | app.py:104 | `"40/60"` yields `(40, 60)` |
| CleaningFacts.WeightExample6040 | app.py:126 | `"60/40"` yields `(60, 40)` |
| CleaningFacts.WeightExamplePadded | app.py:109-110 | `" 20 / 80 "` yields `(20, 80)` |
| CleaningFacts.WeightExampleNotInt | app.py:112-113 | `"abc/60"` yields `(50, 50)` |
| CleaningFacts.WeightExampleThreeParts | app.py:107 | `"40/60/0"` yields `(50, 50)` |
| CleaningFacts.WeightExampleSentinels | app.py:99-100 | `"0"`, `"无"`, `""`, `" "` and a missing cell yield `(50, 50)` |
| Cleaning.WeightPair | app.py:97-132 | the pair `extract_weight_from_text` returns: the parsed pair, or `(50, 50)` (no contract of its own; `WeightSides`, `WeightRoundTrip` and `WeightNeedsOneSlash` state its properties) |
| CleaningFacts.PreprocessedWeights | app.py:134-137 | each row's 平时权重 / 期末权重 is the pair read from its weight text |
| Cleaning.UsualColumn | app.py:136 | 平时权重 holds, row by row, the first number of the pair read from the weight text |
| Cleaning.FinalColumn | app.py:137 | 期末权重 holds, row by row, the second number of the pair |
| Cleaning.NormalizeFlag | app.py:141-151 | a flag cell becomes 是 exactly when it is a string whose stripped text is one of `是`, `有`, `yes`, `Yes`; everything else, missing cells included, becomes 否 |
| Cleaning.FlagColumn | app.py:146-151 | a cleaned flag column keeps its length and holds the label of each cell's flag |
| Cleaning.FlagLabelFixed | app.py:141-144 | the labels 是 and 否 map to themselves |
| CleaningFacts.FlagYesExamples | app.py:142 | `"有"` and `" yes "` become 是 |
| CleaningFacts.FlagNoExamples | app.py:141-150 | `"YES"`, `"maybe"`, `""` and a missing cell become 否 |
| Cleaning.FillText | app.py:157-159 | a free-text cell that is missing, `"0"` or `"无"` becomes 未提供; every other cell is kept; the result is never one of the three |
| Cleaning.MapText | app.py:154-159 | a cleaned free-text column is the cell-wise fill of the input column |
| Cleaning.FillUnknown | app.py:165 | a missing categorical cell becomes 未知 and any other cell is kept |
| Cleaning.MapUnknown | app.py:162-165 | a cleaned categorical column is the cell-wise fill of the input column |
| Cleaning.TierOf | app.py:169-174 | the tier is Short exactly on `[0, 32)`, Medium on `[32, 48)` and Long on `[48, 100)`, and there is no tier outside `[0, 100)` |
| Cleaning.TierMonotone | app.py:171 | more class hours never give a lower tier |
| Cleaning.TierCell | app.py:169-174 | the tier label of a cleaned hours cell, NaN where no bin applies (no contract of its own; `TierOf` states the bins) |
| Cleaning.TierColumn | app.py:168-174 | the tier column has one cell per row, the tier label of that row's hours |
| CleaningFacts.TierExamples | app.py:171-173 | 31 → short, 32 → medium, 47.5 → medium, 48 → long, 99 → long, and 100 or −1 → no tier |
| Cleaning.CleanCells | app.py:87-165 | the rule for one named column keeps the column's length |
| Cleaning.CleanCellsRule | app.py:87-165 | each group of cleaned names gets its own rule: numeric, flag, free text or categorical |
| Cleaning.CleanCellsOther | app.py:84 | a column in no group is copied unchanged |
| Cleaning.CleanedColsDistinct | app.py:87-162 | the cleaned names are distinct and never the weight, weight-text or tier columns |
| Cleaning.GroupOffsets | app.py:87-162 | the position of each group in the order the steps run |
| Cleaning.CleanColumn | app.py:82-176 | every output column has one cell per input row |
| Cleaning.Preprocessed | app.py:82-176 | the normalised table is well formed, has the input's row count, and its columns are the input's plus 平时权重, 期末权重, and 学时分层 when 学时 is present |
| Cleaning.Preprocess | app.py:82-176 | the step-by-step normaliser, a loop per group of columns, returns exactly the normalised table |
| Cleaning.CleanNumbers | app.py:87-94 | the numeric step rewrites each present numeric column and nothing else |
| Cleaning.CleanFlags | app.py:146-151 | the flag step rewrites each present flag column and nothing else |
| Cleaning.CleanTexts | app.py:155-159 | the free-text step rewrites each present free-text column and nothing else |
| Cleaning.CleanCategories | app.py:163-165 | the categorical step rewrites each present categorical column and nothing else |
| Cleaning.StageStep | app.py:88-165 | cleaning the next name, when present, advances the loop invariant by one column |
| Cleaning.StageWeights | app.py:134-137 | adding the two weight columns after the numeric step keeps the invariant |
| Cleaning.FinishStage | app.py:168-176 | after the last group, adding the tier column when hours exist gives the normalised table |
| Cleaning.FinishKeys | app.py:168-176 | after the tier step the table has the input's row count and the output columns |
| Cleaning.FinalColumnOf | app.py:82-176 | after the tier step every output column holds its cleaned content |
| Cleaning.PreprocessedByColumns | app.py:82-176 | a table with the output columns, each holding its cleaned content, is the normalised table |
| CleaningFacts.OutputColumn | app.py:84-165 | every input column other than the added ones comes out cleaned by its own rule |
| CleaningFacts.PreprocessedCanonical | app.py:82-176 | the normalised table is canonical: numbers only, flags only 是/否, no empty text, no missing category, whole-number weights |
| CleaningFacts.CanonicalNumbers | app.py:87-94 | after cleaning, every present numeric column holds only numbers |
| CleaningFacts.CanonicalFlags | app.py:146-151 | after cleaning, every present flag column holds only 是 or 否 |
| CleaningFacts.CanonicalTexts | app.py:154-159 | after cleaning, no free-text cell is missing, `"0"` or `"无"` |
| CleaningFacts.CanonicalCategories | app.py:162-165 | after cleaning, no categorical cell is missing |
| CleaningFacts.PreprocessedTier | app.py:168-174 | the tier column exists exactly when 学时 exists (or was already present); with 学时 it is the tier of the cleaned hours, row by row |
| CleaningFacts.FillNumericIdempotent | app.py:87-94 | cleaning a cleaned numeric column changes nothing |
| CleaningFacts.FlagColumnIdempotent | app.py:146-151 | normalising normalised flags changes nothing |
| CleaningFacts.CleanCellsIdempotent | app.py:87-165 | every per-column rule is idempotent |
| CleaningFacts.PreprocessedKeys | app.py:82-176 | the normalised table can be normalised again, has the same output columns, and keeps the weight text |
| CleaningFacts.IdempotentColumn | app.py:82-176 | each column of the normalised table is unchanged by a second normalisation |
| CleaningFacts.PreprocessIdempotent | app.py:82-176 | normalising twice equals normalising once |
| Filters.Keep | app.py:317-322 | the kept rows are no more than the input, and each is an input row passing every mask |
| Filters.KeepMembers | app.py:317-322 | a row is kept exactly when it is an input row passing every mask |
| Filters.KeepSubsequence | app.py:317-322 | boolean masking keeps the surviving rows in their original order |
| Filters.KeepCount | app.py:317-322 | each row of the input that passes the masks is kept as many times as it occurs, and a row that fails is kept no time |
| Filters.KeepThen | app.py:317-322 | masking the kept rows by one more criterion equals keeping by all criteria at once |
| Filters.KeepIdempotent | app.py:317-322 | masking kept rows by the same criteria changes nothing |
| Filters.KeepNone | app.py:316 | with no mask, every row is kept |
| Filters.Where | app.py:317-322 | the masked table is well formed, keeps every column, and has no more rows |
| Filters.WhereRows | app.py:317-322 | the rows of the masked table are the kept rows |
| Filters.WhereThen | app.py:317-322 | applying masks one after another equals applying them all at once |
| Filters.WhereNone | app.py:316 | `df.copy()` with no mask is the table itself |
| Filters.Matches | app.py:316-322 | a row survives a chain of masks when it holds every one of them, as after the successive reassignments of `filtered_df` (no contract of its own; `KeepMembers`, `KeepCount` and `ActiveMeaning` state it) |
| Filters.Holds | app.py:317-322 | one mask on one row: `isin` of the selection, or the inclusive range that a missing value never passes (no contract of its own; `ActiveMeaning` states what the masks admit) |
| Filters.Active | app.py:316-322 | the masks in force: university when some is selected, hours when 学时 exists, and mode when it exists and some is selected (no contract of its own; `ActiveMeaning` states it) |
| Filters.Mask | app.py:317-322 | one guarded `df = df[mask]` step extends the applied criteria by that mask when its guard holds |
| Filters.ApplyFilters | app.py:316-322 | the filter chain returns the table masked by exactly the active criteria |
| Filters.ActiveMeaning | app.py:316-322 | a row passes the active masks exactly when its university is selected (or none is), its hours lie in `[lo, hi]` (when 学时 exists), and its mode is selected (or none is, or there is no mode column) |
| Filters.ApplyFiltersMeaning | app.py:316-322 | the filtered table keeps every column and exactly the admitted input rows, in their original order |
| Filters.ApplyFiltersIdempotent | app.py:316-322 | filtering the filtered table again with the same selections changes nothing |
| Filters.NoSelectionNoFilter | app.py:316-322 | with nothing selected and no 学时 column the table passes unchanged |
| Tools.Kept | app.py:208-210 | the kept pieces are stripped, non-empty and not `无`, and no more than the input pieces |
| Tools.KeepToken | app.py:209-210 | `if clean_tool and clean_tool != '无'`: a stripped piece is counted when it is not empty and not `无` (no contract of its own; `Kept` and `TextTokensNone` state it) |
| Tools.Token | app.py:205-210 | the shape of every counted token: kept, stripped, and free of `,` and `、` (no contract of its own; `TextTokensShape` and `ColumnTokensShape` prove every token has it) |
| Tools.CellTokens | app.py:202-204 | a missing cell (`dropna()`) and a `未提供` cell give no token; any other cell gives the tokens of its text (no contract of its own; `ColumnTokens` and `CollectTools` use it) |
| Tools.TextTokens | app.py:206-210 | the tokens of one tool cell: split on `,`, then on `、`, each piece stripped, empty and `无` pieces dropped (no contract of its own; the shape and composition lemmas below state it) |
| Tools.ColumnTokens | app.py:203-210 | the tokens of the tool column: no missing cell, no 未提供 cell, the tokens of every other cell in row order (no contract of its own; `CollectTools` and `ColumnTokensShape` state it) |
| Tools.TextTokensShape | app.py:206-210 | every token of a cell is stripped, non-empty, not `无`, and contains no `,` or `、` |
| Tools.ColumnTokensShape | app.py:203-210 | every token collected from the tool column has that shape |
| Tools.TextTokensComma | app.py:206 | the tokens of `a,b` are the tokens of `a` followed by those of `b` |
| Tools.TextTokensSubSep | app.py:207 | the tokens of `a、b` are the tokens of `a` followed by those of `b` |
| Tools.SingleToken | app.py:206-210 | a well-formed tool name padded with whitespace yields exactly that one token |
| Tools.TextTokensNone | app.py:209 | the cell `无` yields no token |
| Tools.TextTokensBlank | app.py:209 | the cell `" , "` yields no token |
| Tools.AppendKept | app.py:207-210 | the inner loop appends exactly the kept pieces of one comma piece |
| Tools.AppendPieces | app.py:206-210 | the middle loop appends exactly the tokens of every comma piece |
| Tools.CollectTools | app.py:202-210 | the collecting loop returns exactly the tokens of the column: no missing cell, no 未提供 cell |
| Tools.OnLab | app.py:222-224 | some lab tool, lower-cased, is a substring of the lower-cased name (no contract of its own; `StatusOfContaining` and `StatusIgnoresCase` state it) |
| Tools.StatusOf | app.py:223-225 | 机房已有 for a name on the lab, else 需补充 (no contract of its own; see `StatusOfContaining`, `StatusExamples`) |
| Tools.StatusIgnoresCase | app.py:224 | the lab status compares lower-cased text, so lower-casing a tool name does not change it |
| Tools.StatusOfContaining | app.py:222-224 | a tool name containing SPSS, Stata or Excel, spelled in any mixture of upper and lower case, is 机房已有 |
| Tools.StatusExamples | app.py:222-224 | `spss26` and `EXCEL` are 机房已有 and `R` is 需补充 |
| Tools.ToolTable | app.py:212-225 | the table built from the tokens has one row per `most_common(20)` entry, with that entry's tool, count and lab status (properties in `ToolTableFacts`) |
| Tools.AnalyzeSoftwareTools | app.py:200-227 | the tool table is the tagged top 20 of the column's tokens, and empty when there is no token |
| Tools.ToolTableFacts | app.py:212-219 | the tool table holds at most 20 distinct tokens with their exact counts, in non-increasing count order, ties in first-occurrence order; it is empty exactly when there is no token |
| Tools.ToolTableMaximal | app.py:216-217 | a token left out of the tool table occurs no more often than any listed tool |
| Tools.ToolCountsTotal | app.py:216 | the counter's counts add up to the number of tokens |
| Tally.FirstSeen | app.py:216 | the distinct values of a sequence, each once, in first-occurrence order |
| Tally.FirstSeenOrder | app.py:216 | the distinct values come in order of their first occurrence |
| Tally.DistinctCount | app.py:507-508 | the size of the set of values is the number of distinct values |
| Tally.Counts | app.py:216 | `Counter(s)`: one entry per distinct value, in first-seen order (entry i names `FirstSeen(s)[i]`, which is proved distinct and complete), each with its exact count |
| Tally.TotalCounts | app.py:216 | the counts of all distinct values add up to the length of the sequence |
| Tally.MostCommon | app.py:217 | each entry is a value of the sequence with its exact count |
| Tally.MostCommonLength | app.py:217 | `most_common(n)` has `min(n, number of distinct values)` entries |
| Tally.MostCommonEntries | app.py:217 | entries are distinct, counts never increase, and equal counts keep first-occurrence order |
| Tally.MostCommonInOrder | app.py:217 | the entries satisfy the order `Counter` uses, by count and then by first occurrence |
| Tally.MostCommonMaximal | app.py:217 | a value left out occurs no more often than any listed one, and on a tie it first occurs later |
| Tally.MostCommonAll | app.py:217 | with `n` at least the number of distinct values, the entries are a permutation of all the counts |
| Tally.InsertByCount | app.py:217 | the insertion step of the stable sort: the entry is added to the list, nothing else changes (a permutation of the list plus the entry) |
| Tally.SortByCount | app.py:217 | the stable sort by count, descending, behind `most_common`: a permutation of the entries (`SortedCounts` proves it sorted, `MostCommonEntries` that ties keep first-seen order) |
| Tally.SortedCounts | app.py:217 | sorting the counts gives a permutation in that order |
| Tools.SoftwareCourseTools | app.py:491 | the tool cells of the software-practice courses are a selection of the column's cells and stay text cells |
| Tools.KeepSoftwareTools | app.py:491 | masking rows by `是否有软件实操 == '是'` and reading the tool column gives exactly the tool cells of the flagged rows, in row order |
| Tools.SoftwareCoursesMask | app.py:491-499 | the 软件工具 column of `filtered_df[filtered_df['是否有软件实操'] == '是']` is `SoftwareCourseTools` of the flag and tool columns |
| Tools.AddKept | app.py:504-507 | the inner loop adds exactly the kept pieces to the set |
| Tools.AddPieces | app.py:503-507 | the middle loop adds exactly the tokens of every comma piece to the set |
| Tools.ListCellTokens | app.py:499-506 | the tokens one cell gives the distinct-tool count: a missing cell is read as `"nan"`, a `未提供` cell gives none, any other cell the tokens of its text (no contract of its own; `MissingIsNan` and `DistinctToolsSameTokens` state it) |
| Tools.ListTokens | app.py:499-506 | the tokens of the tool column of the software courses, cell after cell, with no `dropna()` (no contract of its own; `DistinctTools`, `MissingIsNan` and `DistinctToolsSameTokens` state it) |
| Tools.DistinctTools | app.py:499-508 | the distinct-tool count is the number of distinct tokens, where a missing cell reads as `"nan"` |
| Tools.DistinctToolsSameTokens | app.py:499-508 | without missing cells the count sees the tokens of the tool table, and it equals their number of distinct values |
| Tools.MissingIsNan | app.py:499-505 | a missing cell gives the one token `"nan"` |
| Tools.AssessmentList | app.py:555-558 | the assessment items are at most one per cell, each stripped |
| Tools.AssessmentListOne | app.py:556-558 | one cell gives its stripped text when it is a string other than 未提供, 无 and `""`, and nothing when it is missing or one of them |
| Tools.AssessmentListAppend | app.py:556-558 | the items of stacked columns are the items of the first followed by those of the second, so with AssessmentListOne they are the kept cells' stripped texts in row order |
| Tools.AssessmentItems | app.py:555-558 | the collecting loop returns exactly the assessment items |
| Tools.AssessmentListAll | app.py:556-558 | without missing cells and sentinels, each cell gives one item, its stripped text, in row order |
| Tools.AssessmentBlank | app.py:557-558 | a cell of spaces is not a sentinel, so it gives the empty item |
| Tools.AssessmentTable | app.py:560-561 | `Counter(items).most_common(10)` of the assessment items (properties in `AssessmentTableFacts`) |
| Tools.AssessmentTableFacts | app.py:560-561 | the assessment table holds at most ten distinct items with their exact counts, in non-increasing count order |
| Adoption.Column | app.py:235-250 | each practice reads the flag column of the normaliser's flag group at its own position |
| Adoption.CountYes | app.py:236 | the number of `是` cells is at most the column's length |
| Adoption.CountYesAll | app.py:236 | every cell is `是` exactly when all cells are counted |
| Adoption.CountYesNone | app.py:236 | no cell is `是` exactly when none is counted |
| Adoption.Ratio | app.py:236 | `(col == '是').mean() * 100` is undefined exactly for an empty column; otherwise it lies in `[0, 100]` and times the length equals 100 times the `是` count |
| Adoption.RatioExtremes | app.py:236 | the ratio is 100 exactly when every course adopts the practice and 0 exactly when none does |
| Adoption.Label | app.py:237-252 | the 方法 name of each practice: 翻转课堂, 软件实操, 开题报告, 课程答辩 (no contract of its own) |
| Adoption.RowsFor | app.py:235-252 | one row per practice of the list whose flag column is present, in the list's order (no contract of its own; `RowsForFacts`, `RowsForIn` and `RowsForOrder` state it) |
| Adoption.RowOf | app.py:235-237 | the row of one practice: present exactly when its flag column is, with that column's ratio (no contract of its own; `RowsForFacts` states it) |
| Adoption.MethodTable | app.py:230-254 | the rows for the four practices in the fixed order (no contract of its own; `MethodTableFacts` states its properties) |
| Adoption.AddRow | app.py:235-237 | one guarded append adds the practice's row exactly when its column exists |
| Adoption.AnalyzeTeachingMethods | app.py:230-254 | the four guarded appends return the method table |
| Adoption.MethodTableParts | app.py:232-252 | the method table is the four single-practice rows in the fixed order |
| Adoption.RowsForFacts | app.py:235-252 | each row is for a listed practice whose column exists and carries that column's ratio, and every such practice has a row |
| Adoption.RowsForIn | app.py:235-252 | every row is for a listed practice |
| Adoption.RowsForOrder | app.py:235-252 | rows keep the order of the practices |
| Adoption.MethodTableFacts | app.py:230-254 | the table lists exactly the practices whose column exists, in the fixed order 翻转课堂, 软件实操, 开题报告, 课程答辩, each with its column's ratio, which is undefined exactly when the table has no rows |
| Strings.Trim | app.py:208 | Python's `str.strip()` over the full `str.isspace()` set (no contract of its own; `TrimIsTrimmed`, `TrimIdempotent`, `TrimPadded` state it) |
| Strings.Lower | app.py:224 | `str.lower()` on ASCII letters (no contract of its own; `LowerIdempotent` and `SubstringLower` state it) |
| Strings.IsSubstring | app.py:224 | Python's `a in b` on strings: some contiguous slice of `b` equals `a` |
| Strings.TrimIsTrimmed | app.py:208 | `strip()` leaves no leading or trailing whitespace |
| Strings.TrimIdempotent | app.py:208 | stripping twice equals stripping once |
| Strings.TrimPadded | app.py:109-110 | stripping a whitespace-padded stripped text returns it |
| Strings.Split | app.py:106 | `split(sep)` gives one more part than there are separators; no part contains the separator; joining the parts gives the text back |
| Strings.SplitJoin | app.py:106 | splitting the join of separator-free parts gives the parts back |
| Strings.SplitConcat | app.py:206 | splitting `a + sep + b` is splitting `a` followed by splitting `b` |
| Strings.SubstringLower | app.py:224 | lower-casing keeps a substring a substring |
| Frames.Rows | app.py:317-322 | the row view has one row per table row, each with every column |
| Frames.FromRows | app.py:317-322 | rebuilding a table from rows gives their count and the given columns |
| Frames.ColumnOf | app.py:491-499 | a column read off a sequence of rows: one cell per row, the row's cell in that column |
| Frames.ColumnOfSnoc | app.py:491-499 | one more row adds its cell at the bottom of the column |
| Frames.ColumnOfRows | app.py:491-499 | reading a column off a table's rows gives that column |
| Frames.ColumnOfFromRows | app.py:491-499 | a column of the table rebuilt from rows is that column read off the rows |
| Frames.RowsOfFromRows | app.py:317-322 | rebuilding a table from rows and reading its rows gives them back |
| Frames.FromRowsOfRows | app.py:317-322 | reading a table's rows and rebuilding from them gives the table back |

## Left out

- The Streamlit page, Plotly charts, CSS and the search box are presentation and are not modelled. This includes `st.metric` values with their `:.1f` formatting, and the CSV download with its timestamped file name (a clock).
- `load_data` is not part of this model. It covers the Excel read, the `str.strip()` of the column names at `app.py:188`, and the empty table it returns on an exception; the normaliser starts from an already loaded table.
- Floating point is not modelled: cells hold exact reals, so the median, the mean and the percentages are exact.
- Numerals.ParseNumber: `pd.to_numeric` is modelled on ASCII white space, an optional sign, ASCII digits and an optional fraction only. Exponents, `inf`/`nan` spellings, thousands separators and non-ASCII digits read as not a number here. Like pandas, it skips only ASCII white space (`ParseNumberAsciiOnly`).
- Numerals.ParseInt: Python's `int()` also accepts `_` between digits and non-ASCII decimal digits; the model accepts ASCII digits only.
- Cleaning.ParseWeight: the third, `isdigit` branch (`app.py:127-130`) is modelled only where it agrees with the first. For ASCII digits it can never be reached with a different outcome. The Unicode digits for which `isdigit` holds but `int` fails (where the source raises an uncaught error) are not modelled.
- Cleaning.ParseWeight: a weight cell holding a number (`Num`) yields `(50, 50)`. Its `str()` never contains `/`.
- Cleaning.Ready: the missing weight-text column raises `KeyError` at `app.py:135`; the model requires that column instead.
- Cleaning.NormalizeFlag: a number in a flag column becomes 否, since its `str()` is never one of the `是` spellings. The exact `str()` of a float is not modelled.
- Tools.CollectTools: the tool and assessment columns must hold text or missing cells (`TextCells`). The source would tokenise `str()` of a number, or crash on `.strip()` of one in the assessment counter; both are left out.
- Tools.AnalyzeSoftwareTools: a missing 软件工具 column raises `KeyError` at `app.py:203`; the model requires the column. The result's DataFrame shape (column names 软件工具 / 使用课程数 / 状态) is modelled as a sequence of rows.
- Filters.ApplyFilters: the 学时 comparison is required to see no strings (`Comparable`), because pandas raises `TypeError` comparing text with numbers. The universities are required to exist, as `app.py:290` reads that column unconditionally. The slider that produces the range (`app.py:298-303`) is an input.
- Tools.DistinctTools: the average hours and the flipped-classroom ratio of the software-practice courses (`app.py:495-497`, `app.py:509-511`) are figures for display and are not modelled beyond the course selection `SoftwareCourseTools`.
- Adoption.AnalyzeTeachingMethods: the NaN ratio of an empty table is `None`; the DataFrame's column names (方法 / 实施比例(%)) are not modelled.
