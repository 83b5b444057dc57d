# Data Cleaner Pro: the brand record normaliser, in Dafny

This project models `DataCleaner`, the per-brand record normaliser, and
`detect_brand_from_filename`, the function that reads a brand code off a
file name. It then proves properties of both.

`DataCleaner` takes a product table and named reference tables. It:

1. upper-cases the brand code;
2. rejects an unknown brand, then an input without `ItemName`, `ItemCode` and `Empresa`;
3. picks the brand's reference table by a case-insensitive substring match on the brand's display name;
4. hands the table to that brand's routine.

Each routine splits the item name into positional fields and derives gender, category, segment or league by first-match rules. It cleans descriptions and left-joins the rows against the reference table, deduplicated on its key, filling null cells from it (Cole Haan instead replaces three columns outright). Last, it projects the result onto the brand's columns.

## How the model is built

- **tables** (`frame.dfy`): a table is a `datatype Table(columns, rows)`. A row is a `map` from labels to cells, and a cell is `Option<string>`, where `None` is pandas' NaN. `WellFormed` requires distinct labels and rows whose keys are exactly the labels.
- **pandas operations** (`frame.dfy`): column assignment, `reindex`, `df[cols]`, boolean-mask selection, `concat`, `drop_duplicates`, `merge(how='left')` and `fillna`. Each is a function whose contract says what it produces. `merge` is a full left join: one output row per matching right row. So the dedup-then-join row count is a theorem, not an assumption.
- **string operations** (`text.dfy`): Python's `split`, `split(n=...)`, `join`, `strip`, `upper`/`lower`, the `\s+` collapse and the `americana\s*\d+(?:\.\d+)?` strip, as recursive functions with lemmas about them.
- **enrichment** (`enrich.dfy`): the shared merge-then-fill pattern. The `for col in …: fillna(col_ref); drop(col_ref)` loop is the method `FillFromSuffix`, with a `while` loop. Key coercion (`astype(str)`, `.str.strip()`) and deduplication are modelled in both orders.
- **derivation rules** (`rules.dfy`): the per-brand rules, including the Cole Haan and Columbia `np.select` rules and the team→league table.
- **brand routines**: one module per routine (`cole_haan.dfy`, `columbia.dfy`, `skechers.dfy`, `new_era.dfy`, `fabletics.dfy`, `psycho_bunny.dfy`, `generic.dfy`). Each is a `method` that assigns columns step by step, as the source does. Each is proved against a specification predicate stated per row (`Cleaned`). New Era's masked copy (`df.loc[mask, col] = …`) and its `iterrows` league pass are `while` loops.
- **dispatch** (`cleaner.dfy`): the constructor, the reference lookup (a loop proved against its specification function) and the dispatch.
- **file names** (`file_brand.dfy`): the detection from a file name.

Four behaviours of the code worth noting:

- Cole Haan, Skechers, New Era and Psycho Bunny return the input unchanged when no reference table is found. They derive nothing, not even the style.
- Cole Haan replaces `U_Segmentacion_SK`, `U_Zone` and `U_Descrip_Color` with the reference values instead of filling them; it drops them before the merge.
- Cole Haan and the generic routine join on the raw style without coercing it to text.
- The generic routine serves Birkenstock and Adolfo only.

## Model

| member | source | states |
|---|---|---|
| Brands.ParseBrand | src/utils/data_cleaner.py:19-65 | a code is accepted exactly when it is one of the eight configured codes, and names the brand whose code it is |
| Brands.ParseCode | src/utils/data_cleaner.py:19-60 | every brand is recovered from its own code |
| Brands.DisplayName | src/utils/data_cleaner.py:96-98 | every configured brand has a non-empty display name, so the empty-name early return only serves unknown codes |
| Brands.ConfigsListMandatory | src/utils/data_cleaner.py:19-60 | every brand's column list holds the three mandatory columns and its style column |
| Cleaner.New | src/utils/data_cleaner.py:17-18 | the stored code has the given length, no lower-case letter, and every other character unchanged; the reference tables are kept as given |
| Cleaner.NewIdempotent | src/utils/data_cleaner.py:17 | configuring again with the stored code changes nothing |
| Cleaner.GetReference | src/utils/data_cleaner.py:94-105 | the scan over the named tables returns the lookup's specification |
| Cleaner.ReferenceForFirst | src/utils/data_cleaner.py:100-105 | the lookup returns the table of the least index whose name contains the display name case-insensitively, and an empty table when none does |
| Cleaner.ReferenceForGiven | src/utils/data_cleaner.py:94-105 | the lookup only returns one of the given tables or the empty one |
| Cleaner.CleanData | src/utils/data_cleaner.py:62-92 | an unknown code fails with that code; then missing mandatory columns fail, listed in order; otherwise the result meets the chosen brand routine's whole contract on its reference table, its error cases included |
| FileBrand.FirstLMatch | src/app.py:179 | the leftmost position of an `L<digits><2 letters>` match, or none when no position matches |
| FileBrand.LGroup | src/app.py:181 | the captured group is two upper-case letters |
| FileBrand.FirstCode | src/app.py:184-186 | the first code in list order that the name contains, or none when it contains none |
| FileBrand.DetectBrand | src/app.py:174-188 | the pattern's group if the pattern matches, else the first direct code, else none |
| FileBrand.DetectedShape | src/app.py:179-188 | any detected code is exactly two upper-case letters |
| FileBrand.DetectedIgnoresCase | src/app.py:176 | a name and its upper-case give the same result |
| FileBrand.PatternFirst | src/app.py:179-181 | when the pattern matches anywhere, the result comes from a match at or before that position, whatever the direct codes |
| FileBrand.DirectFallback | src/app.py:183-188 | without a pattern match, a code is detected exactly when the name contains one of CH, CL, NE, SK |
| Text.UpperIdempotent | src/utils/data_cleaner.py:17 | upper-casing twice is upper-casing once |
| Text.UpperHasNoLower | src/utils/data_cleaner.py:17 | an upper-cased string keeps its length and has no lower-case letter |
| Text.UpperFixesUpperOnly | src/utils/data_cleaner.py:17 | a string without lower-case letters is its own upper-case |
| Text.SplitCount | src/utils/data_cleaner.py:120 | `split(d)` yields one more field than there are delimiters |
| Text.JoinSplit | src/utils/data_cleaner.py:429 | joining the fields of a split with the delimiter gives the string back |
| Text.SplitJoin | src/utils/data_cleaner.py:429 | splitting a join of delimiter-free fields gives the fields back |
| Text.SplitFieldsFree | src/utils/data_cleaner.py:120 | no field of a split holds the delimiter |
| Text.SplitNoDelimiter | src/utils/data_cleaner.py:120 | a string without the delimiter splits into itself alone |
| Text.SplitPrefix | src/utils/data_cleaner.py:120 | splitting `a + d + b`, with `a` free of `d`, gives `a` and then the fields of `b` |
| Text.SplitNIsBoundedSplit | src/utils/data_cleaner.py:517 | `split(d, n)` is the full split when it has at most n+1 fields, else its first n fields and the rest joined again |
| Text.StripSpec | src/utils/data_cleaner.py:353 | `strip()` gives a slice with no white space at either end, and everything cut off is white space |
| Text.CollapseSpaceSingleSpaced | src/utils/data_cleaner.py:349 | after `\s+` → " " no two white-space characters are adjacent, and every space left is a plain blank; a leading non-space survives |
| Text.CollapseSpaceFixesSingleSpaced | src/utils/data_cleaner.py:349 | a string that is already single-spaced is left unchanged |
| Text.CollapseSpaceIdempotent | src/utils/data_cleaner.py:349 | collapsing twice is collapsing once |
| Text.StripTrimmed | src/utils/data_cleaner.py:353 | a stripped string starts and ends with a non-space character, or is empty |
| Text.StripSingleSpaced | src/utils/data_cleaner.py:350 | stripping a single-spaced string keeps it single-spaced and trims it |
| Text.DigitRunEnd | src/app.py:179 | the end of the digit run starting at a position: all digits before it, a non-digit or the end at it |
| Text.AmericanaMatch | src/utils/data_cleaner.py:260-262 | a match of `americana\s*\d+(?:\.\d+)?` at the start is longer than nine characters and begins with "americana" in any case |
| Text.StripAmericanaUnchangedIff | src/utils/data_cleaner.py:260-262 | the substitution leaves a string unchanged exactly when the pattern matches nowhere in it |
| Text.AmericanaAtStartRemoved | src/utils/data_cleaner.py:260-262 | a match at the start is removed whole and the scan goes on after it |
| Rules.Field | src/utils/data_cleaner.py:120 | `str.split(d).str[i]`: a null name gives null, and a field never holds the delimiter |
| Rules.FieldExists | src/utils/data_cleaner.py:120-121 | field 0 of a name always exists; field i+1 exists exactly when the name has more than i delimiters |
| Rules.FirstFieldIsPrefix | src/utils/data_cleaner.py:120 | the style is the prefix of the name up to its first delimiter |
| Rules.BoundedFieldSpec | src/utils/data_cleaner.py:517 | the `split('/', n=3)` fields: the first three as in a full split, the fourth the joined remainder, no fifth |
| Rules.SplitWidth | src/utils/data_cleaner.py:517-523 | the width of `expand=True` is between 1 and 4; no name has a field at or beyond it, and unless it is 1 some name has a field in its last column, so it is the widest name's field count |
| Rules.ChGenderByFirstLetter | src/utils/data_cleaner.py:124-131 | Cole Haan gender by the style's first letter: F→MACC, W→WFW, C→MFW, U→WACC, anything else or an empty style→"" |
| Rules.ChSegmentByFirstLetter | src/utils/data_cleaner.py:134-139 | segment FOOTWEAR for styles starting W or C, ACCESSORIES for F or U, else "" |
| Rules.ClGenderExclusive | src/utils/data_cleaner.py:199-211 | Columbia gender by item-code prefix in the listed order (3, 804/805, 4, 5, 6, 802); "" exactly when no prefix matches |
| Rules.LookupTeam | src/utils/data_cleaner.py:409-410 | `team in team_licenses` and the lookup: none exactly when the team is absent, otherwise the league paired with its first entry |
| Rules.League | src/utils/data_cleaner.py:383-410 | a null team has no league; a team gets a league exactly when it is in the table; a league found is never blank |
| Rules.SplitKeepsSingleSpaced | src/utils/data_cleaner.py:349-353 | every field of a single-spaced string is single-spaced |
| Rules.NeDescription | src/utils/data_cleaner.py:347-354 | the New Era description is null for a null name, and otherwise trimmed and single-spaced |
| Rules.PbDescription | src/utils/data_cleaner.py:526-528 | the Psycho Bunny description is null exactly when its input is, and trimmed otherwise |
| Rules.StyleColorIsPrefix | src/utils/data_cleaner.py:426-429 | the style-colour is a prefix of the name and extends the style; with at most one `-` it is the whole name |
| Frame.Missing | src/utils/data_cleaner.py:71-74 | the missing list is empty exactly when every wanted label is present |
| Frame.SetColumn | src/utils/data_cleaner.py:120 | assigning a column sets that cell in every row, appends the label if new, and keeps the rest |
| Frame.AddMissingColumns | src/utils/data_cleaner.py:229-233 | absent labels are appended in order as null columns, and every existing cell is kept |
| Frame.DropColumns | src/utils/data_cleaner.py:151-152 | `drop(errors='ignore')`: the labels are removed from the label list and from every row |
| Frame.Reindex | src/utils/data_cleaner.py:165 | `reindex(columns=cs)`: exactly the labels `cs`, with the cell of each present label kept and null for an absent one |
| Frame.Select | src/utils/data_cleaner.py:362 | `df[cs]`: a KeyError listing the absent labels exactly when some are absent, otherwise the reindexed table |
| Frame.FilterRows | src/utils/data_cleaner.py:250-251 | boolean selection keeps exactly the rows whose mask has the wanted value, in order |
| Frame.PositionsSplit | src/utils/data_cleaner.py:250-251 | the two selections together have as many rows as the table |
| Frame.Concat | src/utils/data_cleaner.py:315 | `concat` gives the first table's rows followed by the second's |
| Frame.DropDuplicates | src/utils/data_cleaner.py:147 | a KeyError exactly when the key is absent; otherwise distinct keys, no more rows, and the same first row for every key |
| Frame.DedupKeepsFirst | src/utils/data_cleaner.py:147 | deduplication keeps, for each key not already seen, the first row with that key |
| Frame.FirstMatchIsLeast | src/utils/data_cleaner.py:150-156 | the first match is the row of least index with the key, and none when no row has it |
| Frame.DistinctKeysMatchOnce | src/utils/data_cleaner.py:150-156 | against distinct keys a left row matches at most one right row, namely its first match |
| Frame.Duplicated | src/utils/data_cleaner.py:150-156 | the repeated labels are none exactly when the label list is distinct |
| Frame.LeftMerge | src/utils/data_cleaner.py:150-156 | a merge error exactly when the merged labels repeat; otherwise the join rows under the merged labels |
| Frame.MergeOneToOne | src/utils/data_cleaner.py:150-156 | against a deduplicated right side the left join keeps the row count and extends each row by its first match |
| Frame.MergeCells | src/utils/data_cleaner.py:150-156 | after such a join every left cell is kept, and each right column holds the first matching right row's value |
| Frame.MergeDisjoint | src/utils/data_cleaner.py:150-156 | right columns the left lacks are not renamed and cannot repeat a label |
| Frame.FillNa | src/utils/data_cleaner.py:294 | `df[c] = df[c].fillna(df[src])` sets each row's cell to its own value when non-null, else to the source's |
| Enrich.FillStepOk | src/utils/data_cleaner.py:292-295 | one fill step fails exactly when the copy exists but the column does not and may not be created |
| Enrich.FillStepSpec | src/utils/data_cleaner.py:292-295 | one fill step drops the copy, keeps every other cell, and fills the column's nulls from the copy when the copy exists |
| Enrich.FillFromSuffix | src/utils/data_cleaner.py:290-295 | the fill-and-drop loop over the columns computes the composed fill steps |
| Enrich.FillAllOk | src/utils/data_cleaner.py:290-295 | the fill loop fails exactly when some column is missing while its copy is present, and names that column |
| Enrich.FillAllColumns | src/utils/data_cleaner.py:290-295 | after the fill loop the labels are the merged ones without the copies, with created columns in place |
| Enrich.FillAllCells | src/utils/data_cleaner.py:290-295 | after the fill loop every cell but the copies is the row's own value, or the copy's when the own value is null |
| Enrich.CoerceKey | src/utils/data_cleaner.py:276 | `astype(str)` (and `.str.strip()`) on the key replaces each key cell by its text and nothing else |
| Enrich.CoerceThenDedup | src/utils/data_cleaner.py:365-368 | coercing then deduplicating gives distinct keys, and the first row for every key text of the coerced table |
| Enrich.CoerceThenDedupOneToOne | src/utils/data_cleaner.py:365-375 | a left join against a table coerced then deduplicated keeps the row count and brings the first row per key text |
| Enrich.DedupThenCoerceCollision | src/utils/data_cleaner.py:273-287 | deduplicating before coercing lets two keys that become the same text both join one left row, doubling it |
| Enrich.DedupThenCoerceDuplicatesNan | src/utils/data_cleaner.py:273-287 | a reference with styles NaN and "nan" doubles a left row whose style is "nan" |
| Enrich.DedupThenCoerceDuplicatesStrip | src/utils/data_cleaner.py:537-551 | a reference with styles "ABC" and "ABC " doubles a left row whose style is "ABC" once both are stripped |
| Enrich.Prepare | src/utils/data_cleaner.py:362-368 | the prepared reference has the chosen labels and distinct keys, and the first row per key text for each chosen column |
| Enrich.MergeFill | src/utils/data_cleaner.py:281-295 | merge then fill keeps the row count and gives the filled labels; without suffixed copies in the input it succeeds and its every cell is the left value, or the first match's when that is null |
| Enrich.CompletedFrom | src/utils/data_cleaner.py:281-295 | the merge followed by the fill loop meets the completion specification |
| ColeHaan.Clean | src/utils/data_cleaner.py:108-171 | an empty reference returns the input; otherwise it fails exactly when a name is null or the reference lacks the style, and otherwise every row is cleaned as specified, with the reference columns by first style match and the size appended last |
| ColeHaan.DeriveColumns | src/utils/data_cleaner.py:119-139 | style and description are `/` fields 0 and 1; gender, category and segment follow the first-letter rules, with category equal to gender |
| ColeHaan.DerivedFrom | src/utils/data_cleaner.py:120-139 | one row with its five derived cells meets the row derivation specification |
| ColeHaan.RightDisjoint | src/utils/data_cleaner.py:144-156 | the reference side brings exactly the replaced columns the reference has, none of them left on the input side |
| ColeHaan.RefCells | src/utils/data_cleaner.py:147-156 | the merge keeps the row count and the input cells; each replaced column takes the first reference row with the same style |
| ColeHaan.CleanedColumns | src/utils/data_cleaner.py:161-165 | the reordered labels are the fixed ones followed by the reference columns present |
| ColeHaan.RowCleaned | src/utils/data_cleaner.py:141-169 | each output row keeps the input and derived cells, takes the reference values, and adds the size field |
| ColeHaan.CleanedFrom | src/utils/data_cleaner.py:141-169 | the merge, reorder and size steps together give the cleaned table |
| Columbia.Clean | src/utils/data_cleaner.py:174-213 | one row per input row; labels are the input's, then those of the six added labels it lacks; style, description, size and colour are `/` fields 0–3, the colour blank if null, the colour code its `-` field 1, the item code its text and the gender by code prefix |
| Columbia.Columns | src/utils/data_cleaner.py:186-211 | the assignments append exactly the added labels the input lacks, in order |
| Columbia.RowCleaned | src/utils/data_cleaner.py:186-211 | one row with its seven assigned cells meets the row specification |
| Skechers.Clean | src/utils/data_cleaner.py:216-324 | an empty reference returns the input; otherwise one row per input row, the required labels appended, the well-formed rows first and the others after, each in input order and completed from the reference |
| Rules.SkValidFields | src/utils/data_cleaner.py:236-258 | a well-formed name always yields a description, and its style, of two or more characters with an alphanumeric first, ends at the first `/` |
| Skechers.PartRows | src/utils/data_cleaner.py:250-262 | the well-formed part gets the cleaned description, the other part loses its style, each in input order |
| Skechers.RightLabels | src/utils/data_cleaner.py:268-270 | the reference side brings exactly the completable columns the reference has |
| Skechers.MergeFresh | src/utils/data_cleaner.py:229-233 | with all required columns present and no copies in the input, the fill loop can complete every column |
| Skechers.PlainValid | src/utils/data_cleaner.py:264-268 | without a reference style the well-formed rows keep their own values |
| Skechers.PlainInvalid | src/utils/data_cleaner.py:264-268 | without a reference style the malformed rows keep their own values with a null style |
| Skechers.KeyedValid | src/utils/data_cleaner.py:276-295 | with a reference style each well-formed row's nulls come from the first reference row with its style text |
| Skechers.KeyedInvalid | src/utils/data_cleaner.py:278-312 | with a reference style each malformed row has style "nan" and its nulls come from the first reference row with that text |
| Skechers.Joined | src/utils/data_cleaner.py:315 | concatenating the two parts gives the cleaned table |
| Skechers.OutputColumns | src/utils/data_cleaner.py:289-312 | the merges and fills leave the labels as the routine first arranged them |
| NewEra.Clean | src/utils/data_cleaner.py:327-412 | an empty reference returns the input; a reference lacking a completed column fails naming those columns; otherwise every row is cleaned: fixed labels, derived style, description and size, nulls completed by style text, then a blank league from the team table |
| NewEra.DerivedCells | src/utils/data_cleaner.py:346-355 | style and size are `/` fields 0 and 2; the description is field 1 after the white space is collapsed and the ends stripped |
| NewEra.StagedCells | src/utils/data_cleaner.py:358-366 | after reshaping to the fixed labels and making the style text, each cell is the derived or input value |
| NewEra.TempCells | src/utils/data_cleaner.py:362-375 | the merge keeps the row count, and each completed column takes the first reference row with the same style text |
| NewEra.MaskFill | src/utils/data_cleaner.py:377-380 | for each completed column in turn, exactly the null cells take the merged table's value in the same row |
| NewEra.LeagueOfIdempotent | src/utils/data_cleaner.py:405-410 | settling a row's league a second time changes nothing, since a league the team table supplies is never blank |
| NewEra.LeagueOfBlankIff | src/utils/data_cleaner.py:405-410 | a league is still blank afterwards exactly when it was blank and the team is null or absent from the team table |
| NewEra.VisitBlank | src/utils/data_cleaner.py:407-410 | the loop over the selected rows' positions rewrites exactly those rows and leaves every other row as it was |
| NewEra.ApplyLeagues | src/utils/data_cleaner.py:404-410 | each row ends with its league as specified, and the labels and row count are unchanged |
| NewEra.LeagueOnlyBlank | src/utils/data_cleaner.py:404-410 | the league pass changes no cell but the league |
| NewEra.LeaguePassIdempotent | src/utils/data_cleaner.py:404-410 | running the league pass twice is running it once |
| NewEra.RowCleaned | src/utils/data_cleaner.py:377-410 | one row after the fill and the league pass meets the row specification |
| Fabletics.Clean | src/utils/data_cleaner.py:415-500 | one row per input row; a first merge with a reference lacking the style fails; otherwise, without copies, it fails on the first statistics column not in the output, and else gives the specified table |
| Fabletics.DeriveColumns | src/utils/data_cleaner.py:425-434 | style is `-` field 0, style-colour the first two `-` fields joined, description, colour and size are `/` fields 1–3 |
| Fabletics.BroughtIs | src/utils/data_cleaner.py:439-450 | the labels the routine computes are the reference columns the derived table lacks, except the division |
| Fabletics.BroughtAreNew | src/utils/data_cleaner.py:449-450 | a brought label is a reference column that is not an input or derived label and not the division |
| Fabletics.StyleMerge | src/utils/data_cleaner.py:436-466 | the first merge keeps the row count, fails on a reference without the style, and otherwise fills each brought column by style text |
| Fabletics.FirstFresh | src/utils/data_cleaner.py:460-466 | the brought columns are new to the table, so no copy is made and none needs filling |
| Fabletics.FirstCells | src/utils/data_cleaner.py:452-466 | after the first merge the style is text and each brought column holds the first reference row with that style |
| Fabletics.StyleColorMerge | src/utils/data_cleaner.py:468-482 | the second merge keeps the row count and fills a null division from the first reference row with the same style-colour text |
| Fabletics.SecondFresh | src/utils/data_cleaner.py:477-482 | the division copy does not clash with any existing label |
| Fabletics.SecondCells | src/utils/data_cleaner.py:469-482 | after the second merge the style-colour is text and the division is filled as specified |
| Fabletics.Projected | src/utils/data_cleaner.py:484-491 | projecting onto the fixed order gives the cleaned table |
| Fabletics.OutputFromOrder | src/utils/data_cleaner.py:484-491 | every output label is in the fixed order and comes from the input, the derivations or the reference |
| Fabletics.InputKept | src/utils/data_cleaner.py:436-482 | a non-null input cell that is not derived reaches the output unchanged |
| PsychoBunny.Clean | src/utils/data_cleaner.py:502-579 | an empty reference returns the input; a missing description or style column fails naming it; a reference without the style gives the working table; otherwise every row is cleaned, with the nulls of interest filled by stripped style |
| PsychoBunny.Width | src/utils/data_cleaner.py:517 | the expanded split has at most four columns, and none exactly when the table has no rows |
| PsychoBunny.WidthIsWidest | src/utils/data_cleaner.py:517-523 | no name has a field at or beyond the width, and some name fills its last column when it is over one, so it is the widest name's field count |
| PsychoBunny.SplitName | src/utils/data_cleaner.py:517-523 | as many split columns are assigned as the split has, each cell being that bounded field |
| PsychoBunny.AssignUpTo | src/utils/data_cleaner.py:518-523 | given a width of at most four, the first that many split labels are appended (those not already present) and each holds its bounded field, other cells untouched |
| PsychoBunny.AssignPart | src/utils/data_cleaner.py:520-523 | one more split column is assigned and nothing else changes |
| PsychoBunny.WorkedFrom | src/utils/data_cleaner.py:517-528 | the split followed by the description clean-up gives the working table |
| PsychoBunny.Available | src/utils/data_cleaner.py:532-533 | the columns of interest kept are exactly those the reference has |
| PsychoBunny.MergeReference | src/utils/data_cleaner.py:535-567 | the merge keeps the row count, fails without a style column, and otherwise gives the cleaned table |
| PsychoBunny.Merged | src/utils/data_cleaner.py:537-567 | the merge and the fill loop give the cleaned table, and every available column is in its result |
| PsychoBunny.KeysAndDescriptionsTrimmed | src/utils/data_cleaner.py:526-541 | every output style is present and trimmed, and every output description is trimmed |
| PsychoBunny.InputKept | src/utils/data_cleaner.py:555-562 | a non-null input cell outside the split columns reaches the output unchanged |
| PsychoBunny.ReferenceFills | src/utils/data_cleaner.py:555-562 | a null column of interest takes the first reference row with the same stripped style |
| PsychoBunny.MissingKeyAsWritten | src/utils/data_cleaner.py:568-577 | the branch for a reference without a style always ends in an error: an unbound `df_ref` when the columns of interest are present, a KeyError otherwise |
| PsychoBunny.SplitAndDescribe | src/utils/data_cleaner.py:517-528 | a KeyError when the split leaves no description column, and otherwise the working table |
| PsychoBunny.CleanAsWritten | src/utils/data_cleaner.py:502-579 | the routine as written: on a non-empty reference without a style it always fails, with an unbound `df_ref` exactly when the working table has every available column of interest; its other branches are those of the corrected routine |
| Generic.Clean | src/utils/data_cleaner.py:581-618 | one row per input row; without a reference only the style and description are derived; a reference without the style fails; otherwise gender and category nulls take the first reference row with the style |
| Generic.DeriveColumns | src/utils/data_cleaner.py:588-590 | style and description are `/` fields 0 and 1, and every other cell is kept |
| Generic.RightLabels | src/utils/data_cleaner.py:594-598 | the reference side brings exactly gender and category, where the reference has them |
| Generic.RefLookup | src/utils/data_cleaner.py:598 | deduplication keeps the first reference row per style |
| Generic.MergeFresh | src/utils/data_cleaner.py:609-616 | without copies in the input the two fills can complete both columns |
| Generic.RowEnriched | src/utils/data_cleaner.py:601-616 | one merged and filled row meets the enrichment specification |
| Generic.CleanedFrom | src/utils/data_cleaner.py:593-616 | the merge and the two fills give the cleaned table |

## Left out

- Streamlit notifications (`st.warning`, `st.success`, `st.error`) are not modelled. The completion counts they print are left out too. Where those statistics can fail, the failure is modelled: Fabletics' KeyError on a missing statistics column, and Psycho Bunny's reads in the branch without a style.
- The reference tables' retrieval from the document store, file reading, and the rest of `src/app.py` are not part of this model. The reference tables are an input, in the order the store yields them.
- Types other than text are not modelled. Every cell is text or null, `astype(str)` of a null is the text "nan", and of a text it is that text. So a number and its text form do not collide as keys, as they can in pandas.
- Character classes are ASCII: `upper`/`lower`, `\d`, `isalnum` and `[A-Z]`. White space also covers the non-ASCII characters Python treats as white space.
- pandas index alignment is not modelled. New Era's `df.loc[mask, col] = temp_df.loc[mask, col]` is a positional copy, which it is for an input with a default index.
- A merge whose labels would repeat, because a reference column collides with an input label carrying the suffix, is an error in the model. pandas would instead produce a duplicated label, which a table here cannot hold.
- Skechers.Clean: the cleaned-table guarantee assumes the input has no label `<column>_ref` for a completed column. Without that, only the row count is stated.
- Fabletics.Clean: the cleaned-table guarantee assumes no label `<column>_ref` or `U_Division_div` in the input or the reference. Without that, only the row count and the missing-style error are stated.
- PsychoBunny.Clean: the cleaned-table guarantee assumes the input has no label `<column>_mongo`. Without that, only the row count and the errors are stated.
- Generic.Clean: the cleaned-table guarantee assumes the input has no `U_Genero_ref` or `U_Categoria_ref` label. Without that, only the row count and the errors are stated.
- Skechers.Clean, Fabletics.Clean and PsychoBunny.Clean deduplicate after coercing the key, which is the corrected order; see Findings. The order as written is modelled separately, by `Enrich.DedupThenCoerce`.
- PsychoBunny.Clean returns the working table when the reference lacks a style, which is the corrected behaviour; see Findings.

## Findings

| source | as written | input that shows it | evidently intended | confidence | as-written member | corrected member |
|---|---|---|---|---|---|---|
| src/utils/data_cleaner.py:273-287 | Skechers deduplicates the reference on `U_Estilo` before turning the key into text, so two keys that become the same text both survive and both join | a reference with styles NaN and "nan" and one input row with style "nan": the row appears twice | coerce first, then deduplicate, as New Era does at lines 365-368, so the join keeps the row count | not executed | Enrich.DedupThenCoerceDuplicatesNan | Enrich.CoerceThenDedupOneToOne |
| src/utils/data_cleaner.py:453-460 | Fabletics deduplicates the first merge's reference before turning the style into text, the same order as Skechers | two reference rows whose styles are distinct cells with one text, and an input row with that text: the row appears twice | coerce first, then deduplicate | not executed | Enrich.DedupThenCoerceCollision | Enrich.Prepare |
| src/utils/data_cleaner.py:537-551 | Psycho Bunny deduplicates before stripping and turning the style into text | a reference with styles "ABC" and "ABC " and an input row with style "ABC": the row appears twice | strip and coerce first, then deduplicate | not executed | Enrich.DedupThenCoerceDuplicatesStrip | Enrich.CoerceThenDedupOneToOne |
| src/utils/data_cleaner.py:568-577 | when the reference lacks `U_Estilo`, the statistics read `df_ref`, which was never assigned, or `df_final[available_cols]` with labels the working table lacks | any non-empty reference table without a `U_Estilo` column | report the error and return the working table unchanged | not executed | PsychoBunny.CleanAsWritten | PsychoBunny.Clean |
