# Mortality aggregation pipeline — a Dafny model

This project models the aggregation pipeline of a mortality dashboard
(`src/modulos/procesar_datos.py`). The pipeline turns one year's death
records and two reference tables into the small summary tables the charts
draw:
- the administrative division (DIVIPOLA) table;
- the ICD-10 cause-code table.

The model covers these views:
- the per-department map view, with one canonical department name per code;
- the monthly series, always twelve months;
- the most violent municipalities (X95 homicides) and the municipalities with the fewest deaths;
- the ranked table of leading causes;
- the five-year age histogram;
- the department × sex breakdown.

It also covers the filters and key normalisations these views rely on.

A pandas DataFrame is a sequence of records. In the death records a NaN
cell of COD_DEPARTAMENTO, COD_DANE, COD_MUERTE or SEXO, or a cell that
`pd.to_numeric(errors='coerce')` cannot read, is `None`. AÑO and the cells of
the two reference tables are taken to be present. `groupby(...).size()`
is `Grouping.GroupSize`: one row per key that occurs, holding that key's
number of rows, with NaN keys dropped. `sort_values` is the stable insertion
sort `Ranking.SortBy`, and `head(n)` is `Ranking.Head`. `merge(how='left')`
is `Joins.LeftJoin`: a left row is repeated once per match, and kept once
with a missing value when nothing matches.

Three functions overwrite a column of the caller's table. Each is a method
over an `array` with a loop, and its `ensures` gives the new contents of the
array:
- `normalizar_codigo_columna` on the cause codes (line 7, called from line 106);
- the age coercion (line 129);
- the zero-padding of the division table's department codes (line 160).

Everything else is a function over sequences, with lemmas.

Modules:
- `Options` holds the option type.
- `Text` holds `strip`, `upper`, `str(int)`, `int(str)` and `zfill`.
- `Tables` holds the record types and per-cell coercions.
- `Grouping`, `Ranking` and `Joins` are the three table operations.
- `Filters`, `Departments`, `Months`, `Cities`, `Causes`, `Ages` and `DeptSex` are one per view.

Two behaviours of the code that the model keeps as written:
- A record with a missing sex code is dropped by `dropna` before the
  mapping (line 158), so it is never counted under "Desconocido".
- The department × sex view can repeat a (department, sex label) pair. That
  happens when the division table spells one code's name in several ways,
  because the merge then repeats the row (lines 169-173). It also happens
  when a department has two different unknown sex codes, because the
  mapping runs after grouping (line 176). `DeptSex.DeptSexViewSpec` states
  the one-row-per-group property only when every code has one name.
- The department × sex totals of a department equal its map-view total only
  when every record with a department code also has a sex code
  (`DeptSex.DeptSexTotalsMatchMap`). `DeptSex.MissingSexBreaksTotals` shows
  one record without a sex that the map view counts and this view drops.
  `DeptSex.TwoSpellingsBreakTotals` shows one record counted twice when its
  department's name is spelt two ways.

## Model

| member | source | states |
|---|---|---|
| Text.NormalizeIdempotent | src/modulos/procesar_datos.py:7 | `strip().upper()` applied twice gives the same text as once |
| Filters.NormalizeCodeIdempotent | src/modulos/procesar_datos.py:7 | normalising a cause code (NaN read as "nan") twice equals normalising it once |
| Filters.NormalizedCausesIdempotent | src/modulos/procesar_datos.py:6-8 | normalising the code column of a whole table twice equals normalising it once |
| Filters.NormalizeCauseColumn | src/modulos/procesar_datos.py:6-8 | overwrites the caller's cause-code column in place with its normalised text, every other column and row untouched |
| Filters.Filter | src/modulos/procesar_datos.py:19 | a boolean mask keeps exactly the rows satisfying it, each as often as in the input, and no others |
| Filters.FilterInOrder | src/modulos/procesar_datos.py:19 | the mask keeps the original order: filtering a concatenation is the concatenation of the filtered parts |
| Filters.FilterSingle | src/modulos/procesar_datos.py:19 | a single row is kept exactly when it satisfies the mask |
| Filters.FilterMinLengthSpec | src/modulos/procesar_datos.py:18-19 | a record survives exactly when its code is present and has at least min_len characters |
| Filters.FilterYearSpec | src/modulos/procesar_datos.py:22-23 | the year filter keeps every record of that year with its multiplicity, and nothing else |
| Filters.IsHomicideSpec | src/modulos/procesar_datos.py:78 | a record is a homicide exactly when its lower-cased code text starts with "x95" |
| Filters.HomicideExamples | src/modulos/procesar_datos.py:78 | "X950" and "x950" count as homicides; "Y95" and a NaN code do not |
| Grouping.GroupSize | src/modulos/procesar_datos.py:27-31 | `groupby().size()`: no key twice, each row holds the number of input rows with its key (at least 1), the keys are exactly those present, the counts sum to the non-NaN rows |
| Grouping.GroupSizeCounts | src/modulos/procesar_datos.py:27-31 | a key has a group exactly when it occurs, and its group holds its number of occurrences |
| Grouping.TotalWhereGroupSize | src/modulos/procesar_datos.py:161-166 | the counts of the groups whose key satisfies a predicate sum to the number of input rows whose key satisfies it |
| Ranking.TotalWhereSortBy | src/modulos/procesar_datos.py:85 | sorting keeps the sum of the counts of the rows whose key satisfies a predicate |
| Ranking.SortBy | src/modulos/procesar_datos.py:85 | the sorted table is a permutation of the input in rank order, with the same keys, total and key-distinctness |
| Ranking.Head | src/modulos/procesar_datos.py:86 | `head(n)` is a prefix: of length min(n, len) for n >= 0, dropping the last -n rows for n < 0 |
| Ranking.TopNSpec | src/modulos/procesar_datos.py:85-86 | sort then head: rows of the input, in rank order, at most n of them, keys still distinct, and no row left out ranks before a row kept |
| Joins.LeftJoinKeepsRows | src/modulos/procesar_datos.py:57 | a left merge keeps every left row (key and payload), so never has fewer rows than the left table |
| Joins.LeftJoinUnique | src/modulos/procesar_datos.py:57 | against a lookup with unique keys the merge keeps the row count and order, and a row's value is missing exactly when its key has no match |
| Joins.LeftJoinRowsFromLeft | src/modulos/procesar_datos.py:57 | every merged row carries the key and payload of some left row |
| Joins.MatchesSpec | src/modulos/procesar_datos.py:57 | a key has no match exactly when no right row has it, and every match is the value of a right row with that key |
| Joins.LeftJoinMatched | src/modulos/procesar_datos.py:57 | every merged row's value is missing exactly when no right row has its key, and otherwise is the value of a right row with that key |
| Joins.Lookup | src/modulos/procesar_datos.py:57 | the looked-up value is missing exactly when no right row has the key, and otherwise belongs to a right row with that key |
| Text.ParseNatToString | src/modulos/procesar_datos.py:33 | `int(str(n)) == n` for every non-negative n |
| Text.DeptLabelRoundTrip | src/modulos/procesar_datos.py:33 | `str(n).zfill(2)` is all digits, reads back as n, and has exactly two characters below 100 |
| Text.DeptLabelInjective | src/modulos/procesar_datos.py:52 | two department codes share a padded key exactly when they are equal |
| Departments.CountByDepartmentSpec | src/modulos/procesar_datos.py:26-34 | one row per department code present, ascending by code, each with its number of records (>= 1); keys are two-digit texts reading back as the code; totals sum to records with a code |
| Departments.KeepFirstSpec | src/modulos/procesar_datos.py:47 | `drop_duplicates(subset=code, keep='first')` keeps exactly one row per code of the input, no code twice, and the row kept is the first input row with that code |
| Departments.KeepFirstSorted | src/modulos/procesar_datos.py:43-47 | on rows sorted by code then descending frequency, the kept rows have strictly increasing codes and each is at least as frequent as every row with its code |
| Departments.CanonicalCounts | src/modulos/procesar_datos.py:38-42 | each canonical row carries the frequency of its (code, name) pair in the division table |
| Departments.CanonicalIsMostFrequent | src/modulos/procesar_datos.py:38-47 | the name chosen for a code occurs at least as often as any other spelling of that code |
| Departments.CanonicalCodes | src/modulos/procesar_datos.py:45-50 | the canonical table covers exactly the department codes of the division table |
| Departments.CanonicalNamesSpec | src/modulos/procesar_datos.py:37-53 | exactly one row per department code, strictly ascending, with a most frequent spelling of its name |
| Departments.DepartmentNamesUnique | src/modulos/procesar_datos.py:51-52 | the name table has one row per padded code key, as many as the canonical rows |
| Departments.MergeKeepsRows | src/modulos/procesar_datos.py:56-57 | merging the counts with names keeps every count row with its code and total |
| Departments.MapViewSpec | src/modulos/procesar_datos.py:56-57 | with the canonical names the map view has exactly one row per department with deaths, in order, with its total; the name is missing exactly when the division table lacks the code, and otherwise is the upper-cased, folded canonical name of that code |
| Months.SumOccValid | src/modulos/procesar_datos.py:62-68 | the records counted under months 1..12 are exactly those whose month coerces to a number in 1..12 |
| Months.MonthlyDeathsSpec | src/modulos/procesar_datos.py:60-74 | exactly 12 rows for months 1..12 in order, each named by the upper-cased month name and holding that month's number of records (zero if none); totals sum to the records with a month in 1..12 |
| Cities.TownKeysSpec | src/modulos/procesar_datos.py:79 | the merge on COD_DANE keeps every record; with unique municipality codes each record gets exactly its own municipality, missing when unknown |
| Cities.TopTowns | src/modulos/procesar_datos.py:80-87 | per-municipality counts sorted and truncated: distinct municipalities, true counts, in rank order, min(n, groups) rows, and no municipality left out ranks before one kept |
| Cities.MostViolentCitiesSpec | src/modulos/procesar_datos.py:77-88 | min(top_n, municipalities with homicides) rows, none twice, each with its X95 homicide count, non-increasing, and none left out has more homicides than one shown |
| Cities.LeastMortalityCitiesSpec | src/modulos/procesar_datos.py:91-101 | min(top_n, municipalities with deaths) rows, none twice, each with its death count, non-decreasing, and none left out has fewer deaths than one shown |
| Causes.CountedKeysNormalized | src/modulos/procesar_datos.py:106-107 | a counted cause code is trimmed, upper-cased, at least four characters long, and the normalised code of some record |
| Causes.DescribedFromGroups | src/modulos/procesar_datos.py:120 | every row after merging with the descriptions is a counted code with its count |
| Causes.DescribedKeeps | src/modulos/procesar_datos.py:120 | every counted code keeps at least one row with its count through the left merge |
| Causes.DescribedUnique | src/modulos/procesar_datos.py:120 | when the code table lists each normalised code once, row i of the merge is count i, its description missing exactly when no code-table row has the code and otherwise the description of such a row |
| Causes.MatchedDescribes | src/modulos/procesar_datos.py:120 | a value matched against the code table is missing exactly when no code-table row has the normalised code, and otherwise is the description of such a row |
| Causes.DescribedDescriptions | src/modulos/procesar_datos.py:120 | every row of the merge, even when the code table repeats a code, has DESCRIPCION missing exactly when no code-table row has its code, and otherwise the description of such a row |
| Causes.RankedDescription | src/modulos/procesar_datos.py:113-123 | every ranked row's DESCRIPCION is missing exactly when no code-table row has its code, and otherwise the description of such a row |
| Causes.LookupDescription | src/modulos/procesar_datos.py:120 | a code finds a description exactly when some code-table row has that normalised code, and the description found is that row's |
| Causes.RankCausesSpec | src/modulos/procesar_datos.py:113-123 | from normalised records: min(top_n, merged rows) rows, RANK 1..n in row order, non-increasing totals, each code counted with its number of records, no counted code left out has more records than a code kept, and DESCRIPCION is missing exactly when no code-table row has the code and otherwise the description of such a row |
| Causes.TopCausesSpec | src/modulos/procesar_datos.py:104-125 | the causes table: min(top_n, merged rows) rows, RANK 1..n, non-increasing totals, each total the number of records whose normalised code it is, no counted code left out has more records than a code kept, and DESCRIPCION is missing exactly when no code-table row has the code and otherwise the description of such a row |
| Causes.TopCausesCodes | src/modulos/procesar_datos.py:106-107 | every code in the causes table is trimmed, upper-cased and at least four characters long |
| Causes.TopCauses | src/modulos/procesar_datos.py:104-125 | normalises the caller's cause-code column in place and returns the causes table of the original records |
| Tables.ToNumeric | src/modulos/procesar_datos.py:129 | `to_numeric(errors='coerce')`: numbers stay, blanks become NaN, text becomes a number exactly when it is a non-empty string of digits, and that number is the digits' decimal value |
| Tables.CoercedIdempotent | src/modulos/procesar_datos.py:129 | coercing an already coerced cell changes nothing |
| Ages.AgeBandSpec | src/modulos/procesar_datos.py:133-139 | a non-negative age below 85 lies in "lo-(lo+4)" with lo a multiple of five, lo <= age <= lo+4 and lo <= 80; from 85 on the band is "85+"; a negative age gives a band whose order raises |
| Ages.AgeBandExamples | src/modulos/procesar_datos.py:133-139 | 0 and 4 give "0-4", 5 gives "5-9", 84 gives "80-84", 85 and 120 give "85+", -1 gives "-5--1" |
| Ages.BandOrderOfAge | src/modulos/procesar_datos.py:146-149 | the order of the band of a non-negative age below 85 is its lower bound |
| Ages.BandOrderOfNegative | src/modulos/procesar_datos.py:146-149 | the band of a negative age starts with '-', so `int` of its first field raises |
| Ages.BandOrderInjective | src/modulos/procesar_datos.py:146-152 | bands of non-negative ages with the same order are the same band |
| Ages.AgeCountsFails | src/modulos/procesar_datos.py:146-152 | the age view raises exactly when some record's age coerces to a negative number |
| Ages.AgeCountsSpec | src/modulos/procesar_datos.py:127-154 | without negative ages: one row per band present, each with its number of records, totals summing to the records with a numeric age, bands strictly increasing by lower bound, "85+" last |
| Ages.AgeCountsCoerced | src/modulos/procesar_datos.py:129 | coercing the age column first leaves the age view unchanged |
| Ages.CountByAgeBand | src/modulos/procesar_datos.py:127-154 | overwrites the caller's age column with its numeric coercion, other columns untouched, and returns the age view of the original records |
| DeptSex.SexLabelSpec | src/modulos/procesar_datos.py:175-176 | the sex mapping is total onto four labels: 1, 2 and 3 get their own label and read back from it, every other code gets "Desconocido" |
| DeptSex.SexLabelInjective | src/modulos/procesar_datos.py:175-176 | two sex codes share a label exactly when they are equal or both unknown |
| DeptSex.PadCodesIdempotent | src/modulos/procesar_datos.py:160 | padding the division codes twice equals padding them once |
| DeptSex.PadCodeKeepsNumber | src/modulos/procesar_datos.py:160 | padding keeps the number that `astype(int)` reads from every readable code |
| DeptSex.CountByDeptAndSex | src/modulos/procesar_datos.py:157-180 | pads the caller's division codes in place, other columns untouched, and returns the department × sex view of the padded table |
| DeptSex.StrictlyOrdered | src/modulos/procesar_datos.py:161-166 | groups sorted by (code, sex) with no key twice are strictly increasing in (code, sex) |
| DeptSex.DeptSexGroupsSpec | src/modulos/procesar_datos.py:158-167 | one row per (department, sex) pair present, strictly ordered by code then sex, each with its number of records; totals sum to the records with both present |
| DeptSex.Dedup | src/modulos/procesar_datos.py:169 | `drop_duplicates()` keeps exactly the rows of the input, none twice, each at its first occurrence in table order: every occurrence of a later kept row comes after an occurrence of every earlier kept row |
| DeptSex.LookupName | src/modulos/procesar_datos.py:169-173 | a code has a name after the merge exactly when some division row has that padded code, and the name is that of such a row |
| DeptSex.DeptSexViewKeepsRows | src/modulos/procesar_datos.py:169-176 | every group survives the merge with its sex label and count, possibly repeated |
| DeptSex.MatchedNames | src/modulos/procesar_datos.py:168-172 | a name matched against the deduplicated division columns is missing exactly when no division row has the padded code, and otherwise is the name of such a row |
| DeptSex.DeptSexViewRowsFromGroups | src/modulos/procesar_datos.py:168-176 | every row of the view, repeated or not, comes from a group with its sex label and count, and its name is missing exactly when no division row has the group's padded code and otherwise the name of such a row |
| DeptSex.CountWhereDept | src/modulos/procesar_datos.py:158-166 | when every record with a department has a sex, the (department, sex) keys of a department are as many as the records of that department |
| DeptSex.DeptSexTotalsMatchMap | src/modulos/procesar_datos.py:26-34 | when every record with a department has a sex, the counts of a department's (department, sex) groups sum to that department's map-view total |
| DeptSex.MissingSexBreaksTotals | src/modulos/procesar_datos.py:158 | a record with a department and no sex is counted by the map view and dropped by this view, which is then empty |
| DeptSex.TwoSpellingsBreakTotals | src/modulos/procesar_datos.py:168-172 | with a code's name spelt two ways one record yields two "Masculino" rows, totalling 2 where the map view counts 1 |
| DeptSex.DeptSexViewSpec | src/modulos/procesar_datos.py:157-180 | when each code has one name: one row per group, in order, with its sex label and count, the name missing exactly when no division row has the code and otherwise the name of a division row with that code, and totals summing to the records with department and sex present |

## Left out

- `renombrar_columnas_codigos` (lines 11-15) only renames two columns. The cause-code record type (`Tables.CauseCode`) already carries the renamed fields.
- `unidecode` and `calendar.month_name` are foreign text functions. They are parameters (`fold`, `monthName`) applied where the code applies them. Their behaviour on text is not modelled.
- `str.upper` and `str.lower` change ASCII letters only. Unicode case mapping is not modelled. `str.strip` removes the characters Python's `str.isspace` accepts.
- `pd.to_numeric(errors='coerce')` is modelled on integers and on text made only of digits. Signs, decimals, exponents, surrounding spaces and float results (an age of 34.5) are not modelled.
- Ages.AgeCounts: ages are integers. Floor division of a float age and the `int(...)` truncation in the band label are not modelled.
- Department codes are taken to be integer-typed. A code column that pandas reads as float (because it holds NaN) would become "5.0" under `astype(str)`. The model renders it as "05".
- The department code column of the mortality records is an integer or NaN. A mix of text and integer codes in one column is not modelled.
- Departments.DeptGroups, Departments.CanonicalNames and DeptSex.DeptSexGroups group and order by numeric code. pandas orders the two-digit text keys, which agrees below 100. The lexicographic order of longer keys is not modelled.
- Departments.CanonicalNames reads every division code as a number. When line 160 has already padded the caller's division codes in place, pandas groups them as text, so "05" and "005" stay apart. The model merges them.
- Departments.CanonicalNames requires every division department code to be readable as an integer (`Departments.NumericCodes`), because `astype(int)` raises otherwise. The raising path is not modelled.
- Ranking.SortBy is a stable sort. pandas `sort_values` defaults to quicksort, which may order tied rows differently. The contracts state only the ordering, the permutation and the max-frequency properties, never which tied row wins.
- Grouping.GroupSize lists groups in first-appearance order, where `groupby` sorts its keys. Every view sorts afterwards, so only the order of tied rows could differ. That order is the tie-breaking left out above.
- Cities.TownTable, Causes.CodeTable, Departments.NameKeys and DeptSex.DivisionPairs read reference-table cells that are taken to be present: DEPARTAMENTO, COD_DANE and MUNICIPIO in the division table, and DESCRIPCION in the code table. The record field AÑO is taken to be present too. pandas would behave differently on a NaN there:
  - a NaN MUNICIPIO gives the merged records a NaN municipality, which `groupby('MUNICIPIO')` drops (lines 78-81, 91-93), where the model counts them under a town;
  - a NaN DESCRIPCION leaves the description missing even though the code matched (line 120), where the model's descriptions are missing only when no code-table row has the code;
  - a NaN DEPARTAMENTO is dropped by the groupby at line 40, where Departments.NameKeys keeps it;
  - a NaN name in DeptSex.DivisionPairs becomes a NaN DEPARTAMENTO after the merge at line 168, where the model always carries a name.
- File loading, the Dash application and the chart construction are not part of this model.
