# IDEB approval rates of the Baixada Santista — a verified model of the ETL core

The analysis script reads INEP's IDEB spreadsheet for the final years of
primary school. It turns the spreadsheet into a long table of
(municipality, network, year, approval rate) rows. It then derives two views
for its charts: the public-network rate of each of the nine municipalities of
the Baixada Santista, and the regional mean rate per year and network.

This project models that core in Dafny and proves what it does:

- `values.dfy`: cells (text, number, NaN) and an `Option`.
- `seqs.dfy`: filtering, mapping and first-index over sequences, with their laws.
- `text.dfy`: Python's `str.strip` whitespace and code-point string order.
- `numeric.dfy`: the rate column's cleaning. Every `,` becomes `.`, then
  `pd.to_numeric(errors='coerce')` parses the text or yields NaN. The parse is
  exact: decimal digits with at most one point, an optional sign, an optional
  exponent, and ASCII whitespace around them.
- `transform.dfy`: `transform_data`. It covers header trimming on the caller's
  frame (a `DataFrame` class whose `columns` field is overwritten), selection
  of the five known columns, both renames, `pd.melt`, and the rate cleaning.
- `views.dfy`: the two chart views. The group-by-mean is a one-pass tally of
  sums and counts, proved equal to the mean of each group's rates and sorted
  as `groupby(sort=True)` sorts.

A data frame is a column index plus rectangular rows, read positionally.
Numbers are exact reals, not binary floating point.

A missing year column does not shrink the long table. The selection at
src/analysis.py:97 quietly skips a missing key, but the code then passes all
three years to `pd.melt` (src/analysis.py:110-116), and `pd.melt` raises
`KeyError` when an id or value column is absent. The model follows the code:
`TransformFrame` returns `Err(MissingColumns(...))`, and
`MissingYearColumnFails` proves this for a sheet without the 2021 column. The
labels are listed in the `id_vars + value_vars` order, as pandas 2.2 and later
report them.

## Model

| member | source | states |
|---|---|---|
| Transform.StripAll | src/analysis.py:81 | every trimmed header is free of leading and trailing whitespace, and the number of headers is unchanged |
| Transform.StripAllIdempotent | src/analysis.py:81 | trimming the headers a second time changes nothing |
| Text.StripByKeepsMiddle | src/analysis.py:81 | a trimmed header is a contiguous piece of the original, with only characters of the stripped class (whitespace for `str.strip`) cut off on either side |
| Text.StripFixpoint | src/analysis.py:81 | trimming leaves a header unchanged exactly when it has no whitespace at either end |
| Transform.DataFrame.StripColumns | src/analysis.py:81 | the caller's frame has its own column index replaced by the trimmed headers; its cells are untouched |
| Transform.TransformData | src/analysis.py:72-124 | on return the caller's frame has trimmed headers and unchanged rows, and the result is the transform of the original frame |
| Transform.SelectedKeys | src/analysis.py:97 | the kept columns are exactly the mapping keys present among the headers, in the mapping's order |
| Transform.Select | src/analysis.py:100 | the selected frame has the chosen columns in order, and every cell comes from the same row under the same header |
| Transform.Rename | src/analysis.py:100 | the rows are untouched and a label changes exactly when it is one of the mapping's keys |
| Transform.RenameYears | src/analysis.py:104-108 | the rows are untouched; exactly the three technical rate names become labels that are years, each a relevant year, and every other label keeps its name |
| Transform.RelabelSourceKeys | src/analysis.py:84-108 | the five spreadsheet headers become NO_MUNICIPIO, REDE, 2017, 2019 and 2021, and 'Taxa de Aprovação - 20212' becomes 2021 |
| Transform.RelabelInjective | src/analysis.py:84-108 | no two mapped headers end up with the same label |
| Transform.MissingLabelsExact | src/analysis.py:110-116 | the labels melt reports are exactly the requested labels that the frame lacks |
| Transform.Melt | src/analysis.py:110-116 | melting succeeds exactly when the frame has both id labels and the three year labels; a failure names exactly the labels the frame lacks; a success has 3·n rows laid out year block by year block: position j·n + i, for each input row i, carries the j-th relevant year, so each relevant year has one row per input row |
| Transform.MeltYearsBlocks | src/analysis.py:110-116 | for every input row i, position j·n + i carries the j-th year melted |
| Transform.MeltYear | src/analysis.py:110-116 | one year's block has one row per input row, each carrying that year |
| Transform.MeltYears | src/analysis.py:110-116 | the unpivoted table has one row per input row per year |
| Transform.MeltYearsYears | src/analysis.py:110-116 | every unpivoted row carries one of the years melted |
| Transform.WorkMeltSucceeds | src/analysis.py:97-116 | melting the selected and renamed frame succeeds exactly when every mapping key is among the headers |
| Transform.MeltYearsAt | src/analysis.py:110-116 | row i of the j-th year's block sits at position j·n + i |
| Transform.TransformMissing | src/analysis.py:84-116 | the transform fails exactly when a mapping key is absent from the trimmed headers, and the error lists those keys' labels in mapping order |
| Transform.TransformShape | src/analysis.py:84-122 | with all keys present there are 3·n rows, year by year and in input order within a year; each row has its source row's municipality and network and the coerced rate of that year's column, for 2021 the '…20212' column |
| Transform.SourceLayoutAt | src/analysis.py:84-122 | on a sheet headed by exactly the five known columns, a table of n rows becomes 3·n long rows, and row i's year-j rate sits at position j·n + i beside that row's municipality and network |
| Transform.MissingYearColumnFails | src/analysis.py:110-116 | a sheet lacking the '…20212' column does not give a table of the two other years; the transform fails and names the missing 2021 label |
| Transform.TransformFrame | src/analysis.py:72-124 | the transform succeeds exactly when every mapping key is among the trimmed headers; then the long table has three rows per input row, and every year in it is 2017, 2019 or 2021 |
| Transform.CleaningKeepsYears | src/analysis.py:117-122 | cleaning the rate column keeps the row count, and row k keeps row k's year as melt gave it, so every year stays one of the melted years |
| Transform.TransformDecimalAt | src/analysis.py:84-122 | a rate the sheet writes in Brazilian notation (optional minus, digits, a comma, digits) reaches the long table at position j·n + i as the exact decimal it denotes, beside its year |
| Numeric.ReplaceCommasCell | src/analysis.py:121 | only text cells change; they keep their length and contain no comma afterwards |
| Numeric.ReplaceCommasAt | src/analysis.py:121 | each comma becomes a point and every other character stays in place |
| Numeric.ReplaceCommasIdempotent | src/analysis.py:121 | replacing a second time changes nothing |
| Numeric.ReplaceCommasEach | src/analysis.py:121 | each comma becomes a point, every other character stays, and text without a comma is unchanged |
| Numeric.ToNumeric | src/analysis.py:122 | numbers pass through unchanged and NaN stays NaN |
| Numeric.MantissaAccepts | src/analysis.py:122 | a mantissa is read exactly when the text is digits and points only, with at most one point and at least one digit |
| Numeric.ExponentAccepts | src/analysis.py:122 | an exponent is read exactly when the text is an optional sign followed by digits, with at least one digit |
| Numeric.UnsignedAccepts | src/analysis.py:122 | an unsigned number that is read has a digit and only digits, points, exponent marks and signs |
| Numeric.SignedAccepts | src/analysis.py:122 | a signed number that is read has a digit and only digits, points, exponent marks and signs |
| Numeric.ParseNumber | src/analysis.py:122 | text that becomes a number has a digit, and its characters are digits, points, exponent marks, signs or ASCII whitespace; anything else becomes NaN |
| Numeric.CoerceRate | src/analysis.py:121-122 | numbers pass through, NaN stays NaN, text without a comma is parsed as it stands, and text that becomes a number has a digit and no character other than digits, points, commas, exponent marks, signs and whitespace |
| Numeric.DecimalTextValue | src/analysis.py:121-122 | text with an optional minus, digits, a comma and digits becomes exactly the decimal it denotes |
| Numeric.DecimalTextRoundTrip | src/analysis.py:121-122 | text with digits, a comma and an optional minus sign reads back as the digits' value over ten to the number of fraction digits, negated after the minus |
| Numeric.BrazilianDecimalRoundTrip | src/analysis.py:121-122 | any m / 10^k written with k digits after a comma is read back exactly |
| Numeric.CommaDecimalExample | src/analysis.py:121-122 | "87,3" becomes 87.3 |
| Numeric.ThousandsSeparatorIsMissing | src/analysis.py:121-122 | "1.234,5" leaves two points after the replacement and becomes NaN rather than an error |
| Numeric.DashIsMissing | src/analysis.py:122 | a lone "-" becomes NaN |
| Numeric.EmptyIsMissing | src/analysis.py:122 | an empty cell becomes NaN |
| Numeric.ParseNumberUnpadded | src/analysis.py:122 | text without surrounding whitespace is parsed as it stands |
| Views.MunicipalityView | src/analysis.py:138-142 | the view is the long table filtered by one predicate, and holds exactly the rows from the nine municipalities on the 'Pública' network that have a rate |
| Views.MunicipalityViewSpec | src/analysis.py:138-142 | the municipality view keeps the long table's order and each row as often as it occurs there |
| Views.NetworkRows | src/analysis.py:179-182 | the rows grouped for the mean are the long table filtered by one predicate: exactly those from the nine municipalities that have a rate, from any network |
| Views.NetworkRowsSpec | src/analysis.py:179-182 | the rows grouped keep the long table's order and each row as often as it occurs there |
| Views.KeyLessTotal | src/analysis.py:184 | any two distinct groups are ordered one way or the other |
| Views.KeyLessTransitive | src/analysis.py:184 | the group order is transitive |
| Views.InsertKey | src/analysis.py:184 | inserting a group keeps the groups strictly sorted and adds exactly that group |
| Views.SortedKeys | src/analysis.py:184 | the groups come strictly sorted by year, then network, and are exactly the keys of rows with a network |
| Views.Tally | src/analysis.py:184 | the one-pass tally has an entry for exactly the groups that occur |
| Views.TallyAgrees | src/analysis.py:184 | the one-pass tally holds exactly the groups, each with the sum and count of its rates |
| Views.GroupMeans | src/analysis.py:184 | one row per group that occurs, with no duplicates, sorted by year then network; each holds the mean of its group's rates |
| Views.MeanView | src/analysis.py:179-184 | the mean view has one row for each (year, network) pair of a regional row that has a rate and a network, sorted by year then network; every mean is defined and equals the sum of the group's rates over their count |

## Left out

- `extract_data` (src/analysis.py:46-66) is not modelled. It checks that a file exists and calls `pd.read_excel`; the model starts from the frame that call returns.
- The plotly charts, their styling, `write_html`, the output paths and every `print` are not modelled. They are rendering and file output.
- The `__main__` block, which catches and prints errors, is not modelled. It is process glue.
- Floating point is not modelled. `to_numeric` and `mean` are exact over reals here, with no rounding.
- Numeric.ParseNumber: does not accept the `inf` and `infinity` spellings that pandas' parser reads as infinities; they become NaN here. (`nan` fails pandas' parse too and becomes NaN there as well.)
- Numeric.ParseNumber: accepts an exponent of any length and size. pandas reads at most 17 exponent digits, and a value out of double range, such as "1e400", becomes NaN there; here it is the exact real.
- Transform.Select: a header that occurs twice after trimming is read from its first column only. In pandas a duplicated rate header makes `melt` repeat that year's block, and a duplicated id header makes `melt` raise.
- Transform.StripAll: headers are strings. A non-text header, which `.str.strip()` turns into NaN, is not modelled.
- Values.Cell: there are no boolean or date cells. A cell is text, a number or NaN.
- Transform.TransformMissing: the error lists missing labels in the order of pandas 2.2 and later. pandas before 2.2 raised a `KeyError` for the missing id columns first, and otherwise one for the missing value columns, each listing labels in sorted (`Index.difference`) order.
- `astype(int)` on the year column is the identity here, because the renamed year labels are already integers.
- Views.CellLess: networks that mix numbers and text sort numbers first, as pandas' fallback sort does. A mixed-type key column is not expected in the data.
- The `.copy()` calls and the `dropna(inplace=True)` on those copies are modelled as filters over values. The copies are never shared, so no aliasing is lost.
