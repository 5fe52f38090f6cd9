/**
 * `transform_data`: the IDEB spreadsheet, read as a wide table with one row
 * per (municipality, network) and one rate column per year, becomes a long
 * table of (municipality, network, year, rate) rows.
 *
 * A data frame is its column index plus rectangular rows of cells, read
 * positionally: a column's cells sit at that column's position in each row.
 */
module Transform {
  import opened Values
  import Seqs
  import Text
  import Numeric

  /** The years the analysis compares: two before the pandemic, one during it. */
  const RelevantYears: seq<int> := [2017, 2019, 2021]

  /** A column label after renaming: a technical name, or a year number for a rate column. */
  datatype Label = Name(name: string) | Year(year: int)

  const MunicipalityKey: string := "Nome do Município"
  const NetworkKey: string := "Rede"
  /** The three rate columns as the spreadsheet heads them; the 2021 one really carries a stray '2'. */
  const RateKeys: seq<string> := ["Taxa de Aprovação - 2017", "Taxa de Aprovação - 2019", "Taxa de Aprovação - 20212"]

  /** The mapping's keys, in order. */
  const SourceKeys: seq<string> := [MunicipalityKey, NetworkKey, RateKeys[0], RateKeys[1], RateKeys[2]]

  /** `melt`'s `id_vars` and `value_vars`. */
  const IdVars: seq<Label> := [Name("NO_MUNICIPIO"), Name("REDE")]
  const ValueVars: seq<Label> := [Year(2017), Year(2019), Year(2021)]

  /** A data frame: its column labels and its rows, one cell per column. */
  datatype Frame<L> = Frame(columns: seq<L>, rows: seq<seq<Cell>>)

  predicate Rectangular<L>(f: Frame<L>)
  {
    forall i :: 0 <= i < |f.rows| ==> |f.rows[i]| == |f.columns|
  }

  /** One row of `melt`'s output, before the rate column is cleaned. */
  datatype MeltedRow = MeltedRow(municipio: Cell, rede: Cell, ano: int, value: Cell)

  /** One row of the long table: `NO_MUNICIPIO`, `REDE`, `Ano`, `Taxa_Aprovacao` (None is NaN). */
  datatype LongRow = LongRow(municipio: Cell, rede: Cell, ano: int, taxa: Option<real>)

  /** `melt`'s KeyError, listing the id or value labels the frame lacks. */
  datatype TransformError = MissingColumns(labels: seq<Label>)

  datatype Result<T> = Ok(value: T) | Err(error: TransformError)

  // ---------------------------------------------------------------------------
  // Header normalisation

  /** `columns.str.strip()`: every header loses its surrounding whitespace. */
  function StripAll(headers: seq<string>): (r: seq<string>)
    ensures |r| == |headers|
    ensures forall i :: 0 <= i < |r| ==> Text.IsStripped(r[i])
  {
    Seqs.Map(Text.Strip, headers)
  }

  /** Stripping headers a second time changes nothing. */
  lemma StripAllIdempotent(headers: seq<string>)
    ensures StripAll(StripAll(headers)) == StripAll(headers)
  {
    var once := StripAll(headers);
    forall i | 0 <= i < |once|
      ensures StripAll(once)[i] == once[i]
    {
      Text.StripFixpoint(once[i]);
    }
  }

  // ---------------------------------------------------------------------------
  // Selection and renaming

  /** `[col for col in keys if col in headers]`. */
  function SelectedKeys(keys: seq<string>, headers: seq<string>): (r: seq<string>)
    ensures forall k :: k in r <==> k in keys && k in headers
    ensures Seqs.IsSubsequence(r, keys)
  {
    if keys == [] then []
    else if keys[0] in headers then [keys[0]] + SelectedKeys(keys[1..], headers)
    else SelectedKeys(keys[1..], headers)
  }

  /** `frame[keys]`: the named columns, in the order given, each read from its first occurrence. */
  function Select(f: Frame<string>, keys: seq<string>): (r: Frame<string>)
    requires Rectangular(f)
    requires forall k :: k in keys ==> k in f.columns
    ensures r.columns == keys && |r.rows| == |f.rows| && Rectangular(r)
    ensures forall i, j :: 0 <= i < |r.rows| && 0 <= j < |keys| ==>
      r.rows[i][j] == f.rows[i][Seqs.IndexOf(f.columns, keys[j])]
  {
    Frame(keys, seq(|f.rows|, i requires 0 <= i < |f.rows| =>
      seq(|keys|, j requires 0 <= j < |keys| => f.rows[i][Seqs.IndexOf(f.columns, keys[j])])))
  }

  /** `rename(columns=COLUMNS_MAPPING)` on one label: the five spreadsheet headers get technical names, others stay. */
  function TechnicalName(column: string): string
  {
    if column == MunicipalityKey then "NO_MUNICIPIO"
    else if column == NetworkKey then "REDE"
    else if column == RateKeys[0] then "VL_APROVACAO_2017_SI_4"
    else if column == RateKeys[1] then "VL_APROVACAO_2019_SI_4"
    else if column == RateKeys[2] then "VL_APROVACAO_2021_SI_4"
    else column
  }

  /** The technical names of the three rate columns, which the year rename turns into years. */
  const TechnicalRateNames: seq<string> := ["VL_APROVACAO_2017_SI_4", "VL_APROVACAO_2019_SI_4", "VL_APROVACAO_2021_SI_4"]

  /** The year rename on one label: the technical rate names become their years. */
  function YearLabel(column: string): Label
  {
    if column == "VL_APROVACAO_2017_SI_4" then Year(2017)
    else if column == "VL_APROVACAO_2019_SI_4" then Year(2019)
    else if column == "VL_APROVACAO_2021_SI_4" then Year(2021)
    else Name(column)
  }

  /** Both renames together, from spreadsheet header to final label. */
  function Relabel(column: string): Label
  {
    YearLabel(TechnicalName(column))
  }

  /** `rename(columns=COLUMNS_MAPPING)`: exactly the mapping's keys get new names, the cells stay. */
  function Rename(f: Frame<string>): (r: Frame<string>)
    ensures r.rows == f.rows
    ensures |r.columns| == |f.columns|
    ensures forall i :: 0 <= i < |f.columns| ==> (r.columns[i] == f.columns[i] <==> f.columns[i] !in SourceKeys)
  {
    Frame(Seqs.Map(TechnicalName, f.columns), f.rows)
  }

  /**
   * The second `rename`: exactly the three technical rate names become
   * relevant years, every other label keeps its name, the cells stay.
   */
  function RenameYears(f: Frame<string>): (r: Frame<Label>)
    ensures r.rows == f.rows
    ensures |r.columns| == |f.columns|
    ensures forall i :: 0 <= i < |f.columns| && r.columns[i].Name? ==> r.columns[i].name == f.columns[i]
    ensures forall i :: 0 <= i < |f.columns| && r.columns[i].Year? ==> r.columns[i].year in RelevantYears
    ensures forall i :: 0 <= i < |f.columns| ==> (r.columns[i].Year? <==> f.columns[i] in TechnicalRateNames)
  {
    Frame(Seqs.Map(YearLabel, f.columns), f.rows)
  }

  /** The five mapping keys become the melt's id and value labels, the odd 2021 header included. */
  lemma RelabelSourceKeys()
    ensures Seqs.Map(Relabel, SourceKeys) == IdVars + ValueVars
    ensures Relabel("Taxa de Aprovação - 20212") == Year(2021)
  {
    RelabelIdKeys();
    RelabelRateKeys();
    var labels := Seqs.Map(Relabel, SourceKeys);
    assert forall c :: 0 <= c < 5 ==> labels[c] == (IdVars + ValueVars)[c];
  }

  lemma RelabelIdKeys()
    ensures Relabel(MunicipalityKey) == Name("NO_MUNICIPIO")
    ensures Relabel(NetworkKey) == Name("REDE")
  {
    assert |MunicipalityKey| == 17 && |NetworkKey| == 4;
    assert TechnicalName(MunicipalityKey) == "NO_MUNICIPIO";
    assert TechnicalName(NetworkKey) == "REDE";
    var m, r := "NO_MUNICIPIO", "REDE";
    assert |m| == 12 && |r| == 4;
  }

  lemma RelabelRateKeys()
    ensures Relabel(RateKeys[0]) == Year(2017)
    ensures Relabel(RateKeys[1]) == Year(2019)
    ensures Relabel(RateKeys[2]) == Year(2021)
  {
    var k17, k19, k21 := RateKeys[0], RateKeys[1], RateKeys[2];
    assert |k17| == 24 && |k19| == 24 && |k21| == 25;
    assert k17[23] != k19[23];
    assert TechnicalName(k17) == "VL_APROVACAO_2017_SI_4";
    assert TechnicalName(k19) == "VL_APROVACAO_2019_SI_4";
    assert TechnicalName(k21) == "VL_APROVACAO_2021_SI_4";
    var t17, t19, t21 := "VL_APROVACAO_2017_SI_4", "VL_APROVACAO_2019_SI_4", "VL_APROVACAO_2021_SI_4";
    assert t17[16] != t19[16] && t17[15] != t21[15] && t19[15] != t21[15];
  }

  // ---------------------------------------------------------------------------
  // Unpivoting

  /** `[label for label in labels if label not in columns]`, in the order asked for. */
  function MissingLabels(labels: seq<Label>, columns: seq<Label>): seq<Label>
  {
    if labels == [] then []
    else if labels[0] in columns then MissingLabels(labels[1..], columns)
    else [labels[0]] + MissingLabels(labels[1..], columns)
  }

  /** The reported labels are exactly the requested labels that the columns lack. */
  lemma {:induction false} MissingLabelsExact(labels: seq<Label>, columns: seq<Label>)
    ensures forall l :: l in MissingLabels(labels, columns) <==> l in labels && l !in columns
  {
    if labels != [] {
      MissingLabelsExact(labels[1..], columns);
      assert labels == [labels[0]] + labels[1..];
    }
  }

  /** The rows of one year's block: every input row, in order, with that year's rate. */
  function MeltYear(t: Frame<Label>, year: int): (r: seq<MeltedRow>)
    requires Rectangular(t)
    requires forall l :: l in IdVars ==> l in t.columns
    requires Year(year) in t.columns
    ensures |r| == |t.rows|
    ensures forall i :: 0 <= i < |r| ==> r[i].ano == year
  {
    var m, n, v := Seqs.IndexOf(t.columns, IdVars[0]), Seqs.IndexOf(t.columns, IdVars[1]), Seqs.IndexOf(t.columns, Year(year));
    seq(|t.rows|, i requires 0 <= i < |t.rows| => MeltedRow(t.rows[i][m], t.rows[i][n], year, t.rows[i][v]))
  }

  /** The year blocks one after another, in the order of `years`. */
  function MeltYears(t: Frame<Label>, years: seq<int>): (r: seq<MeltedRow>)
    requires Rectangular(t)
    requires forall l :: l in IdVars ==> l in t.columns
    requires forall y :: y in years ==> Year(y) in t.columns
    ensures |r| == |years| * |t.rows|
  {
    if years == [] then [] else MeltYear(t, years[0]) + MeltYears(t, years[1..])
  }

  /** Every melted row carries one of the years melted. */
  lemma {:induction false} MeltYearsYears(t: Frame<Label>, years: seq<int>)
    requires Rectangular(t)
    requires forall l :: l in IdVars ==> l in t.columns
    requires forall y :: y in years ==> Year(y) in t.columns
    ensures forall row :: row in MeltYears(t, years) ==> row.ano in years
  {
    if years != [] {
      MeltYearsYears(t, years[1..]);
      var block, rest := MeltYear(t, years[0]), MeltYears(t, years[1..]);
      assert MeltYears(t, years) == block + rest;
      assert forall row :: row in block + rest ==> row in block || row in rest;
    }
  }

  /**
   * `pd.melt(id_vars=['NO_MUNICIPIO', 'REDE'], value_vars=RELEVANT_YEARS)`:
   * it succeeds exactly when the frame has every id and value label, and then
   * gives three rows per input row, one block of rows per relevant year; otherwise its
   * KeyError names exactly the labels the frame lacks.
   */
  function Melt(t: Frame<Label>): (r: Result<seq<MeltedRow>>)
    requires Rectangular(t)
    ensures r.Ok? <==> forall l :: l in IdVars + ValueVars ==> l in t.columns
    ensures r.Err? ==> forall l :: l in r.error.labels <==> l in IdVars + ValueVars && l !in t.columns
    ensures r.Ok? ==> |r.value| == |RelevantYears| * |t.rows|
    ensures r.Ok? ==> forall row :: row in r.value ==> row.ano in RelevantYears
    ensures r.Ok? ==> forall j, i :: 0 <= j < |RelevantYears| && 0 <= i < |t.rows| ==>
      BlockIndex(j, |t.rows|, i) < |r.value| && r.value[BlockIndex(j, |t.rows|, i)].ano == RelevantYears[j]
  {
    var missing := MissingLabels(IdVars + ValueVars, t.columns);
    MissingLabelsExact(IdVars + ValueVars, t.columns);
    if missing != [] then
      assert missing[0] in IdVars + ValueVars && missing[0] !in t.columns;
      Err(MissingColumns(missing))
    else
      assert forall y :: y in RelevantYears ==> Year(y) in ValueVars;
      MeltYearsYears(t, RelevantYears);
      MeltYearsBlocks(t, RelevantYears);
      Ok(MeltYears(t, RelevantYears))
  }

  /** Where row `i` of the `j`-th year block lands when every block has `n` rows. */
  function BlockIndex(j: nat, n: nat, i: nat): nat
  {
    j * n + i
  }

  /** The `n` rows from position `j * n` on all carry `years[j]`. */
  lemma MeltYearsBlocks(t: Frame<Label>, years: seq<int>)
    requires Rectangular(t)
    requires forall l :: l in IdVars ==> l in t.columns
    requires forall y :: y in years ==> Year(y) in t.columns
    ensures forall j, i :: 0 <= j < |years| && 0 <= i < |t.rows| ==>
      BlockIndex(j, |t.rows|, i) < |MeltYears(t, years)| && MeltYears(t, years)[BlockIndex(j, |t.rows|, i)].ano == years[j]
  {
    forall j, i | 0 <= j < |years| && 0 <= i < |t.rows|
      ensures BlockIndex(j, |t.rows|, i) < |MeltYears(t, years)|
      ensures MeltYears(t, years)[BlockIndex(j, |t.rows|, i)].ano == years[j]
    {
      MeltYearsAt(t, years, j, i);
    }
  }

  /** Row `i` of year `years[j]`'s block sits at `j * n + i`. */
  lemma {:induction false} MeltYearsAt(t: Frame<Label>, years: seq<int>, j: nat, i: nat)
    requires Rectangular(t)
    requires forall l :: l in IdVars ==> l in t.columns
    requires forall y :: y in years ==> Year(y) in t.columns
    requires j < |years| && i < |t.rows|
    ensures 0 <= j * |t.rows| + i < |MeltYears(t, years)|
    ensures MeltYears(t, years)[j * |t.rows| + i] == MeltYear(t, years[j])[i]
  {
    var n := |t.rows|;
    if j > 0 {
      MeltYearsAt(t, years[1..], j - 1, i);
      assert j * n + i == n + ((j - 1) * n + i);
    }
  }

  // ---------------------------------------------------------------------------
  // The rate column

  /** `replace({',': '.'}, regex=True)` on the value column. */
  function ReplaceRate(m: MeltedRow): MeltedRow
  {
    m.(value := Numeric.ReplaceCommasCell(m.value))
  }

  /** `to_numeric(errors='coerce')` on the value column, giving the long table's row. */
  function NumericRate(m: MeltedRow): LongRow
  {
    LongRow(m.municipio, m.rede, m.ano, Numeric.ToNumeric(m.value))
  }

  // ---------------------------------------------------------------------------
  // The whole transform

  /** The frame after the selection and both renames. */
  function WorkFrame(headers: seq<string>, rows: seq<seq<Cell>>): (r: Frame<Label>)
    requires Rectangular(Frame(headers, rows))
    ensures Rectangular(r) && r.rows == Select(Frame(headers, rows), SelectedKeys(SourceKeys, headers)).rows
    ensures r.columns == Seqs.Map(Relabel, SelectedKeys(SourceKeys, headers))
  {
    var f := RenameYears(Rename(Select(Frame(headers, rows), SelectedKeys(SourceKeys, headers))));
    assert f.columns == Seqs.Map(Relabel, SelectedKeys(SourceKeys, headers));
    f
  }

  /**
   * `transform_data` on a frame with these (untrimmed) headers and rows. It
   * succeeds exactly when every mapping key is among the trimmed headers,
   * and then gives three long rows per input row, each of a relevant year.
   */
  function TransformFrame(headers: seq<string>, rows: seq<seq<Cell>>): (r: Result<seq<LongRow>>)
    requires Rectangular(Frame(headers, rows))
    ensures r.Ok? <==> forall k :: k in SourceKeys ==> k in StripAll(headers)
    ensures r.Ok? ==> |r.value| == |RelevantYears| * |rows|
    ensures r.Ok? ==> forall row :: row in r.value ==> row.ano in RelevantYears
  {
    var w := WorkFrame(StripAll(headers), rows);
    WorkMeltSucceeds(StripAll(headers), rows);
    match Melt(w)
    case Err(e) => Err(e)
    case Ok(long) =>
      CleaningKeepsYears(long, RelevantYears);
      Ok(Seqs.Map(NumericRate, Seqs.Map(ReplaceRate, long)))
  }

  /** Melting the work frame succeeds exactly when every mapping key is a header. */
  lemma WorkMeltSucceeds(hs: seq<string>, rows: seq<seq<Cell>>)
    requires Rectangular(Frame(hs, rows))
    ensures Melt(WorkFrame(hs, rows)).Ok? <==> forall k :: k in SourceKeys ==> k in hs
  {
    MissingAfterRename(hs, rows);
    MissingLabelsExact(IdVars + ValueVars, WorkFrame(hs, rows).columns);
    SomeKeyMissing(hs);
  }

  /** `[k for k in keys if k not in headers]`. */
  function MissingKeys(keys: seq<string>, headers: seq<string>): (r: seq<string>)
    ensures forall k :: k in r <==> k in keys && k !in headers
  {
    if keys == [] then []
    else if keys[0] in headers then MissingKeys(keys[1..], headers)
    else [keys[0]] + MissingKeys(keys[1..], headers)
  }

  /**
   * Labels are missing exactly where their keys are, for any relabelling
   * under which each key's label is present just when the key is.
   */
  lemma {:induction false} MissingRelabelled(relabel: string -> Label, keys: seq<string>, headers: seq<string>, columns: seq<Label>)
    requires forall k :: k in keys ==> (relabel(k) in columns <==> k in headers)
    ensures MissingLabels(Seqs.Map(relabel, keys), columns) == Seqs.Map(relabel, MissingKeys(keys, headers))
  {
    if keys != [] {
      MissingRelabelled(relabel, keys[1..], headers, columns);
      assert Seqs.Map(relabel, keys)[1..] == Seqs.Map(relabel, keys[1..]);
      if keys[0] !in headers {
        assert Seqs.Map(relabel, [keys[0]] + MissingKeys(keys[1..], headers))
          == [relabel(keys[0])] + Seqs.Map(relabel, MissingKeys(keys[1..], headers));
      }
    }
  }

  /** No two mapping keys end up with the same label. */
  lemma RelabelInjective(a: string, b: string)
    requires a in SourceKeys && b in SourceKeys && Relabel(a) == Relabel(b)
    ensures a == b
  {
    var i, j := Seqs.IndexOf(SourceKeys, a), Seqs.IndexOf(SourceKeys, b);
    if i < j {
      SourceLabelsDistinct(i, j);
    } else if j < i {
      SourceLabelsDistinct(j, i);
    }
  }

  lemma SourceLabelsDistinct(p: nat, q: nat)
    requires p < q < |SourceKeys|
    ensures Relabel(SourceKeys[p]) != Relabel(SourceKeys[q])
  {
    RelabelIdKeys();
    RelabelRateKeys();
    assert |"NO_MUNICIPIO"| != |"REDE"|;
  }

  /** A mapping key's final label is among the work frame's labels exactly when the key is among the headers. */
  lemma RelabelPresent(headers: seq<string>, k: string)
    requires k in SourceKeys
    ensures Relabel(k) in Seqs.Map(Relabel, SelectedKeys(SourceKeys, headers)) <==> k in headers
  {
    var sel := SelectedKeys(SourceKeys, headers);
    var labels := Seqs.Map(Relabel, sel);
    if Relabel(k) in labels {
      var i :| 0 <= i < |sel| && labels[i] == Relabel(k);
      RelabelInjective(sel[i], k);
    }
    if k in headers {
      var i := Seqs.IndexOf(sel, k);
      assert labels[i] == Relabel(k);
    }
  }

  /**
   * The transform fails exactly when some mapping key is absent from the
   * trimmed headers, and the error names the absent keys' labels in the
   * mapping's order.
   */
  lemma TransformMissing(headers: seq<string>, rows: seq<seq<Cell>>)
    requires Rectangular(Frame(headers, rows))
    ensures var hs := StripAll(headers);
      TransformFrame(headers, rows).Err? <==> exists k :: k in SourceKeys && k !in hs
    ensures var hs := StripAll(headers);
      TransformFrame(headers, rows).Err? ==>
        TransformFrame(headers, rows).error == MissingColumns(Seqs.Map(Relabel, MissingKeys(SourceKeys, hs)))
  {
    var hs := StripAll(headers);
    TransformViaMelt(headers, rows);
    MissingAfterRename(hs, rows);
    SomeKeyMissing(hs);
  }

  lemma SomeKeyMissing(hs: seq<string>)
    ensures (exists k :: k in SourceKeys && k !in hs) <==> Seqs.Map(Relabel, MissingKeys(SourceKeys, hs)) != []
  {
    var missing := MissingKeys(SourceKeys, hs);
    if exists k :: k in SourceKeys && k !in hs {
      var k :| k in SourceKeys && k !in hs;
      assert Seqs.Map(Relabel, missing)[Seqs.IndexOf(missing, k)] == Relabel(k);
    }
    if missing != [] {
      assert missing[0] in SourceKeys && missing[0] !in hs;
    }
  }

  /** The labels `melt` misses are the relabelled mapping keys absent from the headers. */
  lemma MissingAfterRename(hs: seq<string>, rows: seq<seq<Cell>>)
    requires Rectangular(Frame(hs, rows))
    ensures MissingLabels(IdVars + ValueVars, WorkFrame(hs, rows).columns) == Seqs.Map(Relabel, MissingKeys(SourceKeys, hs))
  {
    var w := WorkFrame(hs, rows);
    forall k | k in SourceKeys
      ensures Relabel(k) in w.columns <==> k in hs
    {
      RelabelPresent(hs, k);
    }
    MissingRelabelled(Relabel, SourceKeys, hs, w.columns);
    RelabelSourceKeys();
  }

  /** The transform fails as `melt` fails on the work frame, or maps the two cleaning steps over its rows. */
  lemma TransformViaMelt(headers: seq<string>, rows: seq<seq<Cell>>)
    requires Rectangular(Frame(headers, rows))
    ensures var m := Melt(WorkFrame(StripAll(headers), rows));
      && (m.Err? ==> TransformFrame(headers, rows) == Err(MissingColumns(MissingLabels(IdVars + ValueVars, WorkFrame(StripAll(headers), rows).columns))))
      && (m.Ok? ==> TransformFrame(headers, rows) == Ok(Seqs.Map(NumericRate, Seqs.Map(ReplaceRate, m.value))))
      && (m.Ok? <==> MissingLabels(IdVars + ValueVars, WorkFrame(StripAll(headers), rows).columns) == [])
  {
  }

  /**
   * With all five mapping keys among the trimmed headers the transform
   * succeeds with three rows per input row, year by year in 2017, 2019, 2021
   * order and in input order within a year; each row takes its municipality,
   * network and comma-cleaned, coerced rate from its source row, the 2021
   * rate from the column headed "…20212".
   */
  lemma TransformShape(headers: seq<string>, rows: seq<seq<Cell>>, j: nat, i: nat)
    requires Rectangular(Frame(headers, rows))
    requires forall k :: k in SourceKeys ==> k in StripAll(headers)
    requires j < |RelevantYears| && i < |rows|
    ensures var r, hs := TransformFrame(headers, rows), StripAll(headers);
      r.Ok? && |r.value| == |RelevantYears| * |rows| && 0 <= j * |rows| + i < |r.value|
      && r.value[j * |rows| + i] == LongRow(
        rows[i][Seqs.IndexOf(hs, MunicipalityKey)],
        rows[i][Seqs.IndexOf(hs, NetworkKey)],
        RelevantYears[j],
        Numeric.CoerceRate(rows[i][Seqs.IndexOf(hs, RateKeys[j])]))
  {
    var hs := StripAll(headers);
    var w := WorkFrame(hs, rows);
    WorkRowAt(hs, rows, j, i);
    MeltRowFrom(w, |rows|, j, i,
      rows[i][Seqs.IndexOf(hs, MunicipalityKey)], rows[i][Seqs.IndexOf(hs, NetworkKey)], rows[i][Seqs.IndexOf(hs, RateKeys[j])]);
    TransformAt(headers, rows, Melt(w).value, j * |rows| + i,
      MeltedRow(rows[i][Seqs.IndexOf(hs, MunicipalityKey)], rows[i][Seqs.IndexOf(hs, NetworkKey)], RelevantYears[j], rows[i][Seqs.IndexOf(hs, RateKeys[j])]));
  }

  /** The spreadsheet's five headers are already trimmed. */
  lemma SourceKeysStripped()
    ensures StripAll(SourceKeys) == SourceKeys
  {
    var ks := SourceKeys;
    assert forall c :: 0 <= c < |ks| ==> '!' <= ks[c][0] <= '~' && '!' <= ks[c][|ks[c]| - 1] <= '~';
    StrippedHeadersFixed(ks);
  }

  /** Headers that are already trimmed are left as they are. */
  lemma StrippedHeadersFixed(hs: seq<string>)
    requires forall c :: 0 <= c < |hs| ==> Text.IsStripped(hs[c])
    ensures StripAll(hs) == hs
  {
    forall c | 0 <= c < |hs|
      ensures StripAll(hs)[c] == hs[c]
    {
      Text.StripFixpoint(hs[c]);
    }
  }

  /**
   * On a sheet headed by exactly the five mapping keys, row `i`'s rate of
   * year `j` comes out at `j·n + i` with the row's municipality and network.
   */
  lemma SourceLayoutAt(rows: seq<seq<Cell>>, j: nat, i: nat)
    requires Rectangular(Frame(SourceKeys, rows))
    requires j < |RelevantYears| && i < |rows|
    ensures var r := TransformFrame(SourceKeys, rows);
      r.Ok? && |r.value| == |RelevantYears| * |rows| && 0 <= j * |rows| + i < |r.value|
      && r.value[j * |rows| + i] == LongRow(rows[i][0], rows[i][1], RelevantYears[j], Numeric.CoerceRate(rows[i][2 + j]))
  {
    SourceKeysStripped();
    assert Seqs.IndexOf(SourceKeys, MunicipalityKey) == 0;
    assert Seqs.IndexOf(SourceKeys, NetworkKey) == 1;
    SourceKeyIndex(j);
    TransformShape(SourceKeys, rows, j, i);
  }

  /** The rate column of year `j` is the mapping's key `2 + j`. */
  lemma SourceKeyIndex(j: nat)
    requires j < |RateKeys|
    ensures Seqs.IndexOf(SourceKeys, RateKeys[j]) == 2 + j
  {
    assert SourceKeys[2 + j] == RateKeys[j];
    var c := Seqs.IndexOf(SourceKeys, RateKeys[j]);
    if c < 2 + j {
      SourceLabelsDistinct(c, 2 + j);
    }
  }

  /**
   * A sheet without the 2021 rate column does not yield the two remaining
   * years: `melt` rejects the frame and names the missing 2021 label.
   */
  lemma MissingYearColumnFails(rows: seq<seq<Cell>>)
    requires forall i :: 0 <= i < |rows| ==> |rows[i]| == 4
    ensures TransformFrame(SourceKeys[..4], rows) == Err(MissingColumns([Year(2021)]))
  {
    var hs := SourceKeys[..4];
    FirstFourStripped();
    FirstFourMissing();
    assert SourceKeys[4] !in hs by {
      assert SourceKeys[4] in MissingKeys(SourceKeys, hs);
    }
    TransformMissing(hs, rows);
    var missing := SourceKeys[4];
    assert missing in SourceKeys && missing !in StripAll(hs);
    RelabelRateKeys();
    assert Seqs.Map(Relabel, [SourceKeys[4]]) == [Year(2021)];
  }

  lemma FirstFourStripped()
    ensures StripAll(SourceKeys[..4]) == SourceKeys[..4]
  {
    var hs := SourceKeys[..4];
    assert forall c :: 0 <= c < |hs| ==> '!' <= hs[c][0] <= '~' && '!' <= hs[c][|hs[c]| - 1] <= '~';
    StrippedHeadersFixed(hs);
  }

  /** Of the five keys, only the 2021 rate column is missing from the first four. */
  lemma FirstFourMissing()
    ensures MissingKeys(SourceKeys, SourceKeys[..4]) == [SourceKeys[4]]
  {
    var hs := SourceKeys[..4];
    assert SourceKeys[4] !in hs by {
      if SourceKeys[4] in hs {
        SourceLabelsDistinct(Seqs.IndexOf(hs, SourceKeys[4]), 4);
      }
    }
    assert SourceKeys[5..] == [];
    assert MissingKeys(SourceKeys[4..], hs) == [SourceKeys[4]];
    assert SourceKeys[3] == hs[3] && SourceKeys[3..][1..] == SourceKeys[4..];
    assert MissingKeys(SourceKeys[3..], hs) == [SourceKeys[4]];
    assert SourceKeys[2] == hs[2] && SourceKeys[2..][1..] == SourceKeys[3..];
    assert MissingKeys(SourceKeys[2..], hs) == [SourceKeys[4]];
    assert SourceKeys[1] == hs[1] && SourceKeys[1..][1..] == SourceKeys[2..];
    assert MissingKeys(SourceKeys[1..], hs) == [SourceKeys[4]];
    assert SourceKeys[0] == hs[0];
  }

  /** `melt` of a frame of `n` rows with the five final labels, at the position of row `i` of year `j`. */
  lemma MeltRowFrom(w: Frame<Label>, n: nat, j: nat, i: nat, municipio: Cell, rede: Cell, rate: Cell)
    requires Rectangular(w) && w.columns == IdVars + ValueVars && |w.rows| == n
    requires j < |RelevantYears| && i < n
    requires w.rows[i][0] == municipio && w.rows[i][1] == rede && w.rows[i][2 + j] == rate
    ensures Melt(w).Ok? && |Melt(w).value| == |RelevantYears| * n && 0 <= j * n + i < |Melt(w).value|
    ensures Melt(w).value[j * n + i] == MeltedRow(municipio, rede, RelevantYears[j], rate)
  {
    MeltCompleteAt(w, j, i);
  }

  /** Row `i` of the work frame: municipality, network, then the rate of each year in turn. */
  lemma WorkRowAt(hs: seq<string>, rows: seq<seq<Cell>>, j: nat, i: nat)
    requires Rectangular(Frame(hs, rows))
    requires forall k :: k in SourceKeys ==> k in hs
    requires j < |RelevantYears| && i < |rows|
    ensures var w := WorkFrame(hs, rows);
      && w.columns == IdVars + ValueVars && |w.rows| == |rows|
      && w.rows[i][0] == rows[i][Seqs.IndexOf(hs, MunicipalityKey)]
      && w.rows[i][1] == rows[i][Seqs.IndexOf(hs, NetworkKey)]
      && w.rows[i][2 + j] == rows[i][Seqs.IndexOf(hs, RateKeys[j])]
  {
    WorkFrameComplete(hs, rows);
    var w := WorkFrame(hs, rows);
    assert SourceKeys[0] == MunicipalityKey && SourceKeys[1] == NetworkKey && SourceKeys[2 + j] == RateKeys[j];
    assert w.rows[i][0] == rows[i][Seqs.IndexOf(hs, SourceKeys[0])];
    assert w.rows[i][1] == rows[i][Seqs.IndexOf(hs, SourceKeys[1])];
    assert w.rows[i][2 + j] == rows[i][Seqs.IndexOf(hs, SourceKeys[2 + j])];
  }

  /** The melted row `melted` at position `k` comes out of the transform at `k` with its rate cleaned and coerced. */
  lemma TransformAt(headers: seq<string>, rows: seq<seq<Cell>>, m: seq<MeltedRow>, k: int, melted: MeltedRow)
    requires Rectangular(Frame(headers, rows))
    requires Melt(WorkFrame(StripAll(headers), rows)) == Ok(m)
    requires 0 <= k < |m| && m[k] == melted
    ensures TransformFrame(headers, rows).Ok? && |TransformFrame(headers, rows).value| == |m|
    ensures TransformFrame(headers, rows).value[k] == LongRow(melted.municipio, melted.rede, melted.ano, Numeric.CoerceRate(melted.value))
  {
    TransformViaMelt(headers, rows);
    CleanedAt(m, k);
  }

  lemma CleanedAt(m: seq<MeltedRow>, k: nat)
    requires 0 <= k < |m|
    ensures |Seqs.Map(NumericRate, Seqs.Map(ReplaceRate, m))| == |m|
    ensures Seqs.Map(NumericRate, Seqs.Map(ReplaceRate, m))[k] == LongRow(m[k].municipio, m[k].rede, m[k].ano, Numeric.CoerceRate(m[k].value))
  {
  }

  /** With every mapping key present, the work frame holds the five selected columns under their final labels. */
  lemma WorkFrameComplete(hs: seq<string>, rows: seq<seq<Cell>>)
    requires Rectangular(Frame(hs, rows))
    requires forall k :: k in SourceKeys ==> k in hs
    ensures WorkFrame(hs, rows).columns == IdVars + ValueVars
    ensures forall i, c :: 0 <= i < |rows| && 0 <= c < |SourceKeys| ==>
      WorkFrame(hs, rows).rows[i][c] == rows[i][Seqs.IndexOf(hs, SourceKeys[c])]
  {
    SelectsAll(SourceKeys, hs);
    RelabelSourceKeys();
  }

  /** `melt` on a frame holding exactly the id and value columns: three blocks of `n` rows. */
  lemma MeltCompleteAt(t: Frame<Label>, j: nat, i: nat)
    requires Rectangular(t) && t.columns == IdVars + ValueVars
    requires j < |RelevantYears| && i < |t.rows|
    ensures Melt(t).Ok? && |Melt(t).value| == |RelevantYears| * |t.rows|
    ensures 0 <= j * |t.rows| + i < |Melt(t).value|
    ensures Melt(t).value[j * |t.rows| + i] == MeltedRow(t.rows[i][0], t.rows[i][1], RelevantYears[j], t.rows[i][2 + j])
  {
    MeltComplete(t);
    MeltYearsAt(t, RelevantYears, j, i);
    MeltYearComplete(t, j, i);
  }

  lemma MeltComplete(t: Frame<Label>)
    requires Rectangular(t) && t.columns == IdVars + ValueVars
    ensures forall y :: y in RelevantYears ==> Year(y) in t.columns
    ensures Melt(t) == Ok(MeltYears(t, RelevantYears))
  {
    NothingMissing(IdVars + ValueVars, t.columns);
  }

  lemma {:induction false} NothingMissing(labels: seq<Label>, columns: seq<Label>)
    requires forall l :: l in labels ==> l in columns
    ensures MissingLabels(labels, columns) == []
  {
    if labels != [] {
      NothingMissing(labels[1..], columns);
    }
  }

  lemma MeltYearComplete(t: Frame<Label>, j: nat, i: nat)
    requires Rectangular(t) && t.columns == IdVars + ValueVars
    requires j < |RelevantYears| && i < |t.rows|
    ensures Year(RelevantYears[j]) in t.columns
    ensures MeltYear(t, RelevantYears[j])[i] == MeltedRow(t.rows[i][0], t.rows[i][1], RelevantYears[j], t.rows[i][2 + j])
  {
    assert t.columns[2 + j] == Year(RelevantYears[j]);
    assert Seqs.IndexOf(t.columns, IdVars[0]) == 0;
    assert Seqs.IndexOf(t.columns, IdVars[1]) == 1;
    assert Seqs.IndexOf(t.columns, Year(RelevantYears[j])) == 2 + j;
  }

  /** When every key is present the selection keeps them all. */
  lemma {:induction false} SelectsAll(keys: seq<string>, headers: seq<string>)
    requires forall k :: k in keys ==> k in headers
    ensures SelectedKeys(keys, headers) == keys
  {
    if keys != [] {
      SelectsAll(keys[1..], headers);
    }
  }

  /** Cleaning the rate column leaves every row's year as it was. */
  lemma CleaningKeepsYears(m: seq<MeltedRow>, years: seq<int>)
    requires forall row :: row in m ==> row.ano in years
    ensures |Seqs.Map(NumericRate, Seqs.Map(ReplaceRate, m))| == |m|
    ensures forall k :: 0 <= k < |m| ==> Seqs.Map(NumericRate, Seqs.Map(ReplaceRate, m))[k].ano == m[k].ano
    ensures forall row :: row in Seqs.Map(NumericRate, Seqs.Map(ReplaceRate, m)) ==> row.ano in years
  {
    var r := Seqs.Map(NumericRate, Seqs.Map(ReplaceRate, m));
    forall k | 0 <= k < |m|
      ensures r[k].ano == m[k].ano
    {
      CleanedAt(m, k);
    }
    forall row | row in r
      ensures row.ano in years
    {
      var k :| 0 <= k < |r| && r[k] == row;
      assert m[k] in m;
    }
  }

  /**
   * A rate the spreadsheet writes in Brazilian notation reaches the long
   * table as its exact value: when row `i`'s cell under year `j`'s header
   * reads `[-]whole,frac`, the long row at `j·n + i` carries the digits'
   * value over ten to the number of fraction digits, negated after a minus.
   */
  lemma TransformDecimalAt(headers: seq<string>, rows: seq<seq<Cell>>, j: nat, i: nat,
                           negative: bool, whole: string, frac: string)
    requires Rectangular(Frame(headers, rows))
    requires forall k :: k in SourceKeys ==> k in StripAll(headers)
    requires j < |RelevantYears| && i < |rows|
    requires Numeric.AllDigits(whole) && Numeric.AllDigits(frac) && |whole| > 0
    requires rows[i][Seqs.IndexOf(StripAll(headers), RateKeys[j])] == Str(Numeric.DecimalText(negative, whole, frac))
    ensures TransformFrame(headers, rows).Ok? && 0 <= j * |rows| + i < |TransformFrame(headers, rows).value|
    ensures TransformFrame(headers, rows).value[j * |rows| + i].ano == RelevantYears[j]
    ensures TransformFrame(headers, rows).value[j * |rows| + i].taxa == Some(Numeric.DecimalValue(negative, whole, frac))
  {
    TransformShape(headers, rows, j, i);
    Numeric.DecimalTextValue(negative, whole, frac);
  }

  // ---------------------------------------------------------------------------
  // The caller's frame, whose header index `transform_data` overwrites

  class DataFrame {
    var columns: seq<string>
    var rows: seq<seq<Cell>>

    ghost predicate Valid()
      reads this
    {
      Rectangular(Frame(columns, rows))
    }

    constructor(columns: seq<string>, rows: seq<seq<Cell>>)
      requires Rectangular(Frame(columns, rows))
      ensures Valid() && this.columns == columns && this.rows == rows
    {
      this.columns := columns;
      this.rows := rows;
    }

    /** `df.columns = df.columns.str.strip()`: the headers are trimmed in place, the cells untouched. */
    method StripColumns()
      requires Valid()
      modifies this
      ensures Valid()
      ensures columns == StripAll(old(columns)) && rows == old(rows)
      ensures forall i :: 0 <= i < |columns| ==> Text.IsStripped(columns[i])
    {
      columns := StripAll(columns);
    }
  }

  /**
   * `transform_data(df)`: trims the caller's headers in place, then builds
   * the long table from the trimmed frame, or fails as `melt` does.
   */
  method TransformData(df: DataFrame) returns (r: Result<seq<LongRow>>)
    requires df.Valid()
    modifies df
    ensures df.Valid() && df.columns == StripAll(old(df.columns)) && df.rows == old(df.rows)
    ensures r == TransformFrame(old(df.columns), old(df.rows))
  {
    df.StripColumns();
    var work := WorkFrame(df.columns, df.rows);
    var melted := Melt(work);
    if melted.Err? {
      return Err(melted.error);
    }
    var long := Seqs.Map(ReplaceRate, melted.value);
    r := Ok(Seqs.Map(NumericRate, long));
  }
}
