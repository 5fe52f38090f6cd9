/**
 * The two views the charts are drawn from: the public network's rate per
 * municipality of the Baixada Santista, and the regional mean per (year,
 * network). Means are exact: `real` arithmetic, not floating point.
 */
module Views {
  import opened Values
  import Seqs
  import Text
  import opened Transform

  /** `MUNICIPALITIES_BAIXADA`: the nine municipalities of the region. */
  const MunicipalitiesBaixada: seq<string> := [
    "Cubatão", "Praia Grande", "Santos", "São Vicente", "Guarujá",
    "Bertioga", "Itanhaém", "Mongaguá", "Peruíbe"
  ]

  /** `NO_MUNICIPIO.isin(MUNICIPALITIES_BAIXADA)`: only a text cell naming one of the nine matches. */
  predicate InBaixada(row: LongRow)
  {
    row.municipio.Str? && row.municipio.s in MunicipalitiesBaixada
  }

  /** `REDE == 'Pública'`. */
  predicate OnPublicNetwork(row: LongRow)
  {
    row.rede == Str("Pública")
  }

  /** The rate is not NaN: the row survives `dropna(subset=['Taxa_Aprovacao'])`. */
  predicate HasRate(row: LongRow)
  {
    row.taxa.Some?
  }

  predicate PublicInBaixada(row: LongRow)
  {
    InBaixada(row) && OnPublicNetwork(row)
  }

  /** A row drawn in the per-municipality chart. */
  predicate ShownByMunicipality(row: LongRow)
  {
    InBaixada(row) && OnPublicNetwork(row) && HasRate(row)
  }

  /** A row that enters the per-network mean. */
  predicate ShownByNetwork(row: LongRow)
  {
    InBaixada(row) && HasRate(row)
  }

  // ---------------------------------------------------------------------------
  // The per-municipality view

  /** `filter_and_plot_municipalities`' data: the boolean mask, then `dropna` on the copy. */
  function MunicipalityView(long: seq<LongRow>): (r: seq<LongRow>)
    ensures r == Seqs.Filter(ShownByMunicipality, long)
    ensures forall row :: row in r <==>
      row in long && row.municipio.Str? && row.municipio.s in MunicipalitiesBaixada
      && row.rede == Str("Pública") && row.taxa.Some?
  {
    Seqs.FilterFilter(PublicInBaixada, HasRate, ShownByMunicipality, long);
    Seqs.Filter(HasRate, Seqs.Filter(PublicInBaixada, long))
  }

  /**
   * The view keeps exactly the public-network rows of the nine
   * municipalities that have a rate, each as often as in the long table,
   * in the long table's order.
   */
  lemma MunicipalityViewSpec(long: seq<LongRow>)
    ensures Seqs.IsSubsequence(MunicipalityView(long), long)
    ensures forall row :: multiset(MunicipalityView(long))[row] == (if ShownByMunicipality(row) then multiset(long)[row] else 0)
  {
    Seqs.FilterIsSubsequence(ShownByMunicipality, long);
    Seqs.FilterCount(ShownByMunicipality, long);
  }

  // ---------------------------------------------------------------------------
  // Grouping keys and their order

  /** A group of `groupby(['Ano', 'REDE'])`. */
  datatype GroupKey = GroupKey(ano: int, rede: Cell)

  function KeyOf(row: LongRow): GroupKey
  {
    GroupKey(row.ano, row.rede)
  }

  /** `groupby` drops rows whose key holds NaN; `Ano` never does, so only a null network drops a row. */
  predicate Grouped(row: LongRow)
  {
    !row.rede.Null?
  }

  predicate IsKey(k: GroupKey)
  {
    !k.rede.Null?
  }

  /** The sorted order of a network label: numbers first by value, then text by code points. */
  predicate CellLess(a: Cell, b: Cell)
  {
    match (a, b)
    case (Num(x), Num(y)) => x < y
    case (Num(_), Str(_)) => true
    case (Str(s), Str(t)) => Text.LexLess(s, t)
    case _ => false
  }

  /** The order of `groupby(sort=True)`: by year, then by network. */
  predicate KeyLess(a: GroupKey, b: GroupKey)
  {
    a.ano < b.ano || (a.ano == b.ano && CellLess(a.rede, b.rede))
  }

  lemma KeyLessIrreflexive(a: GroupKey)
    ensures !KeyLess(a, a)
  {
    if a.rede.Str? {
      Text.LexLessIrreflexive(a.rede.s);
    }
  }

  lemma KeyLessTransitive(a: GroupKey, b: GroupKey, c: GroupKey)
    requires KeyLess(a, b) && KeyLess(b, c)
    ensures KeyLess(a, c)
  {
    if a.ano == b.ano == c.ano && a.rede.Str? && b.rede.Str? && c.rede.Str? {
      Text.LexLessTransitive(a.rede.s, b.rede.s, c.rede.s);
    }
  }

  lemma KeyLessTotal(a: GroupKey, b: GroupKey)
    requires IsKey(a) && IsKey(b) && a != b
    ensures KeyLess(a, b) || KeyLess(b, a)
  {
    if a.ano == b.ano && a.rede.Str? && b.rede.Str? {
      Text.LexLessTotal(a.rede.s, b.rede.s);
    }
  }

  predicate StrictlySorted(ks: seq<GroupKey>)
  {
    forall i, j :: 0 <= i < j < |ks| ==> KeyLess(ks[i], ks[j])
  }

  /** Adds a key to a strictly sorted sequence of keys, keeping it strictly sorted. */
  function InsertKey(k: GroupKey, ks: seq<GroupKey>): (r: seq<GroupKey>)
    requires IsKey(k) && StrictlySorted(ks) && forall x :: x in ks ==> IsKey(x)
    ensures StrictlySorted(r)
    ensures forall x :: x in r <==> x in ks || x == k
    ensures forall x :: x in r ==> IsKey(x)
  {
    if ks == [] then [k]
    else if k == ks[0] then ks
    else if KeyLess(k, ks[0]) then
      assert forall j :: 0 <= j < |ks| ==> KeyLess(k, ks[j]) by {
        forall j | 0 <= j < |ks|
          ensures KeyLess(k, ks[j])
        {
          if j > 0 {
            KeyLessTransitive(k, ks[0], ks[j]);
          }
        }
      }
      [k] + ks
    else
      KeyLessTotal(k, ks[0]);
      var rest := InsertKey(k, ks[1..]);
      assert forall x :: x in rest ==> KeyLess(ks[0], x);
      [ks[0]] + rest
  }

  /** The set of groups: every key of a row that `groupby` keeps. */
  function KeySet(rows: seq<LongRow>): set<GroupKey>
  {
    set row | row in rows && Grouped(row) :: KeyOf(row)
  }

  lemma KeySetSnoc(rows: seq<LongRow>, row: LongRow)
    ensures KeySet(rows + [row]) == KeySet(rows) + (if Grouped(row) then {KeyOf(row)} else {})
  {
    assert forall x :: x in rows + [row] <==> x in rows || x == row;
  }

  /** The groups in `groupby`'s sorted order, each once. */
  function SortedKeys(rows: seq<LongRow>): (r: seq<GroupKey>)
    ensures StrictlySorted(r)
    ensures forall k :: k in r <==> k in KeySet(rows)
    ensures forall k :: k in r ==> IsKey(k)
  {
    if rows == [] then []
    else
      var prefix, row := rows[..|rows| - 1], rows[|rows| - 1];
      assert rows == prefix + [row];
      KeySetSnoc(prefix, row);
      if Grouped(row) then InsertKey(KeyOf(row), SortedKeys(prefix)) else SortedKeys(prefix)
  }

  // ---------------------------------------------------------------------------
  // The mean per group

  function Sum(xs: seq<real>): real
  {
    if xs == [] then 0.0 else Sum(xs[..|xs| - 1]) + xs[|xs| - 1]
  }

  /** `mean()` of a group's rates: NaN (None) when the group has no rate at all. */
  function Mean(xs: seq<real>): Option<real>
  {
    if xs == [] then None else Some(Sum(xs) / |xs| as real)
  }

  /** The reference definition of a group's rates: those of its rows, in row order, NaN skipped. */
  function GroupRates(rows: seq<LongRow>, k: GroupKey): (r: seq<real>)
    ensures |r| <= |rows|
  {
    if rows == [] then []
    else
      var row := rows[|rows| - 1];
      GroupRates(rows[..|rows| - 1], k)
        + (if Grouped(row) && KeyOf(row) == k && row.taxa.Some? then [row.taxa.value] else [])
  }

  /** One pass over the rows accumulating, per group, the sum and the count of its rates. */
  function Tally(rows: seq<LongRow>): (r: map<GroupKey, (real, nat)>)
    ensures forall k :: k in r <==> k in KeySet(rows)
  {
    if rows == [] then map[]
    else
      var t, row := Tally(rows[..|rows| - 1]), rows[|rows| - 1];
      assert rows == rows[..|rows| - 1] + [row];
      KeySetSnoc(rows[..|rows| - 1], row);
      if !Grouped(row) then t
      else
        var acc := if KeyOf(row) in t then t[KeyOf(row)] else (0.0, 0);
        t[KeyOf(row) := if row.taxa.Some? then (acc.0 + row.taxa.value, acc.1 + 1) else acc]
  }

  /** The one-pass tally holds exactly the groups, each with the sum and count of the reference rates. */
  lemma {:induction false} TallyAgrees(rows: seq<LongRow>)
    ensures forall k :: k in Tally(rows) <==> k in KeySet(rows)
    ensures forall k :: k in Tally(rows) ==> Tally(rows)[k] == (Sum(GroupRates(rows, k)), |GroupRates(rows, k)|)
  {
    if rows != [] {
      var prefix, row := rows[..|rows| - 1], rows[|rows| - 1];
      assert rows == prefix + [row];
      TallyAgrees(prefix);
      KeySetSnoc(prefix, row);
      forall k | k in Tally(rows)
        ensures Tally(rows)[k] == (Sum(GroupRates(rows, k)), |GroupRates(rows, k)|)
      {
        TallyStep(prefix, row, k);
      }
    }
  }

  /** The tally's step for one more row, on one key. */
  lemma TallyStep(prefix: seq<LongRow>, row: LongRow, k: GroupKey)
    requires forall k :: k in Tally(prefix) <==> k in KeySet(prefix)
    requires forall k :: k in Tally(prefix) ==> Tally(prefix)[k] == (Sum(GroupRates(prefix, k)), |GroupRates(prefix, k)|)
    requires k in Tally(prefix + [row])
    ensures Tally(prefix + [row])[k] == (Sum(GroupRates(prefix + [row], k)), |GroupRates(prefix + [row], k)|)
  {
    var rows := prefix + [row];
    assert rows[..|rows| - 1] == prefix && rows[|rows| - 1] == row;
    var g := GroupRates(prefix, k);
    if Grouped(row) && KeyOf(row) == k {
      if k !in Tally(prefix) {
        EmptyGroup(prefix, k);
      }
      if row.taxa.Some? {
        assert GroupRates(rows, k) == g + [row.taxa.value];
        assert (g + [row.taxa.value])[..|g|] == g;
      } else {
        assert GroupRates(rows, k) == g;
      }
    } else {
      assert GroupRates(rows, k) == g;
    }
  }

  /** A key no kept row carries has no rates. */
  lemma {:induction false} EmptyGroup(rows: seq<LongRow>, k: GroupKey)
    requires k !in KeySet(rows)
    ensures GroupRates(rows, k) == []
  {
    if rows != [] {
      var prefix, row := rows[..|rows| - 1], rows[|rows| - 1];
      assert rows == prefix + [row];
      KeySetSnoc(prefix, row);
      EmptyGroup(prefix, k);
    }
  }

  datatype MeanRow = MeanRow(ano: int, rede: Cell, mean: Option<real>)

  function MeanKey(m: MeanRow): GroupKey
  {
    GroupKey(m.ano, m.rede)
  }

  /** One result row per key, its mean read off the tally. */
  function MeanRows(ks: seq<GroupKey>, t: map<GroupKey, (real, nat)>): (r: seq<MeanRow>)
    requires forall k :: k in ks ==> k in t
    ensures |r| == |ks|
    ensures forall i :: 0 <= i < |r| ==> MeanKey(r[i]) == ks[i]
  {
    seq(|ks|, i requires 0 <= i < |ks| =>
      var acc := t[ks[i]];
      MeanRow(ks[i].ano, ks[i].rede, if acc.1 == 0 then None else Some(acc.0 / acc.1 as real)))
  }

  /** Read off a tally that agrees with the reference rates, each row holds its group's mean. */
  lemma MeanRowsMeans(rows: seq<LongRow>, ks: seq<GroupKey>)
    requires forall k :: k in ks ==> k in Tally(rows)
    ensures forall i :: 0 <= i < |ks| ==> MeanRows(ks, Tally(rows))[i].mean == Mean(GroupRates(rows, ks[i]))
  {
    TallyAgrees(rows);
  }

  /** Rows keyed by a list that holds every group once carry exactly those groups. */
  lemma MeanRowsKeys(ks: seq<GroupKey>, t: map<GroupKey, (real, nat)>, keys: set<GroupKey>)
    requires forall k :: k in ks ==> k in t
    requires forall k :: k in ks <==> k in keys
    ensures (set i | 0 <= i < |ks| :: MeanKey(MeanRows(ks, t)[i])) == keys
  {
    var r := MeanRows(ks, t);
    forall k | k in keys
      ensures k in (set i | 0 <= i < |ks| :: MeanKey(r[i]))
    {
      var i := Seqs.IndexOf(ks, k);
      assert MeanKey(r[i]) == k;
    }
  }

  /**
   * `groupby(['Ano', 'REDE'])['Taxa_Aprovacao'].mean().reset_index()`: one
   * row per group that occurs, with no duplicates, in year-then-network
   * order, each holding the mean of its group's rates.
   */
  function GroupMeans(rows: seq<LongRow>): (r: seq<MeanRow>)
    ensures forall i, j :: 0 <= i < j < |r| ==> KeyLess(MeanKey(r[i]), MeanKey(r[j]))
    ensures forall i, j :: 0 <= i < j < |r| ==> MeanKey(r[i]) != MeanKey(r[j])
    ensures (set i | 0 <= i < |r| :: MeanKey(r[i])) == KeySet(rows)
    ensures forall i :: 0 <= i < |r| ==> r[i].mean == Mean(GroupRates(rows, MeanKey(r[i])))
  {
    var ks := SortedKeys(rows);
    DistinctSortedKeys(ks);
    MeanRowsMeans(rows, ks);
    MeanRowsKeys(ks, Tally(rows), KeySet(rows));
    MeanRows(ks, Tally(rows))
  }

  /** Strictly sorted keys are pairwise distinct. */
  lemma DistinctSortedKeys(ks: seq<GroupKey>)
    requires StrictlySorted(ks)
    ensures forall i, j :: 0 <= i < j < |ks| ==> ks[i] != ks[j]
  {
    forall i, j | 0 <= i < j < |ks|
      ensures ks[i] != ks[j]
    {
      KeyLessIrreflexive(ks[i]);
    }
  }

  // ---------------------------------------------------------------------------
  // The per-network mean view

  /** `plot_mean_comparison`'s rows before grouping: the mask on the municipality, then `dropna`. */
  function NetworkRows(long: seq<LongRow>): (r: seq<LongRow>)
    ensures r == Seqs.Filter(ShownByNetwork, long)
    ensures forall row :: row in r <==>
      row in long && row.municipio.Str? && row.municipio.s in MunicipalitiesBaixada && row.taxa.Some?
  {
    Seqs.FilterFilter(InBaixada, HasRate, ShownByNetwork, long);
    Seqs.Filter(HasRate, Seqs.Filter(InBaixada, long))
  }

  /**
   * `plot_mean_comparison`'s data: one row per (year, network) pair carried
   * by a region row with a rate and a network, sorted by year then network;
   * each row's value is the arithmetic mean of that group's rates, which is
   * never NaN.
   */
  function MeanView(long: seq<LongRow>): (r: seq<MeanRow>)
    ensures forall i, j :: 0 <= i < j < |r| ==> KeyLess(MeanKey(r[i]), MeanKey(r[j]))
    ensures (set i | 0 <= i < |r| :: MeanKey(r[i]))
      == (set row | row in long && InBaixada(row) && HasRate(row) && Grouped(row) :: KeyOf(row))
    ensures forall i :: 0 <= i < |r| ==>
      |GroupRates(NetworkRows(long), MeanKey(r[i]))| > 0
      && r[i].mean == Some(Sum(GroupRates(NetworkRows(long), MeanKey(r[i]))) / |GroupRates(NetworkRows(long), MeanKey(r[i]))| as real)
  {
    var rows := NetworkRows(long);
    var r := GroupMeans(rows);
    assert KeySet(rows) == (set row | row in long && InBaixada(row) && HasRate(row) && Grouped(row) :: KeyOf(row));
    assert forall i :: 0 <= i < |r| ==> |GroupRates(rows, MeanKey(r[i]))| > 0 by {
      forall i | 0 <= i < |r|
        ensures |GroupRates(rows, MeanKey(r[i]))| > 0
      {
        assert MeanKey(r[i]) in (set i | 0 <= i < |r| :: MeanKey(r[i]));
        GroupHasRates(rows, MeanKey(r[i]));
      }
    }
    r
  }

  /** The rows grouped keep the long table's order and multiplicity. */
  lemma NetworkRowsSpec(long: seq<LongRow>)
    ensures Seqs.IsSubsequence(NetworkRows(long), long)
    ensures forall row :: multiset(NetworkRows(long))[row] == (if ShownByNetwork(row) then multiset(long)[row] else 0)
  {
    Seqs.FilterIsSubsequence(ShownByNetwork, long);
    Seqs.FilterCount(ShownByNetwork, long);
  }

  /** Every group of rows that all carry a rate has at least one rate. */
  lemma {:induction false} GroupHasRates(rows: seq<LongRow>, k: GroupKey)
    requires forall row :: row in rows ==> row.taxa.Some?
    requires k in KeySet(rows)
    ensures |GroupRates(rows, k)| > 0
  {
    var prefix, row := rows[..|rows| - 1], rows[|rows| - 1];
    assert rows == prefix + [row];
    KeySetSnoc(prefix, row);
    if !(Grouped(row) && KeyOf(row) == k) {
      GroupHasRates(prefix, k);
    }
  }
}
