/**
  The non-presentation logic of the Streamlit dashboard
  (Enlurb2024/streamlitdash.py): the four-way selection filter, the three
  KPIs, the `groupby(...).size()` tables, the two top-10 rankings, the
  weekday-name table and the monthly attended share. Widgets and charts only
  display these values; `Render` gathers them into one view model.
*/
module Dashboard {
  import opened Order
  import opened Seqs
  import opened Frames
  import opened Grouping
  import opened Tratamento

  const Bairro := "BAIRRO"
  const ServicoDescricao := "SERVICO_DESCRICAO"
  const Atendida := Text("ATENDIDA")

  /** The columns the four multiselects and the filter read (lines 32-44). */
  const SelectionColumns: seq<string> := [GrupoServico, Zona, Mes, Situacao]

  /** The further columns the KPIs, charts and rankings read. */
  const ChartColumns: seq<string> := [DiferencaDias, DiaSemana, Bairro, ServicoDescricao]

  // ---------------------------------------------------------------------------
  // The selection filter

  /** The values chosen in the four sidebar multiselects. */
  datatype Selection = Selection(groups: set<Cell>, zones: set<Cell>, months: set<Cell>, statuses: set<Cell>)

  predicate Selected(sel: Selection, r: Row)
  {
    && Get(r, GrupoServico) in sel.groups
    && Get(r, Zona) in sel.zones
    && Get(r, Mes) in sel.months
    && Get(r, Situacao) in sel.statuses
  }

  function SelectedBy(sel: Selection): Row -> bool
  {
    r => Selected(sel, r)
  }

  /** `filtered_df`: the rows whose group, zone, month and status are each
      selected, in table order, each row unchanged. */
  function FilterView(f: Frame, sel: Selection): (v: Frame)
    requires WellFormed(f) && HasColumns(f, SelectionColumns)
    ensures WellFormed(v) && v.columns == f.columns
    ensures forall r :: r in v.rows <==> r in f.rows && Selected(sel, r)
    ensures Subseq(v.rows, f.rows)
    ensures forall r :: multiset(v.rows)[r] == if Selected(sel, r) then multiset(f.rows)[r] else 0
  {
    var v := Where(f, SelectedBy(sel));
    assert v.rows == Filter(f.rows, SelectedBy(sel));
    v
  }

  /** The multiselect defaults: every value the column holds (`unique()`). */
  function DefaultSelection(f: Frame): Selection
  {
    Selection(ColumnValues(f, GrupoServico), ColumnValues(f, Zona), ColumnValues(f, Mes),
              ColumnValues(f, Situacao))
  }

  /** With the default selections nothing is filtered out. */
  lemma DefaultSelectionKeepsAll(f: Frame)
    requires WellFormed(f) && HasColumns(f, SelectionColumns)
    ensures FilterView(f, DefaultSelection(f)) == f
  {
    var sel := DefaultSelection(f);
    forall i | 0 <= i < |f.rows| ensures SelectedBy(sel)(f.rows[i]) {
      var r := f.rows[i];
      assert Get(r, GrupoServico) in sel.groups;
      assert Get(r, Zona) in sel.zones;
      assert Get(r, Mes) in sel.months;
      assert Get(r, Situacao) in sel.statuses;
    }
    FilterKeepsAll(f.rows, SelectedBy(sel));
    assert FilterView(f, sel).rows == Filter(f.rows, SelectedBy(sel));
  }

  predicate Narrower(a: Selection, b: Selection)
  {
    a.groups <= b.groups && a.zones <= b.zones && a.months <= b.months && a.statuses <= b.statuses
  }

  /** Deselecting values only removes rows from the view. */
  lemma NarrowerSelectionSubseq(f: Frame, a: Selection, b: Selection)
    requires WellFormed(f) && HasColumns(f, SelectionColumns) && Narrower(a, b)
    ensures Subseq(FilterView(f, a).rows, FilterView(f, b).rows)
  {
    var pa := SelectedBy(a);
    var pb := SelectedBy(b);
    FilterFilter(f.rows, pb, pa, pa);
    assert FilterView(f, a).rows == Filter(f.rows, pa);
    assert FilterView(f, b).rows == Filter(f.rows, pb);
    FilterIsSubseq(Filter(f.rows, pb), pa);
  }

  // ---------------------------------------------------------------------------
  // KPIs

  predicate IsAttended(r: Row)
  {
    Get(r, Situacao) == Atendida
  }

  /** `c` out of `t` as a percentage, 0 when there is nothing to count. */
  function Ratio(c: nat, t: nat): (p: real)
    requires c <= t
    ensures 0.0 <= p <= 100.0
    ensures p == 100.0 <==> 0 < t && c == t
    ensures p == 0.0 <==> c == 0
  {
    if t > 0 then
      var q := 100.0 * (c as real) / (t as real);
      RatioBounds(q, c as real, t as real);
      q
    else 0.0
  }

  lemma RatioBounds(q: real, c: real, t: real)
    requires 0.0 <= c <= t && 0.0 < t
    requires q == 100.0 * c / t
    ensures 0.0 <= q <= 100.0
    ensures q == 100.0 <==> c == t
    ensures q == 0.0 <==> c == 0.0
  {
    assert q * t == 100.0 * c;
    assert (100.0 - q) * t == 100.0 * (t - c);
  }

  /** `% Atendida`: the share of rows whose status is ATENDIDA, as a
      percentage, and 0 for an empty view. It is 100 exactly when the view is
      non-empty and all of it is attended, 0 exactly when none of it is. */
  function PercentAttended(rows: seq<Row>): (p: real)
    ensures 0.0 <= p <= 100.0
    ensures p == 100.0 <==> |rows| > 0 && forall i :: 0 <= i < |rows| ==> IsAttended(rows[i])
    ensures p == 0.0 <==> forall i :: 0 <= i < |rows| ==> !IsAttended(rows[i])
  {
    FilterCount(rows, IsAttended);
    Ratio(|Filter(rows, IsAttended)|, |rows|)
  }

  /** A mean that pandas may report as NaN (no value to average). */
  datatype Mean = Value(v: real) | NaN

  predicate HasElapsed(r: Row)
  {
    Get(r, DiferencaDias).Int?
  }

  /** The non-missing DIFERENCA_DIAS values, in row order: the k-th is that
      of the k-th row having one, so each value occurs as often as rows hold
      it. */
  function ElapsedValues(rows: seq<Row>): (xs: seq<int>)
    ensures |xs| == |Filter(rows, HasElapsed)|
    ensures forall k :: 0 <= k < |xs| ==> Int(xs[k]) == Get(Filter(rows, HasElapsed)[k], DiferencaDias)
    ensures forall x :: x in xs <==> exists i :: 0 <= i < |rows| && Get(rows[i], DiferencaDias) == Int(x)
  {
    var present := Filter(rows, HasElapsed);
    var xs := IntsOf(present);
    forall x ensures x in xs <==> exists i :: 0 <= i < |rows| && Get(rows[i], DiferencaDias) == Int(x) {
      ElapsedMember(rows, present, x);
    }
    xs
  }

  /** The DIFERENCA_DIAS integers of rows that all carry one. */
  function IntsOf(present: seq<Row>): (xs: seq<int>)
    requires forall k :: 0 <= k < |present| ==> HasElapsed(present[k])
    ensures |xs| == |present|
    ensures forall k :: 0 <= k < |present| ==> Int(xs[k]) == Get(present[k], DiferencaDias)
  {
    seq(|present|, k requires 0 <= k < |present| && HasElapsed(present[k]) => Get(present[k], DiferencaDias).i)
  }

  lemma ElapsedMember(rows: seq<Row>, present: seq<Row>, x: int)
    requires present == Filter(rows, HasElapsed)
    ensures x in IntsOf(present) <==> exists i :: 0 <= i < |rows| && Get(rows[i], DiferencaDias) == Int(x)
  {
    if x in IntsOf(present) {
      ElapsedFromRow(rows, present, x);
    }
    if exists i :: 0 <= i < |rows| && Get(rows[i], DiferencaDias) == Int(x) {
      var i :| 0 <= i < |rows| && Get(rows[i], DiferencaDias) == Int(x);
      ElapsedToValue(rows, present, i);
    }
  }

  lemma ElapsedFromRow(rows: seq<Row>, present: seq<Row>, x: int)
    requires present == Filter(rows, HasElapsed)
    requires x in IntsOf(present)
    ensures exists i :: 0 <= i < |rows| && Get(rows[i], DiferencaDias) == Int(x)
  {
    var xs := IntsOf(present);
    var k :| 0 <= k < |xs| && xs[k] == x;
    var r := present[k];
    assert Get(r, DiferencaDias) == Int(x);
    assert r in rows;
    var i := FirstIndex(rows, r);
  }

  lemma ElapsedToValue(rows: seq<Row>, present: seq<Row>, i: int)
    requires present == Filter(rows, HasElapsed)
    requires 0 <= i < |rows| && HasElapsed(rows[i])
    ensures Get(rows[i], DiferencaDias).i in IntsOf(present)
  {
    assert rows[i] in present;
    var k := FirstIndex(present, rows[i]);
    assert IntsOf(present)[k] == Get(rows[i], DiferencaDias).i;
  }

  function Sum(xs: seq<int>): int
  {
    if |xs| == 0 then 0 else xs[0] + Sum(xs[1..])
  }

  function MinOf(xs: seq<int>): (m: int)
    requires |xs| > 0
    ensures m in xs && forall x :: x in xs ==> m <= x
  {
    if |xs| == 1 then xs[0]
    else
      var rest := MinOf(xs[1..]);
      assert forall x :: x in xs ==> x == xs[0] || x in xs[1..];
      if xs[0] <= rest then xs[0] else rest
  }

  function MaxOf(xs: seq<int>): (m: int)
    requires |xs| > 0
    ensures m in xs && forall x :: x in xs ==> x <= m
  {
    if |xs| == 1 then xs[0]
    else
      var rest := MaxOf(xs[1..]);
      assert forall x :: x in xs ==> x == xs[0] || x in xs[1..];
      if xs[0] >= rest then xs[0] else rest
  }

  /** The sum of `n` values lies between `n` times the smallest and `n`
      times the largest of them. */
  lemma {:induction false} SumBetween(xs: seq<int>, lo: int, hi: int)
    requires forall x :: x in xs ==> lo <= x <= hi
    ensures |xs| * lo <= Sum(xs) <= |xs| * hi
  {
    if |xs| > 0 {
      var rest := xs[1..];
      assert forall x :: x in rest ==> x in xs;
      assert lo <= xs[0] <= hi by { assert xs[0] in xs; }
      SumBetween(rest, lo, hi);
      assert Sum(xs) == xs[0] + Sum(rest);
      Distrib(|rest|, lo);
      Distrib(|rest|, hi);
    }
  }

  lemma Distrib(n: nat, a: int)
    ensures (n + 1) * a == n * a + a
  {
  }

  lemma MeanBetween(s: int, n: nat, lo: int, hi: int)
    requires n > 0 && n * lo <= s <= n * hi
    ensures lo as real <= (s as real) / (n as real) <= hi as real
  {
    var q := (s as real) / (n as real);
    assert q * (n as real) == s as real;
    assert (n as real) * (lo as real) <= s as real;
  }

  lemma MeanWithin(rows: seq<Row>, xs: seq<int>)
    requires xs == ElapsedValues(rows) && |xs| > 0
    ensures exists i :: (0 <= i < |rows| && HasElapsed(rows[i])
      && Get(rows[i], DiferencaDias).i as real <= (Sum(xs) as real) / (|xs| as real))
    ensures exists j :: (0 <= j < |rows| && HasElapsed(rows[j])
      && Get(rows[j], DiferencaDias).i as real >= (Sum(xs) as real) / (|xs| as real))
  {
    var lo, hi := MinOf(xs), MaxOf(xs);
    SumBetween(xs, lo, hi);
    MeanBetween(Sum(xs), |xs|, lo, hi);
    var i :| 0 <= i < |rows| && Get(rows[i], DiferencaDias) == Int(lo);
    var j :| 0 <= j < |rows| && Get(rows[j], DiferencaDias) == Int(hi);
    assert HasElapsed(rows[i]) && HasElapsed(rows[j]);
  }

  /** `Tempo Médio`: 0 for an empty view; otherwise the mean of the present
      DIFERENCA_DIAS values (pandas skips NaN), which is NaN when none is
      present and otherwise lies between the smallest and largest of them. */
  function MeanDays(rows: seq<Row>): (m: Mean)
    ensures |rows| == 0 ==> m == Value(0.0)
    ensures m == NaN <==> |rows| > 0 && forall i :: 0 <= i < |rows| ==> !HasElapsed(rows[i])
    ensures |rows| > 0 && m.Value? ==>
      && (exists i :: 0 <= i < |rows| && HasElapsed(rows[i]) && Get(rows[i], DiferencaDias).i as real <= m.v)
      && (exists j :: 0 <= j < |rows| && HasElapsed(rows[j]) && Get(rows[j], DiferencaDias).i as real >= m.v)
  {
    FilterCount(rows, HasElapsed);
    if |rows| == 0 then Value(0.0)
    else
      var xs := ElapsedValues(rows);
      if |xs| == 0 then NaN
      else
        MeanWithin(rows, xs);
        Value((Sum(xs) as real) / (|xs| as real))
  }

  // ---------------------------------------------------------------------------
  // Group tables

  /** The cells of the grouping columns of one row. */
  function RowKey(r: Row, cols: seq<string>): (k: Key)
    ensures |k| == |cols|
  {
    seq(|cols|, j requires 0 <= j < |cols| => Get(r, cols[j]))
  }

  function HasKey(cols: seq<string>, k: Key): Row -> bool
  {
    r => RowKey(r, cols) == k
  }

  function AttendedWithKey(cols: seq<string>, k: Key): Row -> bool
  {
    r => RowKey(r, cols) == k && IsAttended(r)
  }

  function KeysOf(rows: seq<Row>, cols: seq<string>): (ks: seq<Key>)
    ensures |ks| == |rows|
    ensures forall i :: 0 <= i < |rows| ==> ks[i] == RowKey(rows[i], cols)
  {
    seq(|rows|, i requires 0 <= i < |rows| => RowKey(rows[i], cols))
  }

  /** `groupby(cols).size()`. */
  function CountBy(rows: seq<Row>, cols: seq<string>): seq<Group>
  {
    GroupSizes(KeysOf(rows, cols))
  }

  /** A group's size is the number of rows carrying its key. */
  lemma {:induction false} KeyCount(rows: seq<Row>, cols: seq<string>, k: Key)
    ensures multiset(KeysOf(rows, cols))[k] == |Filter(rows, HasKey(cols, k))|
  {
    if |rows| > 0 {
      KeyCount(rows[1..], cols, k);
      KeysOfStep(rows, cols, k);
      var h := HasKey(cols, k);
      assert |Filter(rows, h)| == (if h(rows[0]) then 1 else 0) + |Filter(rows[1..], h)|;
    }
  }

  lemma KeysOfStep(rows: seq<Row>, cols: seq<string>, k: Key)
    requires |rows| > 0
    ensures multiset(KeysOf(rows, cols))[k] ==
      (if RowKey(rows[0], cols) == k then 1 else 0) + multiset(KeysOf(rows[1..], cols))[k]
  {
    var ks := KeysOf(rows, cols);
    assert ks == [ks[0]] + KeysOf(rows[1..], cols);
  }

  /** `gs` is the `groupby(cols).size()` table of `rows`: keys in ascending
      order, none with a missing part, each with the number of rows carrying
      it (at least one), and every complete key of a row listed. */
  ghost predicate SizeTable(rows: seq<Row>, cols: seq<string>, gs: seq<Group>)
  {
    && (forall i, j :: 0 <= i < j < |gs| ==> KeyLess(gs[i].key, gs[j].key))
    && (forall i :: 0 <= i < |gs| ==>
          && Complete(gs[i].key)
          && gs[i].size == |Filter(rows, HasKey(cols, gs[i].key))| > 0)
    && (forall i :: 0 <= i < |rows| && Complete(RowKey(rows[i], cols)) ==>
          exists g :: g in gs && g.key == RowKey(rows[i], cols))
  }

  /** The size tables of lines 62, 70, 77 and 101 are size tables. */
  lemma CountByFacts(rows: seq<Row>, cols: seq<string>)
    ensures SizeTable(rows, cols, CountBy(rows, cols))
  {
    var gs := CountBy(rows, cols);
    forall i | 0 <= i < |gs| ensures gs[i].size == |Filter(rows, HasKey(cols, gs[i].key))| {
      KeyCount(rows, cols, gs[i].key);
    }
    forall i | 0 <= i < |rows| && Complete(RowKey(rows[i], cols))
      ensures exists g :: g in gs && g.key == RowKey(rows[i], cols)
    {
      assert KeysOf(rows, cols)[i] == RowKey(rows[i], cols);
      var j :| 0 <= j < |gs| && gs[j].key == RowKey(rows[i], cols);
      assert gs[j] in gs;
    }
  }

  function ByMonth(rows: seq<Row>): seq<Group>
  {
    CountBy(rows, [Mes])
  }

  function ByZone(rows: seq<Row>): seq<Group>
  {
    CountBy(rows, [Zona])
  }

  lemma CompleteSingle(r: Row, c: string)
    ensures Complete(RowKey(r, [c])) <==> Get(r, c) != Null
  {
    assert RowKey(r, [c]) == [Get(r, c)];
  }

  /** Where no row lacks a zone, the zone counts add up to the whole view. */
  lemma ZoneCountsSumToTotal(rows: seq<Row>)
    requires forall i :: 0 <= i < |rows| ==> Get(rows[i], Zona) != Null
    ensures SumSizes(ByZone(rows)) == |rows|
    ensures forall g :: g in ByZone(rows) ==> g.size > 0
  {
    var ks := KeysOf(rows, [Zona]);
    forall i | 0 <= i < |ks| ensures Complete(ks[i]) {
      CompleteSingle(rows[i], Zona);
    }
    FilterKeepsAll(ks, Complete);
    GroupSizesTotal(ks);
  }

  /** The pipeline's output has the four selection columns; it has every
      column the page reads when the loaded table has BAIRRO and
      SERVICO_DESCRICAO, which the pipeline carries through. */
  lemma PipelineFeedsPage(f: Frame)
    requires ParsedTable(f)
    ensures HasColumns(TratamentoDados(f), SelectionColumns)
    ensures Bairro in f.columns && ServicoDescricao in f.columns ==>
      HasColumns(TratamentoDados(f), ChartColumns)
  {
    var cols := TratamentoDados(f).columns;
    ReadColumnsKept(f);
    AddedColumnsPresent(f);
    SelectionPresent(cols);
    if Bairro in f.columns && ServicoDescricao in f.columns {
      PageColumnsKept(f);
      ChartPresent(cols);
    }
  }

  lemma SelectionPresent(cols: seq<string>)
    requires GrupoServico in cols && Situacao in cols
    requires forall k :: 0 <= k < |Added| ==> Added[k] in cols
    ensures forall k :: 0 <= k < |SelectionColumns| ==> SelectionColumns[k] in cols
  {
    assert Zona == Added[5] && Mes == Added[1];
  }

  lemma ChartPresent(cols: seq<string>)
    requires Bairro in cols && ServicoDescricao in cols
    requires forall k :: 0 <= k < |Added| ==> Added[k] in cols
    ensures forall k :: 0 <= k < |ChartColumns| ==> ChartColumns[k] in cols
  {
    assert DiferencaDias == Added[0] && DiaSemana == Added[4];
  }

  lemma ReadColumnsKept(f: Frame)
    requires ParsedTable(f)
    ensures GrupoServico in TratamentoDados(f).columns && Situacao in TratamentoDados(f).columns
  {
    assert GrupoServico == Read[3] && Situacao == Read[4];
    assert GrupoServico !in Unneeded && Situacao !in Unneeded;
  }

  lemma AddedColumnsPresent(f: Frame)
    requires ParsedTable(f)
    ensures forall k :: 0 <= k < |Added| ==> Added[k] in TratamentoDados(f).columns
  {
    assert forall k :: 0 <= k < |Added| ==> Added[k] in Added;
  }

  lemma PageColumnsKept(f: Frame)
    requires ParsedTable(f) && Bairro in f.columns && ServicoDescricao in f.columns
    ensures Bairro in TratamentoDados(f).columns && ServicoDescricao in TratamentoDados(f).columns
  {
    assert Bairro !in Unneeded && ServicoDescricao !in Unneeded;
  }

  /** On the pipeline's output every row has a zone, so whatever the
      selection, the zone table accounts for every row of the view. */
  lemma DashboardZoneTotal(f: Frame, sel: Selection)
    requires ParsedTable(f)
    ensures HasColumns(TratamentoDados(f), SelectionColumns)
    ensures var v := FilterView(TratamentoDados(f), sel);
      SumSizes(ByZone(v.rows)) == |v.rows|
  {
    var out := TratamentoDados(f);
    PipelineFeedsPage(f);
    var v := FilterView(out, sel);
    TratamentoRows(f);
    forall i | 0 <= i < |v.rows| ensures Get(v.rows[i], Zona) != Null {
      assert v.rows[i] in out.rows;
      var k :| 0 <= k < |out.rows| && out.rows[k] == v.rows[i];
      assert OutputRow(out.rows[k]);
    }
    ZoneCountsSumToTotal(v.rows);
  }

  /** Line 77: the ten neighbourhoods with most requests. */
  function TopBairros(rows: seq<Row>): seq<Group>
  {
    TopN(CountBy(rows, [Bairro]), 10)
  }

  /** Line 101: the ten (group, service) pairs with most requests. */
  function TopServices(rows: seq<Row>): seq<Group>
  {
    TopN(CountBy(rows, [GrupoServico, ServicoDescricao]), 10)
  }

  /** A top-10 ranking over the view: at most ten entries, largest first,
      each one a group of the table whose count is the true number of rows
      with that key. */
  lemma TopTenSizes(rows: seq<Row>, cols: seq<string>)
    ensures var top := TopN(CountBy(rows, cols), 10);
      && |top| <= 10
      && NonIncreasing(top)
      && (forall t :: t in top ==> t in CountBy(rows, cols))
      && (forall t :: t in top ==> t.size == |Filter(rows, HasKey(cols, t.key))| > 0)
  {
    var gs := CountBy(rows, cols);
    var top := TopN(gs, 10);
    CountByFacts(rows, cols);
    forall t | t in top ensures t in gs {
      assert t in multiset(top);
    }
  }

  /** A key left out of a top-10 ranking: the ranking is full, and the key
      has no more rows than any key shown. */
  lemma TopTenOmitted(rows: seq<Row>, cols: seq<string>, i: int)
    requires 0 <= i < |rows| && Complete(RowKey(rows[i], cols))
    requires forall t :: t in TopN(CountBy(rows, cols), 10) ==> t.key != RowKey(rows[i], cols)
    ensures |TopN(CountBy(rows, cols), 10)| == 10
    ensures forall t :: t in TopN(CountBy(rows, cols), 10) ==>
      |Filter(rows, HasKey(cols, RowKey(rows[i], cols)))| <= t.size
  {
    var gs := CountBy(rows, cols);
    var top := TopN(gs, 10);
    CountByFacts(rows, cols);
    var g :| g in gs && g.key == RowKey(rows[i], cols);
    assert g !in top;
    var j :| 0 <= j < |gs| && gs[j] == g;
    assert g.size == |Filter(rows, HasKey(cols, RowKey(rows[i], cols)))|;
  }

  /** `top` is a top-10 ranking of `rows` by `cols`: at most ten entries,
      no key twice, largest first, each a complete key with its true number
      of rows; a complete key of the view left out of it makes the ranking
      full and has no more rows than any key shown. */
  ghost predicate Ranking(rows: seq<Row>, cols: seq<string>, top: seq<Group>)
  {
    && |top| <= 10
    && Distinct(KeysOfGroups(top))
    && NonIncreasing(top)
    && (forall t :: t in top ==> Complete(t.key) && t.size == |Filter(rows, HasKey(cols, t.key))| > 0)
    && (forall i :: 0 <= i < |rows| && Complete(RowKey(rows[i], cols)) && RowKey(rows[i], cols) !in KeysOfGroups(top) ==>
          && |top| == 10
          && forall t :: t in top ==> |Filter(rows, HasKey(cols, RowKey(rows[i], cols)))| <= t.size)
  }

  /** The rankings of lines 77 and 101 are top-10 rankings. */
  lemma TopTenRanking(rows: seq<Row>, cols: seq<string>)
    ensures Ranking(rows, cols, TopN(CountBy(rows, cols), 10))
  {
    var top := TopN(CountBy(rows, cols), 10);
    TopTenSizes(rows, cols);
    CountByFacts(rows, cols);
    TopTenDistinct(rows, cols);
    TopTenOmittedAll(rows, cols);
  }

  /** Every complete key the ranking leaves out loses to all ten shown. */
  lemma TopTenOmittedAll(rows: seq<Row>, cols: seq<string>)
    ensures var top := TopN(CountBy(rows, cols), 10);
      forall i :: 0 <= i < |rows| && Complete(RowKey(rows[i], cols)) && RowKey(rows[i], cols) !in KeysOfGroups(top) ==>
        && |top| == 10
        && forall t :: t in top ==> |Filter(rows, HasKey(cols, RowKey(rows[i], cols)))| <= t.size
  {
    var top := TopN(CountBy(rows, cols), 10);
    forall i | 0 <= i < |rows| && Complete(RowKey(rows[i], cols)) && RowKey(rows[i], cols) !in KeysOfGroups(top)
      ensures |top| == 10
      ensures forall t :: t in top ==> |Filter(rows, HasKey(cols, RowKey(rows[i], cols)))| <= t.size
    {
      forall t | t in top ensures t.key != RowKey(rows[i], cols) {
        var j :| 0 <= j < |top| && top[j] == t;
        assert KeysOfGroups(top)[j] == t.key;
      }
      TopTenOmitted(rows, cols, i);
    }
  }

  /** A top-10 ranking names each key at most once. */
  lemma TopTenDistinct(rows: seq<Row>, cols: seq<string>)
    ensures Distinct(KeysOfGroups(TopN(CountBy(rows, cols), 10)))
  {
    CountByFacts(rows, cols);
    SortedKeysDistinct(CountBy(rows, cols));
    TopNDistinctKeys(CountBy(rows, cols), 10);
  }

  // ---------------------------------------------------------------------------
  // Weekday names

  /** `dia_semana_map`, indexed by `Series.dt.dayofweek` (0 = Monday). */
  const DayNames: seq<string> := ["Segunda", "Terça", "Quarta", "Quinta", "Sexta", "Sábado", "Domingo"]

  /** `DIA_SEMANA.map(dia_semana_map)`: an index outside the map gives NaN. */
  function DayNameCell(c: Cell): (d: Cell)
    ensures d.Null? <==> !(c.Int? && 0 <= c.i < 7)
    ensures d.Text? ==> d.s in DayNames
  {
    if c.Int? && 0 <= c.i < |DayNames| then Text(DayNames[c.i]) else Null
  }

  /** The name map is total and one-to-one on 0..6 and nothing else has a name. */
  lemma DayNameTotalInjective()
    ensures forall w :: 0 <= w < 7 <==> DayNameCell(Int(w)).Text?
    ensures forall v, w :: 0 <= v < 7 && 0 <= w < 7 && DayNameCell(Int(v)) == DayNameCell(Int(w)) ==> v == w
  {
    assert Distinct(DayNames);
  }

  /** Line 87: requests per weekday name, keyed and ordered by the name. */
  function ByWeekday(rows: seq<Row>): seq<Group>
  {
    GroupSizes(WeekdayKeys(rows))
  }

  function WeekdayKeys(rows: seq<Row>): (ks: seq<Key>)
    ensures |ks| == |rows|
    ensures forall i :: 0 <= i < |rows| ==> ks[i] == [DayNameCell(Get(rows[i], DiaSemana))]
  {
    seq(|rows|, i requires 0 <= i < |rows| => [DayNameCell(Get(rows[i], DiaSemana))])
  }

  /** Every named weekday key is one of the seven. */
  lemma NamedKeyInOrder(c: Cell)
    requires Complete([DayNameCell(c)])
    ensures [DayNameCell(c)] in NameOrder
  {
    assert DayNameCell(c) != Null;
    var w := c.i;
    if w == 0 { assert [DayNameCell(c)] == NameOrder[3]; }
    else if w == 1 { assert [DayNameCell(c)] == NameOrder[6]; }
    else if w == 2 { assert [DayNameCell(c)] == NameOrder[1]; }
    else if w == 3 { assert [DayNameCell(c)] == NameOrder[2]; }
    else if w == 4 { assert [DayNameCell(c)] == NameOrder[4]; }
    else if w == 5 { assert [DayNameCell(c)] == NameOrder[5]; }
    else { assert [DayNameCell(c)] == NameOrder[0]; }
  }

  /** Each of the seven keys is the name of some weekday index. */
  lemma OrderKeyNamed(k: nat) returns (w: int)
    requires k < 7
    ensures 0 <= w < 7 && NameOrder[k] == [DayNameCell(Int(w))]
  {
    w := [6, 2, 3, 0, 4, 5, 1][k];
  }

  /** The order the weekday table comes out in when every day occurs:
      alphabetical, so Sunday first and Tuesday last, not Monday to Sunday. */
  const NameOrder: seq<Key> :=
    [[Text("Domingo")], [Text("Quarta")], [Text("Quinta")], [Text("Segunda")],
     [Text("Sexta")], [Text("Sábado")], [Text("Terça")]]

  lemma NameOrderSorted()
    ensures StrictlySorted(NameOrder, KeyLess)
  {
    KeyLessStrictTotal();
    assert KeyLess(NameOrder[0], NameOrder[1]);
    assert KeyLess(NameOrder[1], NameOrder[2]);
    assert KeyLess(NameOrder[2], NameOrder[3]);
    assert KeyLess(NameOrder[3], NameOrder[4]);
    assert KeyLess(NameOrder[4], NameOrder[5]);
    assert KeyLess(NameOrder[5], NameOrder[6]);
    AdjacentSorted(NameOrder, KeyLess);
  }

  lemma {:induction false} AdjacentSorted<T(!new)>(s: seq<T>, less: (T, T) -> bool)
    requires Transitive(less)
    requires forall i :: 0 <= i < |s| - 1 ==> less(s[i], s[i + 1])
    ensures StrictlySorted(s, less)
  {
    if |s| > 1 {
      AdjacentSorted(s[1..], less);
      forall j | 1 <= j < |s| ensures less(s[0], s[j]) {
        if j > 1 {
          assert less(s[0], s[1]) && less(s[1], s[j]);
        }
      }
    }
  }

  lemma WeekdayKeysAreNames(rows: seq<Row>)
    requires forall w :: 0 <= w < 7 ==> exists i :: 0 <= i < |rows| && Get(rows[i], DiaSemana) == Int(w)
    ensures forall x :: x in KeysOfGroups(ByWeekday(rows)) <==> x in NameOrder
  {
    forall x | x in KeysOfGroups(ByWeekday(rows)) ensures x in NameOrder {
      KeyIsName(rows, x);
    }
    forall x | x in NameOrder ensures x in KeysOfGroups(ByWeekday(rows)) {
      NameIsKey(rows, x);
    }
  }

  lemma KeyIsName(rows: seq<Row>, x: Key)
    requires x in KeysOfGroups(ByWeekday(rows))
    ensures x in NameOrder
  {
    var gs := ByWeekday(rows);
    var i :| 0 <= i < |gs| && KeysOfGroups(gs)[i] == x;
    var n :| 0 <= n < |rows| && WeekdayKeys(rows)[n] == x;
    NamedKeyInOrder(Get(rows[n], DiaSemana));
  }

  lemma NameIsKey(rows: seq<Row>, x: Key)
    requires forall w :: 0 <= w < 7 ==> exists i :: 0 <= i < |rows| && Get(rows[i], DiaSemana) == Int(w)
    requires x in NameOrder
    ensures x in KeysOfGroups(ByWeekday(rows))
  {
    var gs := ByWeekday(rows);
    var k :| 0 <= k < 7 && NameOrder[k] == x;
    var w := OrderKeyNamed(k);
    var n :| 0 <= n < |rows| && Get(rows[n], DiaSemana) == Int(w);
    assert WeekdayKeys(rows)[n] == x && Complete(x);
    assert x in WeekdayKeys(rows);
    var i :| 0 <= i < |gs| && gs[i].key == x;
    assert KeysOfGroups(gs)[i] == x;
  }

  /** When all seven weekdays occur, the table lists them by name:
      Domingo, Quarta, Quinta, Segunda, Sexta, Sábado, Terça. */
  lemma WeekdayTableOrder(rows: seq<Row>)
    requires forall w :: 0 <= w < 7 ==> exists i :: 0 <= i < |rows| && Get(rows[i], DiaSemana) == Int(w)
    ensures |ByWeekday(rows)| == 7
    ensures forall k :: 0 <= k < 7 ==> ByWeekday(rows)[k].key == NameOrder[k]
  {
    var gs := ByWeekday(rows);
    var ks := KeysOfGroups(gs);
    KeyLessStrictTotal();
    NameOrderSorted();
    WeekdayKeysAreNames(rows);
    StrictlySortedUnique(ks, NameOrder, KeyLess);
  }

  // ---------------------------------------------------------------------------
  // Attended share per month

  datatype MonthRate = MonthRate(key: Key, percent: real)

  /** Line 94: for each month of the month table, the attended percentage of
      that month's rows. */
  function PercentByMonth(rows: seq<Row>): (ps: seq<MonthRate>)
    ensures |ps| == |ByMonth(rows)|
    ensures forall i :: 0 <= i < |ps| ==>
      && ps[i].key == ByMonth(rows)[i].key
      && 0.0 <= ps[i].percent <= 100.0
  {
    var gs := ByMonth(rows);
    seq(|gs|, i requires 0 <= i < |gs| => MonthRate(gs[i].key, PercentAttended(Filter(rows, HasKey([Mes], gs[i].key)))))
  }

  lemma AttendedInMonth(rows: seq<Row>, k: Key)
    ensures Filter(Filter(rows, HasKey([Mes], k)), IsAttended) == Filter(rows, AttendedWithKey([Mes], k))
  {
    FilterFilter(rows, HasKey([Mes], k), IsAttended, AttendedWithKey([Mes], k));
  }

  lemma PercentAttendedValue(rows: seq<Row>)
    ensures PercentAttended(rows) == Ratio(|Filter(rows, IsAttended)|, |rows|)
  {
  }

  lemma MonthPercent(rows: seq<Row>, k: Key, size: nat)
    requires size == |Filter(rows, HasKey([Mes], k))| > 0
    ensures |Filter(rows, AttendedWithKey([Mes], k))| <= size
    ensures PercentAttended(Filter(rows, HasKey([Mes], k))) == Ratio(|Filter(rows, AttendedWithKey([Mes], k))|, size)
  {
    var m := Filter(rows, HasKey([Mes], k));
    AttendedInMonth(rows, k);
    PercentAttendedValue(m);
  }

  /** Each month's percentage is the attended requests of that month out of
      the month's size in the month table. */
  lemma PercentByMonthMeaning(rows: seq<Row>)
    ensures forall i :: 0 <= i < |PercentByMonth(rows)| ==>
      var g := ByMonth(rows)[i];
      && |Filter(rows, AttendedWithKey([Mes], g.key))| <= g.size
      && PercentByMonth(rows)[i].percent == Ratio(|Filter(rows, AttendedWithKey([Mes], g.key))|, g.size)
  {
    var gs := ByMonth(rows);
    forall i | 0 <= i < |gs|
      ensures |Filter(rows, AttendedWithKey([Mes], gs[i].key))| <= gs[i].size
      ensures PercentByMonth(rows)[i].percent == Ratio(|Filter(rows, AttendedWithKey([Mes], gs[i].key))|, gs[i].size)
    {
      var g := gs[i];
      KeyCount(rows, [Mes], g.key);
      assert g.size == multiset(KeysOf(rows, [Mes]))[g.key] > 0;
      assert PercentByMonth(rows)[i].percent == PercentAttended(Filter(rows, HasKey([Mes], g.key)));
      MonthPercent(rows, g.key, g.size);
    }
  }

  // ---------------------------------------------------------------------------
  // The whole page

  /** Everything the page shows. `percentByMonth` and `topServices` are
      `None` when the page stops before drawing them: when no row of the view
      has a month (an empty view in particular) the `groupby('MES')` of line
      94 has no group, its `apply` yields a DataFrame rather than a Series,
      and `DataFrame.reset_index` takes no `name` argument, so pandas raises
      TypeError there. */
  datatype ViewModel = ViewModel(
    total: nat,
    percentAttended: real,
    meanDays: Mean,
    byMonth: seq<Group>,
    byZone: seq<Group>,
    topBairros: seq<Group>,
    byWeekday: seq<Group>,
    percentByMonth: Option<seq<MonthRate>>,
    topServices: Option<seq<Group>>)

  /** `ps` is the attended share per month of `rows`, listed along the month
      table `months`: same keys in the same order, each the attended rows of
      that month out of the month's size. */
  ghost predicate MonthRates(rows: seq<Row>, months: seq<Group>, ps: seq<MonthRate>)
  {
    && |ps| == |months|
    && forall i :: 0 <= i < |ps| ==>
         && ps[i].key == months[i].key
         && |Filter(rows, AttendedWithKey([Mes], months[i].key))| <= months[i].size
         && ps[i].percent == Ratio(|Filter(rows, AttendedWithKey([Mes], months[i].key))|, months[i].size)
  }

  /** `vm` is what the page shows for the view `rows`: its size, the attended
      share and mean time, the month and zone size tables, the two rankings,
      the weekday table, and the monthly shares; these last two only when the
      month table has a line. */
  ghost predicate Shows(vm: ViewModel, rows: seq<Row>)
  {
    && vm.total == |rows|
    && vm.percentAttended == Ratio(|Filter(rows, IsAttended)|, |rows|)
    && vm.meanDays == MeanDays(rows)
    && SizeTable(rows, [Mes], vm.byMonth)
    && SizeTable(rows, [Zona], vm.byZone)
    && Ranking(rows, [Bairro], vm.topBairros)
    && vm.byWeekday == ByWeekday(rows)
    && (vm.percentByMonth.Some? <==> |vm.byMonth| > 0)
    && (vm.percentByMonth.Some? ==> MonthRates(rows, vm.byMonth, vm.percentByMonth.value))
    && (vm.topServices.Some? <==> |vm.byMonth| > 0)
    && (vm.topServices.Some? ==> Ranking(rows, [GrupoServico, ServicoDescricao], vm.topServices.value))
  }

  /** Every value the page shows for a table and a selection: what `Shows`
      states of the selected rows, which are those of the table whose four
      columns each hold a selected value. */
  function Render(f: Frame, sel: Selection): (vm: ViewModel)
    requires WellFormed(f) && HasColumns(f, SelectionColumns) && HasColumns(f, ChartColumns)
    ensures vm.total <= |f.rows|
    ensures Shows(vm, FilterView(f, sel).rows)
    ensures vm.total == 0 ==>
      && vm.percentAttended == 0.0 && vm.meanDays == Value(0.0)
      && vm.percentByMonth == None && vm.topServices == None
  {
    var rows := FilterView(f, sel).rows;
    SubseqLength(rows, f.rows);
    PageFacts(rows);
    MonthTableEmpty(rows);
    Page(rows)
  }

  /** The page for the view `rows`. */
  function Page(rows: seq<Row>): ViewModel
  {
    ViewModel(|rows|, PercentAttended(rows), MeanDays(rows), ByMonth(rows), ByZone(rows),
              TopBairros(rows), ByWeekday(rows),
              if |ByMonth(rows)| == 0 then None else Some(PercentByMonth(rows)),
              if |ByMonth(rows)| == 0 then None else Some(TopServices(rows)))
  }

  lemma PageFacts(rows: seq<Row>)
    ensures Shows(Page(rows), rows)
  {
    PercentAttendedValue(rows);
    CountByFacts(rows, [Mes]);
    CountByFacts(rows, [Zona]);
    TopTenRanking(rows, [Bairro]);
    if |ByMonth(rows)| > 0 {
      TopTenRanking(rows, [GrupoServico, ServicoDescricao]);
      MonthRatesOfPage(rows);
    }
  }

  /** The month table is empty exactly when no row of the view has a month,
      and then the page stops at line 94. */
  lemma MonthTableEmpty(rows: seq<Row>)
    ensures |ByMonth(rows)| == 0 <==> forall i :: 0 <= i < |rows| ==> Get(rows[i], Mes) == Null
  {
    var gs := ByMonth(rows);
    CountByFacts(rows, [Mes]);
    forall i | 0 <= i < |rows| ensures Complete(RowKey(rows[i], [Mes])) <==> Get(rows[i], Mes) != Null {
      CompleteSingle(rows[i], Mes);
    }
    if |gs| > 0 {
      var k := gs[0].key;
      var i := FirstIndex(rows, Filter(rows, HasKey([Mes], k))[0]);
      assert RowKey(rows[i], [Mes]) == k;
    }
  }

  lemma MonthRatesOfPage(rows: seq<Row>)
    ensures MonthRates(rows, ByMonth(rows), PercentByMonth(rows))
  {
    PercentByMonthMeaning(rows);
  }
}
