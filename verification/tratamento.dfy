/**
  `tratamento_dados` (Enlurb2024/tratamento.py): the cleaning pipeline of the
  Recife service-request table (the city's "156" line).

  In source order it derives DIFERENCA_DIAS, MES, DIA, ANO and DIA_SEMANA from
  the two parsed dates, drops six columns, turns RPA (the district code) into
  text and maps it to a ZONA with a default, then keeps the 2024 rows of four
  service groups. Reading the CSV and parsing the date text are outside the
  model: the input is the table as `to_datetime` leaves it, with the two date
  columns holding dates or NaT.
*/
module Tratamento {
  import opened Calendar
  import opened Seqs
  import opened Frames

  const DataDemanda := "DATA_DEMANDA"
  const DataUltSituacao := "DATA_ULT_SITUACAO"
  const DiferencaDias := "DIFERENCA_DIAS"
  const Mes := "MES"
  const Dia := "DIA"
  const Ano := "ANO"
  const DiaSemana := "DIA_SEMANA"
  const Rpa := "RPA"
  const Zona := "ZONA"
  const GrupoServico := "GRUPOSERVICO_DESCRICAO"
  const Situacao := "SITUACAO"

  /** Codes, address and coordinates, not needed downstream. */
  const Unneeded: seq<string> :=
    ["GRUPOSERVICO_CODIGO", "SERVICO_CODIGO", "LOGRADOURO", "NUMERO", "latitude", "longitude"]

  /** The columns the pipeline adds (RPA already exists and is rewritten). */
  const Added: seq<string> := [DiferencaDias, Mes, Dia, Ano, DiaSemana, Zona]

  const NaoInformado := "Não Informado"

  /** District code to zone. */
  const ZoneTable: map<string, string> :=
    map["1" := "Centro", "2" := "Norte", "3" := "Norte", "4" := "Oeste", "5" := "Sul", "6" := "Sul"]

  const Zones: set<string> := {"Centro", "Norte", "Oeste", "Sul", NaoInformado}

  /** The four service groups the dashboard covers. */
  const AllowedGroups: set<Cell> :=
    {Text("DRENAGEM"), Text("ILUMINAÇÃO PÚBLICA"), Text("LIMPEZA URBANA"), Text("ARBORIZAÇÃO")}

  predicate DateOrMissing(c: Cell)
  {
    c.Day? || c.Null?
  }

  /** What `astype(str)` can render here: missing values, flags, integers and text. */
  predicate Stringable(c: Cell)
  {
    c.Null? || c.Bool? || c.Int? || c.Text?
  }

  /** The table as loaded and date-parsed: every column the pipeline reads or
      drops is present (pandas raises KeyError otherwise), both date columns
      hold dates or NaT, and RPA holds values `astype(str)` renders. The row
      condition is stated both by position and by membership, the two ways
      the proofs below reach a row. */
  ghost predicate ParsedTable(f: Frame)
  {
    && WellFormed(f)
    && HasColumns(f, Read)
    && HasColumns(f, Unneeded)
    && (forall i :: 0 <= i < |f.rows| ==> ParsedRow(f.rows[i]))
    && (forall r :: r in f.rows ==> ParsedRow(r))
  }

  /** The columns the pipeline reads. */
  const Read: seq<string> := [DataDemanda, DataUltSituacao, Rpa, GrupoServico, Situacao]

  predicate ParsedRow(r: Row)
  {
    && DateOrMissing(Get(r, DataDemanda))
    && DateOrMissing(Get(r, DataUltSituacao))
    && Stringable(Get(r, Rpa))
  }

  // ---------------------------------------------------------------------------
  // Derived date columns

  /** `(DATA_ULT_SITUACAO - DATA_DEMANDA).dt.days`: missing when either date is NaT. */
  function ElapsedDays(r: Row): Cell
  {
    match (Get(r, DataDemanda), Get(r, DataUltSituacao))
    case (Day(a), Day(b)) => Int(DaysBetween(a, b))
    case _ => Null
  }

  function MonthOf(r: Row): Cell
  {
    match Get(r, DataDemanda)
    case Day(d) => Int(d.month)
    case _ => Null
  }

  function DayOf(r: Row): Cell
  {
    match Get(r, DataDemanda)
    case Day(d) => Int(d.day)
    case _ => Null
  }

  function YearOf(r: Row): Cell
  {
    match Get(r, DataDemanda)
    case Day(d) => Int(d.year)
    case _ => Null
  }

  function WeekdayOf(r: Row): Cell
  {
    match Get(r, DataDemanda)
    case Day(d) => Int(Weekday(d))
    case _ => Null
  }

  /** The five date columns of a row, as one map. */
  function DateColumns(r: Row): map<string, Cell>
  {
    map[DiferencaDias := ElapsedDays(r), Mes := MonthOf(r), Dia := DayOf(r),
        Ano := YearOf(r), DiaSemana := WeekdayOf(r)]
  }

  // ---------------------------------------------------------------------------
  // District code to zone

  function DigitChar(n: nat): char
    requires n < 10
  {
    "0123456789"[n]
  }

  function Digits(n: nat): (s: string)
    ensures |s| >= 1
    ensures n >= 10 ==> |s| >= 2
  {
    if n < 10 then [DigitChar(n)] else Digits(n / 10) + [DigitChar(n % 10)]
  }

  /** Python's `str` of an int. */
  function DecimalString(i: int): string
  {
    if i < 0 then "-" + Digits(-i) else Digits(i)
  }

  /** `str(x)` for the cells `astype(str)` meets in RPA; NaN renders as
      "nan". `asFloat` says that the column holds float64 values, and then
      an integral code renders with a trailing ".0". */
  function AsStr(c: Cell, asFloat: bool): string
    requires Stringable(c)
  {
    match c
    case Null => "nan"
    case Bool(b) => if b then "True" else "False"
    case Int(i) => if asFloat then DecimalString(i) + ".0" else DecimalString(i)
    case Text(s) => s
  }

  /** Whether `read_csv` loads RPA as float64: it does so for a column of
      integer codes in which some code is missing, since NaN is a float. */
  predicate FloatCodes(rows: seq<Row>)
  {
    && (exists i :: 0 <= i < |rows| && Get(rows[i], Rpa).Null?)
    && (forall i :: 0 <= i < |rows| ==> Get(rows[i], Rpa).Null? || Get(rows[i], Rpa).Int?)
  }

  /** `map(mapeamento_zonas)` followed by `fillna('Não Informado')`. */
  function ZoneOf(key: string): (z: string)
    ensures z in Zones
  {
    if key in ZoneTable then ZoneTable[key] else NaoInformado
  }

  function RpaAsText(asFloat: bool): Row --> Cell
  {
    r requires Stringable(Get(r, Rpa)) => Text(AsStr(Get(r, Rpa), asFloat))
  }

  function ZoneCell(r: Row): Cell
    requires Get(r, Rpa).Text?
  {
    Text(ZoneOf(Get(r, Rpa).s))
  }

  // ---------------------------------------------------------------------------
  // Row filters

  predicate InYear2024(r: Row)
  {
    Get(r, Ano) == Int(2024)
  }

  predicate InAllowedGroup(r: Row)
  {
    Get(r, GrupoServico) in AllowedGroups
  }

  // ---------------------------------------------------------------------------
  // The pipeline, stage by stage

  /** Lines 15-19: the five date columns, added (or overwritten) on every row. */
  function AddDateColumns(f: Frame): (g: Frame)
    requires WellFormed(f)
    ensures WellFormed(g)
    ensures forall c :: c in g.columns <==> c in f.columns || c in DateColumnNames
    ensures |g.rows| == |f.rows|
    ensures forall i :: 0 <= i < |g.rows| ==> g.rows[i] == f.rows[i] + DateColumns(f.rows[i])
  {
    var f1 := WithColumn(f, DiferencaDias, ElapsedDays);
    var f2 := WithColumn(f1, Mes, MonthOf);
    var f3 := WithColumn(f2, Dia, DayOf);
    var f4 := WithColumn(f3, Ano, YearOf);
    var f5 := WithColumn(f4, DiaSemana, WeekdayOf);
    DatedRows(f.rows, f1.rows, f2.rows, f3.rows, f4.rows, f5.rows);
    f5
  }

  lemma DatedRows(rs: seq<Row>, r1: seq<Row>, r2: seq<Row>, r3: seq<Row>, r4: seq<Row>, r5: seq<Row>)
    requires |r1| == |r2| == |r3| == |r4| == |r5| == |rs|
    requires forall i :: 0 <= i < |rs| ==> r1[i] == rs[i][DiferencaDias := ElapsedDays(rs[i])]
    requires forall i :: 0 <= i < |rs| ==> r2[i] == r1[i][Mes := MonthOf(r1[i])]
    requires forall i :: 0 <= i < |rs| ==> r3[i] == r2[i][Dia := DayOf(r2[i])]
    requires forall i :: 0 <= i < |rs| ==> r4[i] == r3[i][Ano := YearOf(r3[i])]
    requires forall i :: 0 <= i < |rs| ==> r5[i] == r4[i][DiaSemana := WeekdayOf(r4[i])]
    ensures forall i :: 0 <= i < |rs| ==> r5[i] == rs[i] + DateColumns(rs[i])
  {
    forall i | 0 <= i < |rs| ensures r5[i] == rs[i] + DateColumns(rs[i]) {
      var r := rs[i];
      SameDemandDate(r1[i], r, DiferencaDias, ElapsedDays(r));
      SameDemandDate(r2[i], r1[i], Mes, MonthOf(r));
      SameDemandDate(r3[i], r2[i], Dia, DayOf(r));
      SameDemandDate(r4[i], r3[i], Ano, YearOf(r));
      DateUpdatesAsUnion(r);
    }
  }

  /** Setting a column other than DATA_DEMANDA leaves the demand date alone. */
  lemma SameDemandDate(r2: Row, r: Row, name: string, v: Cell)
    requires name != DataDemanda && r2 == r[name := v]
    ensures Get(r2, DataDemanda) == Get(r, DataDemanda)
    ensures MonthOf(r2) == MonthOf(r) && DayOf(r2) == DayOf(r)
    ensures YearOf(r2) == YearOf(r) && WeekdayOf(r2) == WeekdayOf(r)
  {
  }

  lemma DateUpdatesAsUnion(r: Row)
    ensures r[DiferencaDias := ElapsedDays(r)][Mes := MonthOf(r)][Dia := DayOf(r)]
             [Ano := YearOf(r)][DiaSemana := WeekdayOf(r)] == r + DateColumns(r)
  {
  }

  /** Lines 25-39: RPA becomes text and ZONA its zone. */
  function AddZone(f: Frame, asFloat: bool): (g: Frame)
    requires WellFormed(f)
    requires forall r :: r in f.rows ==> Stringable(Get(r, Rpa))
    ensures WellFormed(g)
    ensures forall c :: c in g.columns <==> c in f.columns || c == Rpa || c == Zona
    ensures |g.rows| == |f.rows|
    ensures forall i :: 0 <= i < |g.rows| ==>
      var key := AsStr(Get(f.rows[i], Rpa), asFloat);
      g.rows[i] == f.rows[i][Rpa := Text(key)][Zona := Text(ZoneOf(key))]
  {
    assert forall i :: 0 <= i < |f.rows| ==> f.rows[i] in f.rows;
    var f7 := WithColumn(f, Rpa, RpaAsText(asFloat));
    assert forall i :: 0 <= i < |f7.rows| ==> Get(f7.rows[i], Rpa).Text?;
    var f8 := WithColumn(f7, Zona, ZoneCell);
    forall i | 0 <= i < |f8.rows|
      ensures f8.rows[i] == f.rows[i][Rpa := f7.rows[i][Rpa]][Zona := ZoneCell(f7.rows[i])]
    {
      assert f7.rows[i] == f.rows[i][Rpa := f7.rows[i][Rpa]];
    }
    f8
  }

  /** The five derived date columns, in the order they are added. */
  const DateColumnNames: seq<string> := [DiferencaDias, Mes, Dia, Ano, DiaSemana]

  /** One row as the pipeline leaves it, before the two row filters: date
      columns added, the unneeded columns gone, RPA as text, ZONA its zone. */
  function Enrich(r: Row, asFloat: bool): Row
    requires Stringable(Get(r, Rpa))
  {
    var key := AsStr(Get(r, Rpa), asFloat);
    ((r + DateColumns(r)) - NameSet(Unneeded))[Rpa := Text(key)][Zona := Text(ZoneOf(key))]
  }

  function Enricher(asFloat: bool): Row --> Row
  {
    r requires Stringable(Get(r, Rpa)) => Enrich(r, asFloat)
  }

  function EnrichAll(rows: seq<Row>, asFloat: bool): (out: seq<Row>)
    requires forall r :: r in rows ==> Stringable(Get(r, Rpa))
    ensures |out| == |rows|
    ensures forall i :: 0 <= i < |rows| ==> out[i] == Enrich(rows[i], asFloat)
  {
    Map(rows, Enricher(asFloat))
  }

  /** Which input rows survive the two filters, read off the input itself:
      the demand date is a 2024 date and the group is one of the four. */
  predicate Kept(r: Row)
  {
    && Get(r, DataDemanda).Day?
    && Get(r, DataDemanda).d.year == 2024
    && Get(r, GrupoServico) in AllowedGroups
  }

  predicate InYearAndGroup(r: Row)
  {
    InYear2024(r) && InAllowedGroup(r)
  }

  /** Lines 15-39: every row enriched, none removed yet. */
  function Prepare(f: Frame): (g: Frame)
    requires ParsedTable(f)
    ensures WellFormed(g)
    ensures forall c :: c in g.columns <==> (c in f.columns && c !in Unneeded) || c in Added
    ensures g.rows == EnrichAll(f.rows, FloatCodes(f.rows))
  {
    var dated := AddDateColumns(f);
    DatedColumns(f, dated);
    var dropped := Drop(dated, Unneeded);
    DroppedRpa(f, dated, dropped);
    var zoned := AddZone(dropped, FloatCodes(f.rows));
    ZonedRows(f, dated, dropped, zoned);
    OutColumns(f, dated, dropped, zoned);
    zoned
  }

  /** `tratamento_dados` on an already loaded and date-parsed table. Its rows
      are the enriched input rows that `Kept` selects, in input order; how
      RPA renders depends on the dtype of the whole loaded column. */
  function TratamentoDados(f: Frame): (out: Frame)
    requires ParsedTable(f)
    ensures WellFormed(out)
    ensures forall c :: c in out.columns <==> (c in f.columns && c !in Unneeded) || c in Added
    ensures out.rows == EnrichAll(Filter(f.rows, Kept), FloatCodes(f.rows))
  {
    var zoned := Prepare(f);
    var out := Where(Where(zoned, InYear2024), InAllowedGroup);
    OutRows(f, zoned, out);
    out
  }

  lemma OutRows(f: Frame, zoned: Frame, out: Frame)
    requires WellFormed(zoned)
    requires forall r :: r in f.rows ==> Stringable(Get(r, Rpa))
    requires zoned.rows == EnrichAll(f.rows, FloatCodes(f.rows))
    requires out == Where(Where(zoned, InYear2024), InAllowedGroup)
    ensures out.rows == EnrichAll(Filter(f.rows, Kept), FloatCodes(f.rows))
  {
    assert out.rows == Filter(Filter(zoned.rows, InYear2024), InAllowedGroup);
    FilterFilter(zoned.rows, InYear2024, InAllowedGroup, InYearAndGroup);
    FilterEnriched(f.rows, FloatCodes(f.rows));
  }

  lemma DatedColumns(f: Frame, dated: Frame)
    requires ParsedTable(f) && dated == AddDateColumns(f)
    ensures HasColumns(dated, Unneeded)
  {
    forall k | 0 <= k < |Unneeded| ensures Unneeded[k] in dated.columns {
      assert Unneeded[k] in f.columns;
    }
  }

  lemma OutColumns(f: Frame, dated: Frame, dropped: Frame, zoned: Frame)
    requires WellFormed(f) && HasColumns(f, Read) && dated == AddDateColumns(f)
    requires HasColumns(dated, Unneeded) && dropped == Drop(dated, Unneeded)
    requires forall r :: r in dropped.rows ==> Stringable(Get(r, Rpa))
    requires zoned == AddZone(dropped, FloatCodes(f.rows))
    ensures forall c :: c in zoned.columns <==> (c in f.columns && c !in Unneeded) || c in Added
  {
    AddedNotUnneeded();
    AddedIsDatesAndZone();
    assert Rpa in f.columns by {
      assert Read[2] == Rpa;
    }
    ColumnAlgebra(f.columns, dated.columns, dropped.columns, zoned.columns);
  }

  lemma ColumnAlgebra(fc: seq<string>, dc: seq<string>, pc: seq<string>, zc: seq<string>)
    requires Rpa in fc && Rpa !in Unneeded
    requires forall c :: c in Added ==> c !in Unneeded
    requires forall c :: c in Added <==> c in DateColumnNames || c == Zona
    requires forall c :: c in dc <==> c in fc || c in DateColumnNames
    requires forall c :: c in pc <==> c in dc && c !in Unneeded
    requires forall c :: c in zc <==> c in pc || c == Rpa || c == Zona
    ensures forall c :: c in zc <==> (c in fc && c !in Unneeded) || c in Added
  {
  }

  lemma AddedIsDatesAndZone()
    ensures forall c :: c in Added <==> c in DateColumnNames || c == Zona
  {
  }

  lemma AddedNotUnneeded()
    ensures forall c :: c in Added ==> c !in Unneeded
    ensures Rpa !in Unneeded
  {
  }

  lemma DroppedRpa(f: Frame, dated: Frame, dropped: Frame)
    requires ParsedTable(f)
    requires dated == AddDateColumns(f)
    requires HasColumns(dated, Unneeded) && dropped == Drop(dated, Unneeded)
    ensures forall i :: 0 <= i < |dropped.rows| ==> Get(dropped.rows[i], Rpa) == Get(f.rows[i], Rpa)
    ensures forall r :: r in dropped.rows ==> Stringable(Get(r, Rpa))
  {
    forall i | 0 <= i < |dropped.rows| ensures Get(dropped.rows[i], Rpa) == Get(f.rows[i], Rpa) {
      DroppedRpaAt(f.rows[i], dated.rows[i], dropped.rows[i]);
    }
    forall r | r in dropped.rows ensures Stringable(Get(r, Rpa)) {
      var i := FirstIndex(dropped.rows, r);
      assert ParsedRow(f.rows[i]);
    }
  }

  lemma DroppedRpaAt(r: Row, dated: Row, dropped: Row)
    requires dated == r + DateColumns(r) && dropped == dated - NameSet(Unneeded)
    ensures Get(dropped, Rpa) == Get(r, Rpa)
  {
    AddedNotUnneeded();
    assert Rpa !in NameSet(Unneeded);
    assert Rpa !in DateColumns(r);
  }

  lemma ZonedRows(f: Frame, dated: Frame, dropped: Frame, zoned: Frame)
    requires ParsedTable(f)
    requires dated == AddDateColumns(f)
    requires HasColumns(dated, Unneeded) && dropped == Drop(dated, Unneeded)
    requires forall i :: 0 <= i < |dropped.rows| ==> Get(dropped.rows[i], Rpa) == Get(f.rows[i], Rpa)
    requires forall r :: r in dropped.rows ==> Stringable(Get(r, Rpa))
    requires zoned == AddZone(dropped, FloatCodes(f.rows))
    ensures zoned.rows == EnrichAll(f.rows, FloatCodes(f.rows))
  {
    ZonedRowSeq(f.rows, dated.rows, dropped.rows, zoned.rows, FloatCodes(f.rows));
  }

  lemma ZonedRowSeq(rs: seq<Row>, dated: seq<Row>, dropped: seq<Row>, zoned: seq<Row>, fl: bool)
    requires forall r :: r in rs ==> Stringable(Get(r, Rpa))
    requires |dated| == |dropped| == |zoned| == |rs|
    requires forall i :: 0 <= i < |rs| ==> dated[i] == rs[i] + DateColumns(rs[i])
    requires forall i :: 0 <= i < |rs| ==> dropped[i] == dated[i] - NameSet(Unneeded)
    requires forall i :: 0 <= i < |rs| ==> Get(dropped[i], Rpa) == Get(rs[i], Rpa)
    requires forall i :: 0 <= i < |rs| ==>
      var key := AsStr(Get(dropped[i], Rpa), fl);
      zoned[i] == dropped[i][Rpa := Text(key)][Zona := Text(ZoneOf(key))]
    ensures zoned == EnrichAll(rs, fl)
  {
    forall i | 0 <= i < |rs| ensures zoned[i] == Enrich(rs[i], fl) {
      assert rs[i] in rs;
      ZonedRowAt(rs[i], dropped[i], zoned[i], fl);
    }
  }

  lemma ZonedRowAt(r: Row, dropped: Row, zoned: Row, fl: bool)
    requires Stringable(Get(r, Rpa))
    requires dropped == (r + DateColumns(r)) - NameSet(Unneeded)
    requires Get(dropped, Rpa) == Get(r, Rpa)
    requires zoned == dropped[Rpa := Text(AsStr(Get(dropped, Rpa), fl))][Zona := Text(ZoneOf(AsStr(Get(dropped, Rpa), fl)))]
    ensures zoned == Enrich(r, fl)
  {
  }

  /** Filtering enriched rows by year and group is enriching the `Kept` rows. */
  lemma FilterEnriched(rows: seq<Row>, asFloat: bool)
    requires forall r :: r in rows ==> Stringable(Get(r, Rpa))
    ensures Filter(EnrichAll(rows, asFloat), InYearAndGroup) == EnrichAll(Filter(rows, Kept), asFloat)
  {
    forall r | r in rows ensures InYearAndGroup(Enricher(asFloat)(r)) <==> Kept(r) {
      KeptIffFiltered(r, asFloat);
    }
    FilterMap(rows, Enricher(asFloat), Kept, InYearAndGroup);
  }

  /** The filters on the derived ANO and on the group column select exactly
      the rows `Kept` names. */
  lemma KeptIffFiltered(r: Row, asFloat: bool)
    requires Stringable(Get(r, Rpa))
    ensures InYearAndGroup(Enrich(r, asFloat)) <==> Kept(r)
  {
    assert Get(Enrich(r, asFloat), Ano) == YearOf(r);
    assert Get(Enrich(r, asFloat), GrupoServico) == Get(r, GrupoServico);
  }

  // ---------------------------------------------------------------------------
  // Properties of the zone mapping

  /** The zone table read backwards: each zone names exactly its codes, and
      every other string falls to the default, so ZONA is never missing. */
  lemma ZoneOfCases(key: string)
    ensures ZoneOf(key) == "Centro" <==> key == "1"
    ensures ZoneOf(key) == "Norte" <==> key == "2" || key == "3"
    ensures ZoneOf(key) == "Oeste" <==> key == "4"
    ensures ZoneOf(key) == "Sul" <==> key == "5" || key == "6"
    ensures ZoneOf(key) == NaoInformado <==> key !in {"1", "2", "3", "4", "5", "6"}
  {
  }

  /** In an integer column a district code has a zone exactly when it is 1
      to 6. In a float64 column no code has one: "1.0" is not a key of the
      table. A missing code renders as "nan" and gets the default. */
  lemma IntCodeZone(i: int, asFloat: bool)
    ensures ZoneOf(AsStr(Int(i), false)) != NaoInformado <==> 1 <= i <= 6
    ensures ZoneOf(AsStr(Int(i), true)) == NaoInformado
    ensures ZoneOf(AsStr(Null, asFloat)) == NaoInformado
  {
    var s := AsStr(Int(i), false);
    if i < 0 {
      assert s[0] == '-';
    } else if i >= 10 {
      assert |s| >= 2;
    } else {
      assert s == [DigitChar(i)];
    }
    assert |AsStr(Int(i), true)| >= 3;
  }

  function DigitValue(c: char): nat
  {
    if '0' <= c <= '9' then (c - '0') as nat else 0
  }

  /** Reads a string of decimal digits back as a number. */
  function ParseDigits(s: string): nat
  {
    if |s| == 0 then 0 else 10 * ParseDigits(s[..|s| - 1]) + DigitValue(s[|s| - 1])
  }

  /** `Digits` writes `n` in decimal: reading the digits back gives `n`, and
      the leading digit is not zero unless `n` is. */
  lemma {:induction false} DigitsRoundTrip(n: nat)
    ensures ParseDigits(Digits(n)) == n
    ensures forall k :: 0 <= k < |Digits(n)| ==> '0' <= Digits(n)[k] <= '9'
    ensures Digits(n)[0] == '0' <==> n == 0
  {
    if n >= 10 {
      DigitsRoundTrip(n / 10);
      var s := Digits(n);
      assert s[..|s| - 1] == Digits(n / 10);
    }
  }

  // ---------------------------------------------------------------------------
  // Properties of the derived date columns

  /** MES, DIA and ANO give back the demand date (so MES is 1..12 and DIA
      1..31), and all four date columns are missing exactly when it is. */
  lemma DateColumnsRebuildDate(r: Row)
    ensures !Get(r, DataDemanda).Day? <==> MonthOf(r).Null?
    ensures MonthOf(r).Null? <==> DayOf(r).Null? && YearOf(r).Null? && WeekdayOf(r).Null?
    ensures Get(r, DataDemanda).Day? ==>
      && MonthOf(r).Int? && DayOf(r).Int? && YearOf(r).Int? && WeekdayOf(r).Int?
      && Date(YearOf(r).i, MonthOf(r).i, DayOf(r).i) == Get(r, DataDemanda).d
      && 1 <= MonthOf(r).i <= 12 && 1 <= DayOf(r).i <= 31
      && 0 <= WeekdayOf(r).i <= 6
  {
  }

  /** DIFERENCA_DIAS is missing when either date is; otherwise it is zero on
      the same day, negative exactly when the last update precedes the
      demand (nothing rejects that), positive otherwise. */
  lemma ElapsedDaysSign(r: Row)
    ensures ElapsedDays(r).Null? <==> !Get(r, DataDemanda).Day? || !Get(r, DataUltSituacao).Day?
    ensures Get(r, DataDemanda).Day? && Get(r, DataUltSituacao).Day? ==>
      var (a, b) := (Get(r, DataDemanda).d, Get(r, DataUltSituacao).d);
      && ElapsedDays(r).Int?
      && (ElapsedDays(r).i == 0 <==> a == b)
      && (ElapsedDays(r).i < 0 <==> DateLess(b, a))
      && (ElapsedDays(r).i > 0 <==> DateLess(a, b))
  {
    match (Get(r, DataDemanda), Get(r, DataUltSituacao))
    case (Day(a), Day(b)) => DaysBetweenSign(a, b);
    case _ =>
  }

  /** A later demand date one day on moves DIA_SEMANA one step round the week. */
  lemma WeekdayOfNextDay(r: Row, r2: Row)
    requires Get(r, DataDemanda).Day? && Get(r2, DataDemanda).Day?
    requires Get(r2, DataDemanda).d == NextDay(Get(r, DataDemanda).d)
    ensures WeekdayOf(r2).i == (WeekdayOf(r).i + 1) % 7
  {
    WeekdayNextDay(Get(r, DataDemanda).d);
  }

  // ---------------------------------------------------------------------------
  // Properties of the whole pipeline

  /** An enriched row has none of the unneeded columns, RPA as text and ZONA
      as the zone of that text. */
  lemma EnrichedRow(r: Row, asFloat: bool)
    requires Stringable(Get(r, Rpa))
    ensures forall k :: 0 <= k < |Unneeded| ==> Unneeded[k] !in Enrich(r, asFloat)
    ensures Get(Enrich(r, asFloat), Rpa) == Text(AsStr(Get(r, Rpa), asFloat))
    ensures Get(Enrich(r, asFloat), Zona) == Text(ZoneOf(AsStr(Get(r, Rpa), asFloat)))
  {
  }

  /** Enrichment carries the group, status and demand date over unchanged. */
  lemma EnrichedCarried(r: Row, asFloat: bool)
    requires Stringable(Get(r, Rpa))
    ensures Get(Enrich(r, asFloat), GrupoServico) == Get(r, GrupoServico)
    ensures Get(Enrich(r, asFloat), Situacao) == Get(r, Situacao)
    ensures Get(Enrich(r, asFloat), DataDemanda) == Get(r, DataDemanda)
  {
    Untouched(r, GrupoServico, asFloat);
    Untouched(r, Situacao, asFloat);
    Untouched(r, DataDemanda, asFloat);
  }

  /** A column the pipeline neither drops, derives nor rewrites keeps its value. */
  lemma Untouched(r: Row, c: string, asFloat: bool)
    requires Stringable(Get(r, Rpa))
    requires c !in Unneeded && c !in DateColumnNames && c != Rpa && c != Zona
    ensures Get(Enrich(r, asFloat), c) == Get(r, c)
  {
    var key := AsStr(Get(r, Rpa), asFloat);
    var dated := r + DateColumns(r);
    assert c !in DateColumns(r);
    assert Get(dated, c) == Get(r, c);
    assert c !in NameSet(Unneeded);
    var kept := dated - NameSet(Unneeded);
    assert Get(kept, c) == Get(dated, c);
    assert Enrich(r, asFloat) == kept[Rpa := Text(key)][Zona := Text(ZoneOf(key))];
  }

  /** The date columns of an enriched row are those derived from the input. */
  lemma EnrichedDates(r: Row, asFloat: bool)
    requires Stringable(Get(r, Rpa))
    ensures Get(Enrich(r, asFloat), Ano) == YearOf(r) && Get(Enrich(r, asFloat), Mes) == MonthOf(r)
    ensures Get(Enrich(r, asFloat), Dia) == DayOf(r) && Get(Enrich(r, asFloat), DiaSemana) == WeekdayOf(r)
    ensures Get(Enrich(r, asFloat), DiferencaDias) == ElapsedDays(r)
  {
    EnrichedDateColumn(r, Ano, asFloat);
    EnrichedDateColumn(r, Mes, asFloat);
    EnrichedDateColumn(r, Dia, asFloat);
    EnrichedDateColumn(r, DiaSemana, asFloat);
    EnrichedDateColumn(r, DiferencaDias, asFloat);
  }

  lemma EnrichedDateColumn(r: Row, c: string, asFloat: bool)
    requires Stringable(Get(r, Rpa))
    requires c in DateColumnNames
    ensures c in DateColumns(r) && Get(Enrich(r, asFloat), c) == DateColumns(r)[c]
  {
    var key := AsStr(Get(r, Rpa), asFloat);
    var dated := r + DateColumns(r);
    var kept := dated - NameSet(Unneeded);
    AddedNotUnneeded();
    assert c in Added;
    assert c !in NameSet(Unneeded);
    assert kept[c] == DateColumns(r)[c];
    assert c != Rpa && c != Zona;
    assert Enrich(r, asFloat) == kept[Rpa := Text(key)][Zona := Text(ZoneOf(key))];
  }

  ghost predicate OutputRow(row: Row)
  {
    && Get(row, Ano) == Int(2024)
    && Get(row, GrupoServico) in AllowedGroups
    && Get(row, Zona).Text? && Get(row, Zona).s in Zones
    && Get(row, Mes).Int? && 1 <= Get(row, Mes).i <= 12
    && Get(row, Dia).Int? && 1 <= Get(row, Dia).i <= 31
    && Get(row, DiaSemana).Int? && 0 <= Get(row, DiaSemana).i <= 6
  }

  lemma KeptRowFacts(r: Row, asFloat: bool)
    requires Stringable(Get(r, Rpa)) && Kept(r)
    ensures OutputRow(Enrich(r, asFloat))
  {
    EnrichedRow(r, asFloat);
    EnrichedCarried(r, asFloat);
    EnrichedDates(r, asFloat);
    DateColumnsRebuildDate(r);
  }

  /** Each returned row is an input row the filters keep, enriched: its year
      is 2024, its group one of the four, its zone never missing; each kept
      input row is returned, and no row is invented. */
  lemma TratamentoRows(f: Frame)
    requires ParsedTable(f)
    ensures |TratamentoDados(f).rows| <= |f.rows|
    ensures forall row :: row in TratamentoDados(f).rows ==>
      && OutputRow(row)
      && exists r :: r in f.rows && Kept(r) && row == Enrich(r, FloatCodes(f.rows))
    ensures forall r :: r in f.rows && Kept(r) ==> Enrich(r, FloatCodes(f.rows)) in TratamentoDados(f).rows
  {
    KeptSound(f.rows, FloatCodes(f.rows));
    KeptComplete(f.rows, FloatCodes(f.rows));
  }

  lemma KeptSound(rows: seq<Row>, asFloat: bool)
    requires forall r :: r in rows ==> Stringable(Get(r, Rpa))
    ensures |EnrichAll(Filter(rows, Kept), asFloat)| <= |rows|
    ensures forall row :: row in EnrichAll(Filter(rows, Kept), asFloat) ==>
      && OutputRow(row)
      && exists r :: r in rows && Kept(r) && row == Enrich(r, asFloat)
  {
    var kept := Filter(rows, Kept);
    var out := EnrichAll(kept, asFloat);
    forall row | row in out ensures OutputRow(row) && exists r :: r in rows && Kept(r) && row == Enrich(r, asFloat) {
      var i := FirstIndex(out, row);
      var r := kept[i];
      assert r in kept;
      KeptRowFacts(r, asFloat);
    }
  }

  lemma KeptComplete(rows: seq<Row>, asFloat: bool)
    requires forall r :: r in rows ==> Stringable(Get(r, Rpa))
    ensures forall r :: r in rows && Kept(r) ==> Enrich(r, asFloat) in EnrichAll(Filter(rows, Kept), asFloat)
  {
    var kept := Filter(rows, Kept);
    forall r | r in rows && Kept(r) ensures Enrich(r, asFloat) in EnrichAll(kept, asFloat) {
      KeptMember(rows, kept, r, asFloat);
    }
  }

  lemma KeptMember(rows: seq<Row>, kept: seq<Row>, x: Row, asFloat: bool)
    requires forall r :: r in rows ==> Stringable(Get(r, Rpa))
    requires kept == Filter(rows, Kept)
    requires x in rows && Kept(x)
    ensures Enrich(x, asFloat) in EnrichAll(kept, asFloat)
  {
    assert x in kept;
    EnrichedMember(kept, x, asFloat);
  }

  lemma EnrichedMember(rows: seq<Row>, x: Row, asFloat: bool)
    requires forall r :: r in rows ==> Stringable(Get(r, Rpa))
    requires x in rows
    ensures Enrich(x, asFloat) in EnrichAll(rows, asFloat)
  {
    var k := FirstIndex(rows, x);
    assert EnrichAll(rows, asFloat)[k] == Enrich(x, asFloat);
  }

  /** The two filters only remove rows: the output is an order-preserving
      subsequence of the enriched table, with each surviving row unchanged. */
  lemma TratamentoIsSubseq(f: Frame)
    requires ParsedTable(f)
    ensures Subseq(TratamentoDados(f).rows, Prepare(f).rows)
  {
    FilterEnriched(f.rows, FloatCodes(f.rows));
    FilterIsSubseq(EnrichAll(f.rows, FloatCodes(f.rows)), InYearAndGroup);
  }

  // ---------------------------------------------------------------------------
  // Worked rows

  const March1 := Date(2024, 3, 1)
  const March5 := Date(2024, 3, 5)

  function DemandRow(demand: ValidDate, code: Cell, group: string): Row
  {
    map[DataDemanda := Day(demand), DataUltSituacao := Day(March5), Rpa := code,
        GrupoServico := Text(group)]
  }

  /** A 2024 drainage request from district 1 is kept, four days elapsed,
      demanded on a Friday, in the central zone. */
  lemma ScenarioKeptCentral()
    ensures var r := DemandRow(March1, Text("1"), "DRENAGEM");
      && Kept(r)
      && Get(Enrich(r, false), DiferencaDias) == Int(4)
      && Get(Enrich(r, false), DiaSemana) == Int(4)
      && Get(Enrich(r, false), Zona) == Text("Centro")
  {
    March2024();
    var r := DemandRow(March1, Text("1"), "DRENAGEM");
    EnrichedRow(r, false);
    EnrichedDates(r, false);
  }

  /** An unmapped district code keeps the row and gives the default zone. */
  lemma ScenarioUnmappedCode()
    ensures var r := DemandRow(March1, Text("9"), "DRENAGEM");
      Kept(r) && Get(Enrich(r, false), Zona) == Text(NaoInformado)
  {
    EnrichedRow(DemandRow(March1, Text("9"), "DRENAGEM"), false);
  }

  /** Integer codes: alone they load as integers and code 1 is Centro; next
      to a missing code the column loads as float64, code 1 renders as
      "1.0" and falls to the default zone. */
  lemma ScenarioFloatCodes()
    ensures var one := DemandRow(March1, Int(1), "DRENAGEM");
      && !FloatCodes([one])
      && Get(Enrich(one, false), Zona) == Text("Centro")
      && FloatCodes([one, DemandRow(March1, Null, "DRENAGEM")])
      && Get(Enrich(one, true), Zona) == Text(NaoInformado)
  {
    var one := DemandRow(March1, Int(1), "DRENAGEM");
    var rows := [one, DemandRow(March1, Null, "DRENAGEM")];
    assert Get(rows[1], Rpa).Null?;
    assert AsStr(Int(1), false) == "1";
    EnrichedRow(one, false);
    EnrichedRow(one, true);
    IntCodeZone(1, true);
  }

  /** A 2023 request is dropped; so is one outside the four groups. */
  lemma ScenarioDropped()
    ensures !Kept(DemandRow(Date(2023, 12, 31), Text("1"), "DRENAGEM"))
    ensures !Kept(DemandRow(March1, Text("1"), "PAVIMENTAÇÃO"))
  {
  }
}
