/**
  A data frame as an ordered sequence of rows. Each row maps column names to
  cells; `Null` stands for every missing marker pandas uses (NaN, NaT, None).

  The three frame operations the scripts use are column assignment
  (`df[name] = ...`, which appends a new column or overwrites an existing
  one), `df.drop(columns=...)` (which raises KeyError on an absent name, a
  precondition here), and indexing with a boolean mask.
*/
module Frames {
  import opened Calendar
  import opened Order
  import opened Seqs

  datatype Cell =
    | Null
    | Bool(b: bool)
    | Int(i: int)
    | Text(s: string)
    | Day(d: ValidDate)
    | Items(xs: seq<string>)

  type Row = map<string, Cell>

  datatype Frame = Frame(columns: seq<string>, rows: seq<Row>)

  /** A value, or none (a parse that fails, a step the page never reaches). */
  datatype Option<T> = None | Some(value: T)

  ghost predicate WellFormed(f: Frame)
  {
    && Distinct(f.columns)
    && forall i :: 0 <= i < |f.rows| ==> f.rows[i].Keys == set c | c in f.columns
  }

  ghost predicate HasColumns(f: Frame, names: seq<string>)
  {
    forall k :: 0 <= k < |names| ==> names[k] in f.columns
  }

  /** The cell of `r` in column `c`, missing when the row has no such column. */
  function Get(r: Row, c: string): Cell
  {
    if c in r then r[c] else Null
  }

  /** The values of one column, top to bottom. */
  function Column(f: Frame, c: string): (col: seq<Cell>)
    ensures |col| == |f.rows|
    ensures forall i :: 0 <= i < |f.rows| ==> col[i] == Get(f.rows[i], c)
  {
    seq(|f.rows|, i requires 0 <= i < |f.rows| => Get(f.rows[i], c))
  }

  /** The distinct values of a column (`df[c].unique()` as a set). */
  function ColumnValues(f: Frame, c: string): (vs: set<Cell>)
    ensures forall i :: 0 <= i < |f.rows| ==> Get(f.rows[i], c) in vs
    ensures forall v :: v in vs ==> exists i :: 0 <= i < |f.rows| && Get(f.rows[i], c) == v
  {
    set i | 0 <= i < |f.rows| :: Get(f.rows[i], c)
  }

  function AddColumn(columns: seq<string>, name: string): seq<string>
  {
    if name in columns then columns else columns + [name]
  }

  /** `df[name] = g(row)` for every row: a new column goes last, an existing
      one keeps its place and gets new values; nothing else changes. */
  function WithColumn(f: Frame, name: string, g: Row --> Cell): (r: Frame)
    requires WellFormed(f)
    requires forall i :: 0 <= i < |f.rows| ==> g.requires(f.rows[i])
    ensures WellFormed(r)
    ensures forall c :: c in r.columns <==> c in f.columns || c == name
    ensures name in f.columns ==> r.columns == f.columns
    ensures |r.rows| == |f.rows|
    ensures forall i :: 0 <= i < |r.rows| ==>
      && r.rows[i][name] == g(f.rows[i])
      && forall c :: c in f.rows[i] && c != name ==> r.rows[i][c] == f.rows[i][c]
    ensures forall i :: 0 <= i < |r.rows| ==> r.rows[i] == f.rows[i][name := g(f.rows[i])]
  {
    var cols := AddColumn(f.columns, name);
    assert Distinct(cols);
    var rows := seq(|f.rows|, i requires 0 <= i < |f.rows| => f.rows[i][name := g(f.rows[i])]);
    assert forall i :: 0 <= i < |rows| ==> rows[i].Keys == set c | c in cols;
    Frame(cols, rows)
  }

  function NameSet(names: seq<string>): (ns: set<string>)
    ensures forall c :: c in ns <==> c in names
  {
    set c | c in names
  }

  /** `df.drop(columns=names)`: the named columns disappear, every other column
      keeps its position and its values. */
  function Drop(f: Frame, names: seq<string>): (r: Frame)
    requires WellFormed(f)
    requires HasColumns(f, names)
    ensures WellFormed(r)
    ensures forall c :: c in r.columns <==> c in f.columns && c !in names
    ensures Subseq(r.columns, f.columns)
    ensures |r.rows| == |f.rows|
    ensures forall i :: 0 <= i < |r.rows| ==> r.rows[i] == f.rows[i] - NameSet(names)
  {
    var cols := Filter(f.columns, c => c !in names);
    FilterIsSubseq(f.columns, c => c !in names);
    SubseqDistinct(cols, f.columns);
    var rows := seq(|f.rows|, i requires 0 <= i < |f.rows| => f.rows[i] - NameSet(names));
    forall i | 0 <= i < |rows| ensures rows[i].Keys == set c | c in cols {
      var ns := NameSet(names);
      assert rows[i] == f.rows[i] - ns;
      forall c ensures c in rows[i] <==> c in cols {
        assert c in ns <==> c in names;
        assert c in f.rows[i] <==> c in f.columns;
      }
    }
    Frame(cols, rows)
  }

  /** `df[mask]`: keeps the rows on which `p` holds, in order, with all columns. */
  function Where(f: Frame, p: Row -> bool): (r: Frame)
    requires WellFormed(f)
    ensures WellFormed(r)
    ensures r.columns == f.columns
    ensures forall i :: 0 <= i < |r.rows| ==> p(r.rows[i])
    ensures Subseq(r.rows, f.rows)
    ensures forall x :: multiset(r.rows)[x] == if p(x) then multiset(f.rows)[x] else 0
  {
    var rows := Filter(f.rows, p);
    FilterIsSubseq(f.rows, p);
    assert forall i :: 0 <= i < |rows| ==> rows[i] in f.rows;
    Frame(f.columns, rows)
  }

  /** The order on group keys: numerically, by code points for strings, by
      calendar order for dates. pandas sorts the values of one kind this way;
      it defines no order across kinds, so putting kinds in a fixed order is
      this model's convention. It changes nothing here, because every
      grouping column holds values of one kind besides the missing ones,
      which `groupby` drops. */
  function Rank(c: Cell): nat
  {
    match c
    case Null => 0
    case Bool(_) => 1
    case Int(_) => 2
    case Text(_) => 3
    case Day(_) => 4
    case Items(_) => 5
  }

  predicate CellLess(a: Cell, b: Cell)
  {
    if Rank(a) != Rank(b) then Rank(a) < Rank(b)
    else match (a, b)
      case (Bool(x), Bool(y)) => !x && y
      case (Int(x), Int(y)) => x < y
      case (Text(x), Text(y)) => StrLess(x, y)
      case (Day(x), Day(y)) => DateLess(x, y)
      case (Items(x), Items(y)) => Lex(x, y, StrLess)
      case _ => false
  }

  lemma CellLessStrictTotal()
    ensures StrictTotalOrder(CellLess)
  {
    StrLessStrictTotal();
    LexStrictTotal(CharLess);
    LexStrictTotal(StrLess);
    forall a: Cell ensures !CellLess(a, a) {
    }
    forall a: Cell, b: Cell, c: Cell | CellLess(a, b) && CellLess(b, c) ensures CellLess(a, c) {
      if Rank(a) == Rank(b) == Rank(c) {
        match (a, b, c)
        case (Text(x), Text(y), Text(z)) =>
        case (Items(x), Items(y), Items(z)) =>
        case _ =>
      }
    }
    forall a: Cell, b: Cell | a != b ensures CellLess(a, b) || CellLess(b, a) {
      if Rank(a) == Rank(b) {
        match (a, b)
        case (Day(x), Day(y)) =>
          assert x != y;
        case _ =>
      }
    }
  }

  /** A group key: the cells of the grouping columns, compared as a tuple. */
  type Key = seq<Cell>

  predicate KeyLess(a: Key, b: Key)
  {
    Lex(a, b, CellLess)
  }

  lemma KeyLessStrictTotal()
    ensures StrictTotalOrder(KeyLess)
  {
    CellLessStrictTotal();
    LexStrictTotal(CellLess);
  }
}
