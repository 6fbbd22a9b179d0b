/**
  Preprocessing of the GOG game catalogue (GOGView/datasetoverview.py): keep
  released games, drop 26 columns, coerce `dateGlobal` to a date (an
  unreadable value becomes missing rather than an error), derive its year and
  month, and list the distinct genres and operating systems by exploding the
  per-game lists and keeping first occurrences.

  Reading the CSV, the text-to-date parser and `ast.literal_eval` are outside
  the model: the date parser is a parameter, and the list columns already
  hold lists of strings.
*/
module GogOverview {
  import opened Calendar
  import opened Seqs
  import opened Frames

  const TypeCol := "type"
  const IsInDevelopment := "isInDevelopment"
  const IsComingSoon := "isComingSoon"
  const DateGlobal := "dateGlobal"
  const YearGlobal := "YearGlobal"
  const MonthGlobal := "MonthGlobal"
  const Genres := "genres"
  const Systems := "supportedOperatingSystems"

  /** The columns removed as irrelevant; the three filter columns are among them. */
  const Dropped: seq<string> :=
    ["category", "isComingSoon", "availability", "isInDevelopment", "isDiscounted_main", "type",
     "isGame", "isMod", "supportUrl", "releaseDate", "gallery", "video", "isTBA", "forumUrl",
     "worksOn", "originalCategory", "isMovie", "slug", "isWishlistable", "boxImage", "promoId",
     "filteredAvgRating", "isReviewable", "reviewPages", "globalReleaseDate", "dateReleaseDate"]

  // ---------------------------------------------------------------------------
  // Row filters

  /** `== False` in pandas: true for False and, as Python compares numbers
      with booleans, for 0; false for a missing value. */
  predicate FalseLike(c: Cell)
  {
    c == Bool(false) || c == Int(0)
  }

  /** `type.isin([1])`: true for 1 and, as Python compares booleans with
      numbers, for True; false for a missing value. */
  predicate IsGameType(r: Row)
  {
    Get(r, TypeCol) == Int(1) || Get(r, TypeCol) == Bool(true)
  }

  predicate NotInDevelopment(r: Row)
  {
    FalseLike(Get(r, IsInDevelopment))
  }

  predicate NotComingSoon(r: Row)
  {
    FalseLike(Get(r, IsComingSoon))
  }

  predicate KeepGame(r: Row)
  {
    IsGameType(r) && NotInDevelopment(r) && NotComingSoon(r)
  }

  predicate InDevelopmentFilters(r: Row)
  {
    IsGameType(r) && NotInDevelopment(r)
  }

  /** A row is kept iff its type is 1 or True and neither flag is True or
      missing: each flag must be False or 0. */
  lemma KeepGameCases(r: Row)
    ensures KeepGame(r) <==>
      && (Get(r, TypeCol) == Int(1) || Get(r, TypeCol) == Bool(true))
      && (Get(r, IsInDevelopment) == Bool(false) || Get(r, IsInDevelopment) == Int(0))
      && (Get(r, IsComingSoon) == Bool(false) || Get(r, IsComingSoon) == Int(0))
  {
  }

  /** Lines 14-16: the three masks in turn keep exactly the rows satisfying
      all three predicates, in their order and unchanged. */
  function FilterGames(f: Frame): (g: Frame)
    requires WellFormed(f)
    ensures WellFormed(g) && g.columns == f.columns
    ensures g.rows == Filter(f.rows, KeepGame)
  {
    var g := Where(Where(Where(f, IsGameType), NotInDevelopment), NotComingSoon);
    FilterFilter(f.rows, IsGameType, NotInDevelopment, InDevelopmentFilters);
    FilterFilter(f.rows, InDevelopmentFilters, NotComingSoon, KeepGame);
    g
  }

  // ---------------------------------------------------------------------------
  // Dates

  /** `to_datetime(errors='coerce')` on one cell: a date stays, text the
      parser reads becomes a date, anything else becomes missing. */
  function ToDatetime(c: Cell, parse: string -> Option<ValidDate>): (d: Cell)
    ensures d.Null? || d.Day?
  {
    match c
    case Day(_) => c
    case Text(s) => (match parse(s) case Some(v) => Day(v) case None => Null)
    case _ => Null
  }

  /** Coercion never fails, keeps dates, and turns exactly the unreadable or
      missing values into missing; coercing twice changes nothing. */
  lemma ToDatetimeCases(c: Cell, parse: string -> Option<ValidDate>)
    ensures c.Day? ==> ToDatetime(c, parse) == c
    ensures ToDatetime(c, parse).Null? <==> !c.Day? && !(c.Text? && parse(c.s).Some?)
    ensures c.Text? && parse(c.s).Some? ==> ToDatetime(c, parse) == Day(parse(c.s).value)
    ensures ToDatetime(ToDatetime(c, parse), parse) == ToDatetime(c, parse)
  {
  }

  /** `.dt.year` */
  function YearOfDate(c: Cell): Cell
  {
    match c
    case Day(d) => Int(d.year)
    case _ => Null
  }

  /** `.dt.month` */
  function MonthOfDate(c: Cell): Cell
  {
    match c
    case Day(d) => Int(d.month)
    case _ => Null
  }

  /** YearGlobal and MonthGlobal are missing exactly when the date is, and
      a present month is 1..12; together they name the date's month. */
  lemma YearMonthOfDate(c: Cell)
    requires c.Null? || c.Day?
    ensures YearOfDate(c).Null? <==> c.Null?
    ensures MonthOfDate(c).Null? <==> c.Null?
    ensures c.Day? ==> YearOfDate(c) == Int(c.d.year) && MonthOfDate(c).Int? && 1 <= MonthOfDate(c).i <= 12
  {
  }

  function ParsedDate(parse: string -> Option<ValidDate>): Row -> Cell
  {
    r => ToDatetime(Get(r, DateGlobal), parse)
  }

  function YearCell(r: Row): Cell
  {
    YearOfDate(Get(r, DateGlobal))
  }

  function MonthCell(r: Row): Cell
  {
    MonthOfDate(Get(r, DateGlobal))
  }

  /** Lines 22-26 on one row. */
  function DatedRow(r: Row, parse: string -> Option<ValidDate>): Row
  {
    var d := ToDatetime(Get(r, DateGlobal), parse);
    r[DateGlobal := d][YearGlobal := YearOfDate(d)][MonthGlobal := MonthOfDate(d)]
  }

  /** Lines 22-26: `dateGlobal` coerced, YearGlobal and MonthGlobal added. */
  function AddDates(f: Frame, parse: string -> Option<ValidDate>): (g: Frame)
    requires WellFormed(f)
    ensures WellFormed(g)
    ensures forall c :: c in g.columns <==> c in f.columns || c == DateGlobal || c == YearGlobal || c == MonthGlobal
    ensures |g.rows| == |f.rows|
    ensures forall i :: 0 <= i < |g.rows| ==> g.rows[i] == DatedRow(f.rows[i], parse)
  {
    var f1 := WithColumn(f, DateGlobal, ParsedDate(parse));
    var f2 := WithColumn(f1, YearGlobal, YearCell);
    var f3 := WithColumn(f2, MonthGlobal, MonthCell);
    forall i | 0 <= i < |f3.rows| ensures f3.rows[i] == DatedRow(f.rows[i], parse) {
      var r := f.rows[i];
      var d := ToDatetime(Get(r, DateGlobal), parse);
      assert f1.rows[i] == r[DateGlobal := d];
      assert Get(f2.rows[i], DateGlobal) == d;
    }
    f3
  }

  // ---------------------------------------------------------------------------
  // Explode and unique

  /** The strings of a list cell. */
  function ListOf(c: Cell): seq<string>
  {
    if c.Items? then c.xs else []
  }

  /** `Series.explode` on one cell: each list element becomes an entry, an
      empty list one missing entry, and a non-list value stays as it is. */
  function ExplodeCell(c: Cell): (xs: seq<Cell>)
    ensures |xs| >= 1
  {
    match c
    case Items(ss) => if |ss| == 0 then [Null] else seq(|ss|, i requires 0 <= i < |ss| => Text(ss[i]))
    case _ => [c]
  }

  function Explode(cs: seq<Cell>): (xs: seq<Cell>)
    ensures |xs| >= |cs|
  {
    if |cs| == 0 then [] else ExplodeCell(cs[0]) + Explode(cs[1..])
  }

  /** Exploding a column piece by piece gives the same series. */
  lemma {:induction false} ExplodeAppend(a: seq<Cell>, b: seq<Cell>)
    ensures Explode(a + b) == Explode(a) + Explode(b)
  {
    if |a| == 0 {
      assert a + b == b;
    } else {
      assert (a + b)[0] == a[0];
      assert (a + b)[1..] == a[1..] + b;
      ExplodeAppend(a[1..], b);
    }
  }

  /** The entries of one list cell: its strings, or one missing entry for an
      empty list. */
  lemma ExplodeCellMembers(c: Cell, x: Cell)
    requires c.Items?
    ensures x in ExplodeCell(c) <==> (|c.xs| == 0 && x == Null) || (x.Text? && x.s in c.xs)
  {
    if x.Text? && x.s in c.xs {
      var k :| 0 <= k < |c.xs| && c.xs[k] == x.s;
      assert ExplodeCell(c)[k] == x;
    }
  }

  lemma {:induction false} ExplodeMembers(cs: seq<Cell>, x: Cell)
    ensures x in Explode(cs) <==> exists i :: 0 <= i < |cs| && x in ExplodeCell(cs[i])
  {
    if |cs| > 0 {
      ExplodeMembers(cs[1..], x);
      if x in Explode(cs[1..]) {
        var i :| 0 <= i < |cs[1..]| && x in ExplodeCell(cs[1..][i]);
        assert cs[1..][i] == cs[i + 1];
      }
      if exists i :: 0 <= i < |cs| && x in ExplodeCell(cs[i]) {
        var i :| 0 <= i < |cs| && x in ExplodeCell(cs[i]);
        if i > 0 {
          assert cs[1..][i - 1] == cs[i];
        }
      }
    }
  }

  /** The distinct values of a list column, as `explode().unique()` gives
      them: every string of every list once, plus a missing marker exactly
      when some list is empty, and nothing else. */
  lemma UniqueOfLists(cs: seq<Cell>)
    requires forall i :: 0 <= i < |cs| ==> cs[i].Items?
    ensures Distinct(Unique(Explode(cs)))
    ensures forall s :: Text(s) in Unique(Explode(cs)) <==> exists i :: 0 <= i < |cs| && s in cs[i].xs
    ensures Null in Unique(Explode(cs)) <==> exists i :: 0 <= i < |cs| && cs[i] == Items([])
    ensures forall x :: x in Unique(Explode(cs)) ==> x.Null? || x.Text?
  {
    forall s ensures Text(s) in Explode(cs) <==> exists i :: 0 <= i < |cs| && s in cs[i].xs {
      ExplodedText(cs, s);
    }
    ExplodedNull(cs);
    forall x | x in Explode(cs) ensures x.Null? || x.Text? {
      ExplodeMembers(cs, x);
      var i :| 0 <= i < |cs| && x in ExplodeCell(cs[i]);
      ExplodeCellMembers(cs[i], x);
    }
  }

  lemma ExplodedText(cs: seq<Cell>, s: string)
    requires forall i :: 0 <= i < |cs| ==> cs[i].Items?
    ensures Text(s) in Explode(cs) <==> exists i :: 0 <= i < |cs| && s in cs[i].xs
  {
    ExplodeMembers(cs, Text(s));
    forall i | 0 <= i < |cs| ensures Text(s) in ExplodeCell(cs[i]) <==> s in cs[i].xs {
      ExplodeCellMembers(cs[i], Text(s));
    }
  }

  lemma ExplodedNull(cs: seq<Cell>)
    requires forall i :: 0 <= i < |cs| ==> cs[i].Items?
    ensures Null in Explode(cs) <==> exists i :: 0 <= i < |cs| && cs[i] == Items([])
  {
    ExplodeMembers(cs, Null);
    forall i | 0 <= i < |cs| ensures Null in ExplodeCell(cs[i]) <==> cs[i] == Items([]) {
      ExplodeCellMembers(cs[i], Null);
    }
  }

  /** The unique values keep the order in which they first appear, and each
      appears once. */
  lemma UniqueOfListsOrder(cs: seq<Cell>)
    ensures forall i, j :: 0 <= i < j < |Unique(Explode(cs))| ==>
      FirstIndex(Explode(cs), Unique(Explode(cs))[i]) < FirstIndex(Explode(cs), Unique(Explode(cs))[j])
    ensures forall x :: x in Explode(cs) ==> multiset(Unique(Explode(cs)))[x] == 1
  {
    UniqueFirstAppearanceOrder(Explode(cs));
    forall x | x in Explode(cs) ensures multiset(Unique(Explode(cs)))[x] == 1 {
      UniqueOnce(Explode(cs), x);
    }
  }

  // ---------------------------------------------------------------------------
  // The script

  /** The table as read: every dropped column, `dateGlobal`, `genres` and
      `supportedOperatingSystems` present (pandas raises KeyError on a
      missing one), and the two list columns holding lists on the rows the
      filters keep (`literal_eval` would raise on anything else). */
  ghost predicate GogInput(f: Frame)
  {
    && WellFormed(f)
    && HasColumns(f, Dropped)
    && DateGlobal in f.columns
    && Genres in f.columns && Systems in f.columns
    && forall i :: 0 <= i < |f.rows| && KeepGame(f.rows[i]) ==>
         Get(f.rows[i], Genres).Items? && Get(f.rows[i], Systems).Items?
  }

  /** One kept game as the script leaves it. */
  function GameRow(r: Row, parse: string -> Option<ValidDate>): Row
  {
    DatedRow(r - NameSet(Dropped), parse)
  }

  function GameRows(rows: seq<Row>, parse: string -> Option<ValidDate>): (out: seq<Row>)
    ensures |out| == |rows|
    ensures forall i :: 0 <= i < |rows| ==> out[i] == GameRow(rows[i], parse)
  {
    seq(|rows|, i requires 0 <= i < |rows| => GameRow(rows[i], parse))
  }

  /** The columns the script reads or adds after the drop survive it. */
  lemma KeptColumnsNotDropped()
    ensures DateGlobal !in Dropped && YearGlobal !in Dropped && MonthGlobal !in Dropped
    ensures Genres !in Dropped && Systems !in Dropped
  {
    DateNotDropped();
    YearNotDropped();
    MonthNotDropped();
    GenresNotDropped();
    SystemsNotDropped();
  }

  // One literal comparison each: proved together they exceed the solver's budget.
  lemma DateNotDropped() ensures DateGlobal !in Dropped {}
  lemma YearNotDropped() ensures YearGlobal !in Dropped {}
  lemma MonthNotDropped() ensures MonthGlobal !in Dropped {}
  lemma GenresNotDropped() ensures Genres !in Dropped {}
  lemma SystemsNotDropped() ensures Systems !in Dropped {}

  /** Lines 14-26: filter, drop, coerce the date and add its year and month. */
  function Games(f: Frame, parse: string -> Option<ValidDate>): (g: Frame)
    requires GogInput(f)
    ensures WellFormed(g)
    ensures forall c :: c in g.columns <==>
      (c in f.columns && c !in Dropped) || c == YearGlobal || c == MonthGlobal
    ensures g.rows == GameRows(Filter(f.rows, KeepGame), parse)
  {
    var kept := FilterGames(f);
    var dropped := Drop(kept, Dropped);
    var games := AddDates(dropped, parse);
    KeptColumnsNotDropped();
    GamesColumns(f, dropped, games);
    GamesRowsEqual(kept.rows, dropped.rows, games.rows, parse);
    games
  }

  lemma GamesRowsEqual(kept: seq<Row>, dropped: seq<Row>, games: seq<Row>, parse: string -> Option<ValidDate>)
    requires |dropped| == |kept| && |games| == |kept|
    requires forall i :: 0 <= i < |kept| ==> dropped[i] == kept[i] - NameSet(Dropped)
    requires forall i :: 0 <= i < |kept| ==> games[i] == DatedRow(dropped[i], parse)
    ensures games == GameRows(kept, parse)
  {
  }

  lemma GamesColumns(f: Frame, dropped: Frame, games: Frame)
    requires DateGlobal in f.columns && DateGlobal !in Dropped
    requires forall c :: c in dropped.columns <==> c in f.columns && c !in Dropped
    requires forall c :: c in games.columns <==>
      c in dropped.columns || c == DateGlobal || c == YearGlobal || c == MonthGlobal
    ensures forall c :: c in games.columns <==>
      (c in f.columns && c !in Dropped) || c == YearGlobal || c == MonthGlobal
  {
  }

  datatype Overview = Overview(games: Frame, uniqueGenres: seq<Cell>, uniqueOs: seq<Cell>)

  /** `u` is `explode().unique()` of the list column `c` of `g`: no value
      twice; a string exactly when some row's list holds it; a missing
      marker exactly when some row's list is empty; nothing else; and the
      values in the order they first appear in the exploded column. */
  ghost predicate DistinctListValues(g: Frame, c: string, u: seq<Cell>)
  {
    var exploded := Explode(Column(g, c));
    && Distinct(u)
    && (forall s :: Text(s) in u <==> exists i :: 0 <= i < |g.rows| && s in ListOf(Get(g.rows[i], c)))
    && (Null in u <==> exists i :: 0 <= i < |g.rows| && Get(g.rows[i], c) == Items([]))
    && (forall x :: x in u ==> (x.Null? || x.Text?) && x in exploded)
    && (forall i, j :: 0 <= i < j < |u| ==> FirstIndex(exploded, u[i]) < FirstIndex(exploded, u[j]))
  }

  /** The whole script: the released games reshaped, and the distinct genres
      and operating systems of their lists, in order of first appearance. */
  function GogOverview(f: Frame, parse: string -> Option<ValidDate>): (o: Overview)
    requires GogInput(f)
    ensures o.games.rows == GameRows(Filter(f.rows, KeepGame), parse)
    ensures forall c :: c in o.games.columns <==>
      (c in f.columns && c !in Dropped) || c == YearGlobal || c == MonthGlobal
    ensures DistinctListValues(FilterGames(f), Genres, o.uniqueGenres)
    ensures DistinctListValues(FilterGames(f), Systems, o.uniqueOs)
  {
    var games := Games(f, parse);
    OverviewLists(f, parse, Genres);
    OverviewLists(f, parse, Systems);
    Overview(games, Unique(Explode(Column(games, Genres))), Unique(Explode(Column(games, Systems))))
  }

  /** A list column of the result is that of the kept input rows (the drop
      and the date columns leave it alone), and its unique values are as
      `DistinctListValues` states. */
  lemma OverviewLists(f: Frame, parse: string -> Option<ValidDate>, c: string)
    requires GogInput(f) && (c == Genres || c == Systems)
    ensures Column(Games(f, parse), c) == Column(FilterGames(f), c)
    ensures DistinctListValues(FilterGames(f), c, Unique(Explode(Column(FilterGames(f), c))))
  {
    var kept := FilterGames(f);
    GamesListColumn(f, parse, c);
    KeptHoldLists(f, kept.rows);
    forall i | 0 <= i < |kept.rows| ensures Get(kept.rows[i], c).Items? {
      assert kept.rows[i] in kept.rows;
    }
    UniqueListColumn(kept, c);
  }

  lemma GamesListColumn(f: Frame, parse: string -> Option<ValidDate>, c: string)
    requires GogInput(f) && (c == Genres || c == Systems)
    ensures Column(Games(f, parse), c) == Column(FilterGames(f), c)
  {
    var kept := FilterGames(f).rows;
    var games := Games(f, parse).rows;
    assert games == GameRows(kept, parse);
    forall i | 0 <= i < |kept| ensures Get(games[i], c) == Get(kept[i], c) {
      CarriedLists(kept[i], parse);
    }
  }

  /** `explode().unique()` of a column holding lists. */
  lemma UniqueListColumn(g: Frame, c: string)
    requires forall i :: 0 <= i < |g.rows| ==> Get(g.rows[i], c).Items?
    ensures DistinctListValues(g, c, Unique(Explode(Column(g, c))))
  {
    UniqueListMembers(g, c);
    UniqueOfListsOrder(Column(g, c));
  }

  lemma UniqueListMembers(g: Frame, c: string)
    requires forall i :: 0 <= i < |g.rows| ==> Get(g.rows[i], c).Items?
    ensures var u := Unique(Explode(Column(g, c)));
      && Distinct(u)
      && (forall s :: Text(s) in u <==> exists i :: 0 <= i < |g.rows| && s in ListOf(Get(g.rows[i], c)))
      && (Null in u <==> exists i :: 0 <= i < |g.rows| && Get(g.rows[i], c) == Items([]))
      && (forall x :: x in u ==> (x.Null? || x.Text?) && x in Explode(Column(g, c)))
  {
    UniqueOfLists(Column(g, c));
  }

  /** The filters read `type`, `isInDevelopment` and `isComingSoon`, and
      the drop removes all three: the script has to filter first. */
  lemma FiltersNeedDroppedColumns(f: Frame)
    requires WellFormed(f) && HasColumns(f, Dropped)
    ensures TypeCol !in Drop(f, Dropped).columns
    ensures IsInDevelopment !in Drop(f, Dropped).columns
    ensures IsComingSoon !in Drop(f, Dropped).columns
  {
    FilterColumnsDropped();
  }

  lemma FilterColumnsDropped()
    ensures TypeCol in Dropped && IsInDevelopment in Dropped && IsComingSoon in Dropped
  {
    assert TypeCol == Dropped[5] && IsInDevelopment == Dropped[3] && IsComingSoon == Dropped[1];
  }

  /** A game as the script leaves it: the listed columns are gone,
      `dateGlobal` is a date or missing, and YearGlobal and MonthGlobal are
      missing exactly when it is, with a month in 1..12. */
  ghost predicate GameShape(row: Row)
  {
    && (forall k :: 0 <= k < |Dropped| ==> Dropped[k] !in row)
    && (Get(row, DateGlobal).Null? || Get(row, DateGlobal).Day?)
    && (Get(row, YearGlobal).Null? <==> Get(row, DateGlobal).Null?)
    && (Get(row, MonthGlobal).Null? <==> Get(row, DateGlobal).Null?)
    && (Get(row, MonthGlobal).Int? ==> 1 <= Get(row, MonthGlobal).i <= 12)
  }

  /** Each returned game is a kept input row, reshaped. */
  lemma GamesRows(f: Frame, parse: string -> Option<ValidDate>)
    requires GogInput(f)
    ensures forall row :: row in Games(f, parse).rows ==>
      GameShape(row) && exists r :: r in f.rows && KeepGame(r) && row == GameRow(r, parse)
  {
    var kept := Filter(f.rows, KeepGame);
    var rows := Games(f, parse).rows;
    forall row | row in rows
      ensures GameShape(row) && exists r :: r in f.rows && KeepGame(r) && row == GameRow(r, parse)
    {
      var i := FirstIndex(rows, row);
      var r := kept[i];
      assert r in kept;
      GameRowFacts(r, parse);
    }
  }

  lemma GameRowFacts(r: Row, parse: string -> Option<ValidDate>)
    ensures GameShape(GameRow(r, parse))
  {
    var base := r - NameSet(Dropped);
    var d := ToDatetime(Get(base, DateGlobal), parse);
    var row := GameRow(r, parse);
    KeptColumnsNotDropped();
    assert row == base[DateGlobal := d][YearGlobal := YearOfDate(d)][MonthGlobal := MonthOfDate(d)];
    assert Get(row, DateGlobal) == d && Get(row, YearGlobal) == YearOfDate(d) && Get(row, MonthGlobal) == MonthOfDate(d);
    YearMonthOfDate(d);
    forall k | 0 <= k < |Dropped| ensures Dropped[k] !in row {
      assert Dropped[k] in NameSet(Dropped);
    }
  }

  /** Every kept input row shows up among the games. */
  lemma GamesComplete(f: Frame, parse: string -> Option<ValidDate>)
    requires GogInput(f)
    ensures forall r :: r in f.rows && KeepGame(r) ==> GameRow(r, parse) in Games(f, parse).rows
  {
    var kept := Filter(f.rows, KeepGame);
    var rows := Games(f, parse).rows;
    forall r | r in f.rows && KeepGame(r) ensures GameRow(r, parse) in rows {
      assert r in kept;
      var k := FirstIndex(kept, r);
      assert rows[k] == GameRow(r, parse);
    }
  }

  lemma KeptHoldLists(f: Frame, kept: seq<Row>)
    requires GogInput(f) && kept == Filter(f.rows, KeepGame)
    ensures forall r :: r in kept ==> Get(r, Genres).Items? && Get(r, Systems).Items?
  {
    forall r | r in kept ensures Get(r, Genres).Items? && Get(r, Systems).Items? {
      var j :| 0 <= j < |f.rows| && f.rows[j] == r;
    }
  }

  lemma CarriedLists(r: Row, parse: string -> Option<ValidDate>)
    ensures Get(GameRow(r, parse), Genres) == Get(r, Genres)
    ensures Get(GameRow(r, parse), Systems) == Get(r, Systems)
  {
    KeptColumnsNotDropped();
    var base := r - NameSet(Dropped);
    assert Get(base, Genres) == Get(r, Genres) && Get(base, Systems) == Get(r, Systems);
  }
}
