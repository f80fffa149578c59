/**
  The domain summary table: one row per keyword of the shown domain, a
  keyword column, then for every engine a rank column and a diff column.
  Clicking a column header sorts the rows by that column, or reverses them
  when they are already in that column's order.
 */
module SummaryTable {
  import opened Wrappers
  import opened Entities
  import opened Engines
  import opened DataModel
  import opened Store
  import opened Provider
  import opened History
  import opened Ordering
  import opened Transactions

  // Halving as C++ does it: the quotient truncated toward zero, the
  // remainder taking the sign of the dividend.

  function CppHalf(a: int): (q: int)
    ensures a >= 0 ==> q == a / 2
    ensures a < 0 ==> q == -((-a) / 2)
  {
    if a >= 0 then a / 2 else -((-a) / 2)
  }

  function CppParity(a: int): (r: int)
    ensures a == 2 * CppHalf(a) + r
    ensures a >= 0 ==> r == a % 2
    ensures a < 0 ==> r == -((-a) % 2)
  {
    a - 2 * CppHalf(a)
  }

  /** Unlike Dafny's `%`, the C++ remainder of -1 by 2 is -1: column 0
      falls in neither the rank branch nor the diff branch. */
  lemma CppParityOfMinusOne()
    ensures CppParity(-1) == -1 && CppHalf(-1) == 0
    ensures (-1) % 2 == 1
  {
  }

  // The table's state.

  /** The shown domain, its engines in column order, the keywords in row
      order and the row and column counts the widget was given. */
  datatype Table = Table(domain: Option<Domain>, engines: seq<Id>, keywords: seq<Keyword>, rows: nat, cols: nat)

  /** A table as `refresh_view` leaves it for a domain. */
  predicate Refreshed(tb: Table) {
    && tb.domain.Some?
    && tb.engines == AscendingIds(tb.domain.value.engines)
    && tb.rows == |tb.keywords|
    && tb.cols == 2 * |tb.engines| + 1
  }

  /** What `refresh_view` leaves behind: the table, the table's data
      provider, if it has one, and the alert it raised, if any. */
  datatype Refresh = Refresh(table: Table, db: Option<DataProvider>, alert: Option<string>)

  /** The alert shown when a domain's keywords cannot be loaded. */
  function LoadAlert(d: Domain): string {
    "Failed to load the keywords for domain: " + d.name
  }

  /** Reading a domain's keywords inside a read-only guarded transaction:
      the keywords of the committed tables, or the error the commit
      throws; either way the transaction is over and nothing is published. */
  function LoadKeywords(p: DataProvider, d: Domain): (r: (DataProvider, Result<seq<Keyword>, DbError>))
    ensures r.0 == p.(current := None)
    ensures r.1.Ok? <==> p.commitCode == 0
    ensures r.1.Ok? ==> r.1.value == Keywords(p.committed, d)
    ensures r.1.Err? ==> r.1.error == Failure(DbCall.Commit, p.commitCode)
  {
    var s := CreateTransaction(p, false);
    var ks := Keywords(s.provider.current.value.tables, d);
    var thrown := CommitThrown(s.provider);
    (GuardDestroy(GuardCommit(s)), if thrown.Some? then Err(thrown.value) else Ok(ks))
  }

  /** `refresh_view`: without a domain only the engine list is cleared;
      with one, one rank and one diff column per engine after the keyword
      column, and one row per keyword the provider lists for the domain.
      Without a provider there are no rows; when the load throws, there
      are none either and the alert names the domain. */
  function RefreshView(db: Option<DataProvider>, tb: Table): (r: Refresh)
    ensures tb.domain.None? ==> r == Refresh(tb.(engines := []), db, None)
    ensures tb.domain.Some? ==> Refreshed(r.table) && r.table.domain == tb.domain
    ensures tb.domain.Some? ==> forall e :: e in r.table.engines <==> e in tb.domain.value.engines
    ensures db.None? ==> r.db.None? && r.alert.None?
    ensures db.None? && tb.domain.Some? ==> r.table.keywords == [] && r.table.rows == 0
    ensures db.Some? ==> r.db.Some? && r.db.value.committed == db.value.committed
    ensures db.Some? && tb.domain.Some? ==>
              && (r.alert.None? <==> db.value.commitCode == 0)
              && (r.alert.None? ==> r.table.keywords == Keywords(db.value.committed, tb.domain.value))
              && (r.alert.Some? ==> r.table.keywords == [] && r.table.rows == 0 && r.alert.value == LoadAlert(tb.domain.value))
  {
    match tb.domain
    case None => Refresh(tb.(engines := []), db, None)
    case Some(d) =>
      var shown := Table(Some(d), AscendingIds(d.engines), [], 0, 2 * |d.engines| + 1);
      match db
      case None => Refresh(shown, None, None)
      case Some(p) =>
        var l := LoadKeywords(p, d);
        if l.1.Ok? then Refresh(shown.(keywords := l.1.value, rows := |l.1.value|), Some(l.0), None)
        else Refresh(shown, Some(l.0), Some(LoadAlert(d)))
  }

  /** Refreshing again without any change in between shows the same table,
      raises the same alert and leaves the provider as the first refresh
      did. */
  lemma RefreshTwice(db: Option<DataProvider>, tb: Table)
    ensures var r := RefreshView(db, tb);
      RefreshView(r.db, r.table) == r
  {
  }

  /** When every keyword the domain links is stored and the load succeeds,
      the table has one row per linked keyword id. */
  lemma RefreshRowsCount(p: DataProvider, tb: Table)
    requires tb.domain.Some? && p.commitCode == 0
    requires forall id :: id in Dups(p.committed.domainKeywords, tb.domain.value.id) ==> id in p.committed.keywords
    ensures RefreshView(Some(p), tb).table.rows == CountKeywords(p.committed, tb.domain.value)
    ensures RefreshView(Some(p), tb).alert.None?
  {
    CountMatchesKeywords(p.committed, tb.domain.value);
  }

  // Which column shows what.

  datatype Cell = KeywordCell | RankCell(engine: nat) | DiffCell(engine: nat) | Blank

  /** What the header of column `C` names. */
  function HeaderCell(tb: Table, C: nat): Cell {
    if C == 0 then KeywordCell
    else if tb.domain.Some? && C - 1 < 2 * |tb.domain.value.engines| then
      if CppParity(C - 1) == 0 then RankCell(CppHalf(C - 1)) else DiffCell(CppHalf(C - 1))
    else Blank
  }

  /** What the cell at row `R`, column `C` shows. The diff branch does not
      test the row, as in the drawing code. */
  function BodyCell(tb: Table, R: nat, C: nat): Cell {
    if tb.domain.Some? && C == 0 && R < |tb.keywords| then KeywordCell
    else if tb.domain.Some? && CppParity(C - 1) == 0 && CppHalf(C - 1) < |tb.engines| && R < |tb.keywords| then
      RankCell(CppHalf(C - 1))
    else if tb.domain.Some? && CppParity(C - 1) == 1 && CppHalf(C - 1) < |tb.domain.value.engines| then
      DiffCell(CppHalf(C - 1))
    else Blank
  }

  /** In a refreshed table, column 0 holds the keywords, column 2i+1 the
      ranks and column 2i+2 the diffs of engine i, on every row and in the
      header alike; the columns past the last diff column are blank. */
  lemma ColumnLayout(tb: Table, R: nat, C: nat)
    requires Refreshed(tb) && R < tb.rows
    ensures BodyCell(tb, R, C) == HeaderCell(tb, C)
    ensures C == 0 <==> BodyCell(tb, R, C) == KeywordCell
    ensures forall i: nat :: BodyCell(tb, R, C) == RankCell(i) <==> C == 2 * i + 1 && i < |tb.engines|
    ensures forall i: nat :: BodyCell(tb, R, C) == DiffCell(i) <==> C == 2 * i + 2 && i < |tb.engines|
    ensures BodyCell(tb, R, C) == Blank <==> C >= tb.cols
  {
    if C > 0 {
      assert CppHalf(C - 1) == (C - 1) / 2 && CppParity(C - 1) == (C - 1) % 2;
    }
  }

  // What a cell shows.

  datatype Colour = White | Black | Green | Yellow | Orange | Red

  datatype Text = Name(s: string) | Number(n: int) | Over100 | NotAvailable | Dash

  /** The text of a cell, its background and the colour of its text. */
  datatype View = View(text: Text, background: Colour, ink: Colour)

  /** The background of a rank: white when the page was not found,
      then green, yellow and orange as the rank gets worse. */
  function Band(rank: Rank): (c: Colour)
    ensures c == White <==> rank < 0
    ensures c == Green <==> 0 <= rank <= 10
    ensures c == Yellow <==> 10 < rank <= 30
    ensures c == Orange <==> 30 < rank
  {
    if rank < 0 then White else if rank <= 10 then Green else if rank <= 30 then Yellow else Orange
  }

  /** The order of the coloured bands. */
  function BandLevel(c: Colour): nat {
    match c
    case Green => 0
    case Yellow => 1
    case Orange => 2
    case _ => 3
  }

  /** A better rank never gets a worse band. */
  lemma BandMonotone(r1: Rank, r2: Rank)
    requires 0 <= r1 <= r2
    ensures BandLevel(Band(r1)) <= BandLevel(Band(r2)) < 3
  {
  }

  /** A rank cell: the last ranking's rank, ">100" when the page was not
      in the results, "N/A" when there is no ranking. */
  function RankView(r: Result<Ranking, DbError>): (v: View)
    ensures v.ink == Black
    ensures r.Err? <==> v.text == NotAvailable
    ensures r.Err? ==> v.background == White
    ensures r.Ok? ==> v.background == Band(r.value.rank)
    ensures r.Ok? && r.value.rank < 0 ==> v.text == Over100
    ensures r.Ok? && r.value.rank >= 0 ==> v.text == Number(r.value.rank)
  {
    match r
    case Err(_) => View(NotAvailable, White, Black)
    case Ok(x) => View(if x.rank < 0 then Over100 else Number(x.rank), Band(x.rank), Black)
  }

  /** A diff cell: the change of rank, green when the keyword moved up,
      red when it moved down, "-" when there is no change to show. */
  function DiffView(d: Result<Rank, DbError>): (v: View)
    ensures v.background == White
    ensures d.Err? <==> v.text == Dash
    ensures d.Ok? ==> v.text == Number(d.value)
    ensures v.ink == Green <==> d.Ok? && d.value > 0
    ensures v.ink == Red <==> d.Ok? && d.value < 0
  {
    match d
    case Err(_) => View(Dash, White, Black)
    case Ok(x) => View(Number(x), White, if x > 0 then Green else if x < 0 then Red else Black)
  }

  /** The cell at row `R`, column `C` of a refreshed table. */
  function CellView(t: Tables, tb: Table, R: nat, C: nat): (v: View)
    requires Refreshed(tb) && R < tb.rows
  {
    match BodyCell(tb, R, C)
    case KeywordCell => View(Name(tb.keywords[R].value), White, Black)
    case RankCell(i) => RankView(LastRanking(t, tb.keywords[R], tb.engines[i]))
    case DiffCell(i) => DiffView(DiffRanking(t, tb.keywords[R], tb.engines[i], Null, Null).result)
    case Blank => View(Name(""), White, Black)
  }

  /** Column 2i+1 of a refreshed table shows engine i's last ranking. */
  lemma RankCellIs(t: Tables, tb: Table, R: nat, i: nat)
    requires Refreshed(tb) && R < tb.rows && i < |tb.engines|
    ensures CellView(t, tb, R, 2 * i + 1) == RankView(LastRanking(t, tb.keywords[R], tb.engines[i]))
  {
    assert CppHalf(2 * i) == i && CppParity(2 * i) == 0;
  }

  /** Column 2i+2 of a refreshed table shows engine i's diff. */
  lemma DiffCellIs(t: Tables, tb: Table, R: nat, i: nat)
    requires Refreshed(tb) && R < tb.rows && i < |tb.engines|
    ensures CellView(t, tb, R, 2 * i + 2) == DiffView(DiffRanking(t, tb.keywords[R], tb.engines[i], Null, Null).result)
  {
    assert CppHalf(2 * i + 1) == i && CppParity(2 * i + 1) == 1;
  }

  /** A rank view shows the most recent entry of the keyword's history on
      the engine, and "N/A" exactly when the history is empty. */
  lemma RankViewOfRankings(t: Tables, k: Keyword, e: Id)
    requires Indexed(t)
    ensures var rs := Rankings(t, k, e);
      var v := RankView(LastRanking(t, k, e));
      && (v.text == NotAvailable <==> |rs| == 0)
      && (|rs| > 0 ==> v.background == Band(rs[|rs| - 1].rank))
      && (|rs| > 0 && rs[|rs| - 1].rank >= 0 ==> v.text == Number(rs[|rs| - 1].rank))
      && (|rs| > 0 && rs[|rs| - 1].rank < 0 ==> v.text == Over100)
  {
    LastIsLastOfRankings(t, k, e);
  }

  /** A diff view is green exactly when the last two rankings were both
      found and the last is better, red exactly when it is worse, and "-"
      unless both were found. */
  lemma DiffViewOfRankings(t: Tables, k: Keyword, e: Id)
    requires Indexed(t)
    ensures var rs := Rankings(t, k, e);
      var v := DiffView(DiffRanking(t, k, e, Null, Null).result);
      && (v.text == Dash <==> !(|rs| >= 2 && rs[|rs| - 1].rank >= 0 && rs[|rs| - 2].rank >= 0))
      && (v.ink == Green <==> |rs| >= 2 && 0 <= rs[|rs| - 1].rank < rs[|rs| - 2].rank)
      && (v.ink == Red <==> |rs| >= 2 && 0 <= rs[|rs| - 2].rank < rs[|rs| - 1].rank)
  {
    DiffOfRankings(t, k, e, Null, Null);
  }

  /** The rank cell of row R and engine i, read against the history. */
  lemma RankCellShowsLatest(t: Tables, tb: Table, R: nat, i: nat)
    requires Indexed(t) && Refreshed(tb) && R < tb.rows && i < |tb.engines|
    ensures var rs := Rankings(t, tb.keywords[R], tb.engines[i]);
      var v := CellView(t, tb, R, 2 * i + 1);
      && (v.text == NotAvailable <==> |rs| == 0)
      && (|rs| > 0 ==> v.background == Band(rs[|rs| - 1].rank))
  {
    RankCellIs(t, tb, R, i);
    RankViewOfRankings(t, tb.keywords[R], tb.engines[i]);
  }

  /** The diff cell of row R and engine i, read against the history. */
  lemma DiffCellShowsMove(t: Tables, tb: Table, R: nat, i: nat)
    requires Indexed(t) && Refreshed(tb) && R < tb.rows && i < |tb.engines|
    ensures var rs := Rankings(t, tb.keywords[R], tb.engines[i]);
      var v := CellView(t, tb, R, 2 * i + 2);
      && (v.ink == Green <==> |rs| >= 2 && 0 <= rs[|rs| - 1].rank < rs[|rs| - 2].rank)
      && (v.ink == Red <==> |rs| >= 2 && 0 <= rs[|rs| - 2].rank < rs[|rs| - 1].rank)
  {
    DiffCellIs(t, tb, R, i);
    DiffViewOfRankings(t, tb.keywords[R], tb.engines[i]);
  }

  // The three orders of a header click.

  /** What the rank comparator learns of a keyword's last ranking. */
  datatype Seen = Missing | Seen(rank: Rank)

  function LastSeen(t: Tables, k: Keyword, e: Id): (s: Seen)
    ensures s.Missing? <==> LastRanking(t, k, e).Err?
    ensures s.Seen? ==> s.rank == LastRanking(t, k, e).value.rank
  {
    match LastRanking(t, k, e)
    case Ok(r) => Seen(r.rank)
    case Err(_) => Missing
  }

  /** `keyword_rank_comp` on the two last rankings. */
  function RankBefore(a: Seen, b: Seen): bool {
    if a.Seen? && b.Seen? then
      if a.rank >= 0 && b.rank >= 0 then a.rank < b.rank else a.rank >= 0
    else a.Seen?
  }

  /** Found ranks come first, then "not in the results", then keywords
      never ranked. */
  function Tier(a: Seen): nat {
    if a.Missing? then 2 else if a.rank < 0 then 1 else 0
  }

  /** The rank comparator orders by tier, and found ranks by rank. */
  lemma RankBeforeTiers(a: Seen, b: Seen)
    ensures RankBefore(a, b) <==> Tier(a) < Tier(b) || (Tier(a) == 0 && Tier(b) == 0 && a.rank < b.rank)
  {
  }

  /** `keyword_rankdiff_comp`'s key: the diff, or -1 when there is none. */
  function DiffKey(t: Tables, k: Keyword, e: Id): Rank {
    match DiffRanking(t, k, e, Null, Null).result
    case Ok(d) => d
    case Err(_) => -1
  }

  /** With table and index in agreement, the diff key is the rise from
      the second-to-last to the last entry of the history, or -1 unless
      both were found. */
  lemma DiffKeyOfRankings(t: Tables, k: Keyword, e: Id)
    requires Indexed(t)
    ensures var rs := Rankings(t, k, e);
      DiffKey(t, k, e) ==
        if |rs| >= 2 && rs[|rs| - 1].rank >= 0 && rs[|rs| - 2].rank >= 0
        then rs[|rs| - 2].rank - rs[|rs| - 1].rank
        else -1
  {
    DiffOfRankings(t, k, e, Null, Null);
  }

  /** The column a header click sorts by. */
  datatype SortKey = ByName | ByRank(engine: Id) | ByDiff(engine: Id)

  /** `keyword_name_comp`, `keyword_rank_comp` and `keyword_rankdiff_comp`. */
  function Order(t: Tables, key: SortKey): (Keyword, Keyword) -> bool {
    match key
    case ByName => (a: Keyword, b: Keyword) => LexLess(a.value, b.value)
    case ByRank(e) => (a: Keyword, b: Keyword) => RankBefore(LastSeen(t, a, e), LastSeen(t, b, e))
    case ByDiff(e) => (a: Keyword, b: Keyword) => DiffKey(t, a, e) < DiffKey(t, b, e)
  }

  lemma RankBeforeTransitive(a: Seen, b: Seen, c: Seen)
    requires RankBefore(a, b) && RankBefore(b, c)
    ensures RankBefore(a, c)
  {
    RankBeforeTiers(a, b);
    RankBeforeTiers(b, c);
    RankBeforeTiers(a, c);
  }

  /** Keywords the comparator cannot tell apart form classes. */
  lemma RankBeforeNegTransitive(a: Seen, b: Seen, c: Seen)
    requires !RankBefore(a, b) && !RankBefore(b, c)
    ensures !RankBefore(a, c)
  {
    RankBeforeTiers(a, b);
    RankBeforeTiers(b, c);
    RankBeforeTiers(a, c);
  }

  lemma NameOrderStrictWeak(t: Tables)
    ensures StrictWeak(Order(t, ByName))
  {
    var less := Order(t, ByName);
    forall a ensures !less(a, a) {
      LexIrreflexive(a.value);
    }
    forall a, b, c | less(a, b) && less(b, c) ensures less(a, c) {
      LexTransitive(a.value, b.value, c.value);
    }
    forall a, b, c | !less(a, b) && !less(b, c) ensures !less(a, c) {
      LexNotLessTrans(a.value, b.value, c.value);
    }
  }

  lemma RankOrderStrictWeak(t: Tables, e: Id)
    ensures StrictWeak(Order(t, ByRank(e)))
  {
    var less := Order(t, ByRank(e));
    forall a, b, c | less(a, b) && less(b, c) ensures less(a, c) {
      RankBeforeTransitive(LastSeen(t, a, e), LastSeen(t, b, e), LastSeen(t, c, e));
    }
    forall a, b, c | !less(a, b) && !less(b, c) ensures !less(a, c) {
      RankBeforeNegTransitive(LastSeen(t, a, e), LastSeen(t, b, e), LastSeen(t, c, e));
    }
  }

  /** Each of the three comparators meets `std::sort`'s requirement. */
  lemma OrderStrictWeak(t: Tables, key: SortKey)
    ensures StrictWeak(Order(t, key))
  {
    match key
    case ByName => NameOrderStrictWeak(t);
    case ByRank(e) => RankOrderStrictWeak(t, e);
    case ByDiff(e) =>
  }

  /** The sort key of column `C`'s header. */
  function ClickKey(tb: Table, C: nat): (key: SortKey)
    requires C < 2 * |tb.engines| + 1
    ensures C == 0 <==> key == ByName
    ensures C > 0 && C % 2 == 1 ==> key == ByRank(tb.engines[(C - 1) / 2])
    ensures C > 0 && C % 2 == 0 ==> key == ByDiff(tb.engines[(C - 1) / 2])
  {
    if C == 0 then ByName
    else if CppParity(C - 1) == 0 then ByRank(tb.engines[CppHalf(C - 1)])
    else ByDiff(tb.engines[CppHalf(C - 1)])
  }

  /** A click on the header of column `C`: rows already in that column's
      order (as `std::is_sorted` checks it) are reversed, others sorted. */
  function HeaderClick(t: Tables, tb: Table, C: nat): (r: Table)
    requires C < 2 * |tb.engines| + 1
    ensures r == tb.(keywords := r.keywords)
  {
    tb.(keywords := Toggle(tb.keywords, Order(t, ClickKey(tb, C))))
  }

  /** A click keeps the same keywords; rows not in the column's order end
      up in it, rows already in it end up in the reverse order. */
  lemma HeaderClickSorts(t: Tables, tb: Table, C: nat)
    requires C < 2 * |tb.engines| + 1
    ensures var less := Order(t, ClickKey(tb, C));
      var r := HeaderClick(t, tb, C);
      && multiset(r.keywords) == multiset(tb.keywords)
      && (!AdjacentSorted(tb.keywords, less) ==> InOrder(r.keywords, less))
      && (AdjacentSorted(tb.keywords, less) ==> InOrder(r.keywords, Flip(less)))
  {
    OrderStrictWeak(t, ClickKey(tb, C));
    ToggleMeaning(tb.keywords, Order(t, ClickKey(tb, C)));
  }

  /** Clicking twice on the header of a column the rows are not sorted by
      shows them in that column's descending order. */
  lemma HeaderClickTwice(t: Tables, tb: Table, C: nat)
    requires C < 2 * |tb.engines| + 1
    requires !AdjacentSorted(tb.keywords, Order(t, ClickKey(tb, C)))
    ensures var less := Order(t, ClickKey(tb, C));
      HeaderClick(t, HeaderClick(t, tb, C), C).keywords == Reverse(Sort(tb.keywords, less))
  {
    var less := Order(t, ClickKey(tb, C));
    var tb2 := HeaderClick(t, tb, C);
    assert ClickKey(tb2, C) == ClickKey(tb, C);
    OrderStrictWeak(t, ClickKey(tb, C));
    ToggleTwice(tb.keywords, less);
  }

  /** Rows sorted by name: each name is at most the next in string order. */
  lemma NameSortedMeaning(t: Tables, ks: seq<Keyword>)
    requires InOrder(ks, Order(t, ByName))
    ensures forall i, j :: 0 <= i < j < |ks| ==> ks[i].value == ks[j].value || LexLess(ks[i].value, ks[j].value)
  {
    forall i, j | 0 <= i < j < |ks| ensures ks[i].value == ks[j].value || LexLess(ks[i].value, ks[j].value) {
      assert !Order(t, ByName)(ks[j], ks[i]);
      LexTotal(ks[i].value, ks[j].value);
    }
  }

  /** Rows sorted by an engine's rank: first the keywords found, best rank
      first, then those not in the results, then those never ranked. */
  lemma RankSortedMeaning(t: Tables, e: Id, ks: seq<Keyword>)
    requires InOrder(ks, Order(t, ByRank(e)))
    ensures forall i, j :: 0 <= i < j < |ks| ==> Tier(LastSeen(t, ks[i], e)) <= Tier(LastSeen(t, ks[j], e))
    ensures forall i, j :: 0 <= i < j < |ks| && Tier(LastSeen(t, ks[j], e)) == 0 ==>
              LastSeen(t, ks[i], e).rank <= LastSeen(t, ks[j], e).rank
  {
    forall i, j | 0 <= i < j < |ks|
      ensures Tier(LastSeen(t, ks[i], e)) <= Tier(LastSeen(t, ks[j], e))
      ensures Tier(LastSeen(t, ks[j], e)) == 0 ==> LastSeen(t, ks[i], e).rank <= LastSeen(t, ks[j], e).rank
    {
      assert !Order(t, ByRank(e))(ks[j], ks[i]);
      RankBeforeTiers(LastSeen(t, ks[j], e), LastSeen(t, ks[i], e));
    }
  }

  /** Rows sorted by an engine's diff: the diffs never decrease down the
      table, a keyword without a diff counting as a fall of one place. */
  lemma DiffSortedMeaning(t: Tables, e: Id, ks: seq<Keyword>)
    requires InOrder(ks, Order(t, ByDiff(e)))
    ensures forall i, j :: 0 <= i < j < |ks| ==> DiffKey(t, ks[i], e) <= DiffKey(t, ks[j], e)
  {
    forall i, j | 0 <= i < j < |ks| ensures DiffKey(t, ks[i], e) <= DiffKey(t, ks[j], e) {
      assert !Order(t, ByDiff(e))(ks[j], ks[i]);
    }
  }

  // Index accessors.

  /** An accessor's outcome: the element, its "index not valid" exception,
      or a read outside the vector (undefined behaviour). */
  datatype Access<T> = Got(value: T) | IdxNotValid | OutOfBounds

  /** The values of a C++ `int`. */
  predicate IsCppInt(x: int) {
    -0x8000_0000 <= x < 0x8000_0000
  }

  /** A C++ `int` converted to `size_t` for the comparison with a size. */
  function ToSize(idx: int): (n: nat)
    requires IsCppInt(idx)
    ensures idx >= 0 ==> n == idx
    ensures idx < 0 ==> n == idx + 0x1_0000_0000_0000_0000
  {
    if idx >= 0 then idx else idx + 0x1_0000_0000_0000_0000
  }

  /** `engine(idx)`: the engine of a valid index, otherwise the exception. */
  function EngineAt(engines: seq<Id>, idx: int): (r: Access<Id>)
    requires IsCppInt(idx)
    ensures r.Got? <==> 0 <= idx < |engines|
    ensures r.Got? ==> r.value == engines[idx]
    ensures !r.Got? ==> r == IdxNotValid
  {
    if idx >= 0 && ToSize(idx) < |engines| then Got(engines[idx]) else IdxNotValid
  }

  /** `keyword(idx)` as written: the guard joins its two tests with `||`,
      so every non-negative index passes and one past the end is read. */
  function KeywordAtAsWritten(ks: seq<Keyword>, idx: int): (r: Access<Keyword>)
    requires IsCppInt(idx)
    ensures 0 <= idx < |ks| ==> r == Got(ks[idx])
    ensures idx >= |ks| ==> r == OutOfBounds
    ensures idx < 0 && |ks| < 0x8000_0000_0000_0000 ==> r == IdxNotValid
  {
    if idx >= 0 || ToSize(idx) < |ks| then
      if 0 <= idx < |ks| then Got(ks[idx]) else OutOfBounds
    else IdxNotValid
  }

  /** `keyword(idx)` as its exception intends: as `engine(idx)`. */
  function KeywordAt(ks: seq<Keyword>, idx: int): (r: Access<Keyword>)
    requires IsCppInt(idx)
    ensures r.Got? <==> 0 <= idx < |ks|
    ensures r.Got? ==> r.value == ks[idx]
    ensures !r.Got? ==> r == IdxNotValid
  {
    if idx >= 0 && ToSize(idx) < |ks| then Got(ks[idx]) else IdxNotValid
  }

  /** The guard as written lets index `size` through to a read past the
      end, where the intended accessor throws. */
  lemma KeywordAtReadsPastEnd(ks: seq<Keyword>)
    requires |ks| < 0x8000_0000
    ensures KeywordAtAsWritten(ks, |ks|) == OutOfBounds
    ensures KeywordAt(ks, |ks|) == IdxNotValid
  {
  }

  /** The two agree on every index but those at or past the end, as long
      as the vector is smaller than half the address space. */
  lemma KeywordAtAgrees(ks: seq<Keyword>, idx: int)
    requires |ks| < 0x8000_0000_0000_0000 && IsCppInt(idx) && idx < |ks|
    ensures KeywordAtAsWritten(ks, idx) == KeywordAt(ks, idx)
  {
  }
}
