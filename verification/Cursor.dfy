/**
 Keyset pagination: the cursor condition, the page built from limit + 1 fetched rows, and walks
 that follow the returned cursors while the table may change between two pages.

 A row is its key: the timestamp, in microseconds as the database stores it, and the id. The
 cursor carries the timestamp as a millisecond ISO string, so it loses the last three digits.
 Encoding and decoding of the cursor itself return what was encoded.
 */
module Cursor {
  import opened Wrappers
  import opened Sorting

  datatype Row = Row(id: string, at: int)

  datatype Position = Position(at: int, id: string)

  datatype Direction = Asc | Desc

  /** `idLess` is the database's order on ids. */
  datatype Query = Query(idLess: (string, string) -> bool, direction: Direction, limit: nat)

  datatype Page = Page(items: seq<Row>, nextCursor: Option<Position>)

  function TruncateToMillisecond(at: int): int {
    at / 1000 * 1000
  }

  function CursorOf(r: Row): Position {
    Position(TruncateToMillisecond(r.at), r.id)
  }

  /** The WHERE condition of a cursor. */
  predicate CursorCondition(q: Query, cursor: Position, r: Row) {
    match q.direction
    case Desc => r.at < cursor.at || (r.at == cursor.at && q.idLess(r.id, cursor.id))
    case Asc => r.at > cursor.at || (r.at == cursor.at && q.idLess(cursor.id, r.id))
  }

  /** The ORDER BY of the listing: timestamp, then id, both in the query's direction. */
  function ListingOrder(q: Query): Order<Row> {
    (a: Row, b: Row) =>
      match q.direction
      case Desc => b.at < a.at || (b.at == a.at && q.idLess(b.id, a.id))
      case Asc => a.at < b.at || (a.at == b.at && q.idLess(a.id, b.id))
  }

  function Selected(q: Query, table: seq<Row>, cursor: Option<Position>): seq<Row> {
    if table == [] then []
    else
      (if cursor.None? || CursorCondition(q, cursor.value, table[0]) then [table[0]] else [])
      + Selected(q, table[1..], cursor)
  }

  function Take<T>(s: seq<T>, n: nat): seq<T> {
    if |s| <= n then s else s[..n]
  }

  function Fetch(q: Query, table: seq<Row>, cursor: Option<Position>): seq<Row> {
    Take(Sort(ListingOrder(q), Selected(q, table, cursor)), q.limit + 1)
  }

  function BuildPaginatedResponse(rows: seq<Row>, limit: nat): Page
    requires limit >= 1
  {
    var hasMore := |rows| > limit;
    var items := if hasMore then rows[..limit] else rows;
    Page(items, if hasMore then Some(CursorOf(items[|items| - 1])) else None)
  }

  function FetchPage(q: Query, table: seq<Row>, cursor: Option<Position>): Page
    requires q.limit >= 1
  {
    BuildPaginatedResponse(Fetch(q, table, cursor), q.limit)
  }

  /** The pages of a walk in which the i-th page is fetched from the i-th snapshot of the table. */
  function Walk(q: Query, tables: seq<seq<Row>>, cursor: Option<Position>): (pages: seq<Page>)
    requires q.limit >= 1
    ensures |pages| <= |tables|
    decreases tables
  {
    if tables == [] then []
    else
      var page := FetchPage(q, tables[0], cursor);
      [page] + if page.nextCursor.None? then [] else Walk(q, tables[1..], page.nextCursor)
  }

  function Items(pages: seq<Page>): seq<Row> {
    if pages == [] then [] else pages[0].items + Items(pages[1..])
  }

  predicate Completed(pages: seq<Page>) {
    pages != [] && pages[|pages| - 1].nextCursor.None?
  }

  // ---------------------------------------------------------------- assumptions on tables

  ghost predicate TotalIds(less: (string, string) -> bool) {
    && (forall x :: !less(x, x))
    && (forall x, y, z :: less(x, y) && less(y, z) ==> less(x, z))
    && (forall x, y :: x != y ==> less(x, y) || less(y, x))
  }

  /** Ids are primary keys. */
  ghost predicate IsTable(table: seq<Row>) {
    forall i, j :: 0 <= i < j < |table| ==> table[i].id != table[j].id
  }

  ghost predicate WholeMilliseconds(table: seq<Row>) {
    forall r :: r in table ==> r.at % 1000 == 0
  }

  ghost predicate AreTables(tables: seq<seq<Row>>) {
    forall t :: t in tables ==> IsTable(t)
  }

  /** The cursor of the page, if there is one, is that of a row at a whole millisecond. */
  predicate WholeMillisecondCursor(page: Page) {
    page.nextCursor.Some? && page.items != [] ==> page.items[|page.items| - 1].at % 1000 == 0
  }

  ghost predicate WholeMillisecondCursors(pages: seq<Page>) {
    forall p :: p in pages ==> WholeMillisecondCursor(p)
  }

  lemma OrderIsTotal(q: Query, s: set<Row>)
    requires TotalIds(q.idLess)
    ensures TotalOn(ListingOrder(q), s)
  {
    var less := ListingOrder(q);
    forall x: Row
      ensures !less(x, x)
    {
      assert !q.idLess(x.id, x.id);
    }
    forall x: Row, y: Row, z: Row | less(x, y) && less(y, z)
      ensures less(x, z)
    {
      assert q.idLess(x.id, y.id) && q.idLess(y.id, z.id) ==> q.idLess(x.id, z.id);
      assert q.idLess(z.id, y.id) && q.idLess(y.id, x.id) ==> q.idLess(z.id, x.id);
    }
    forall x: Row, y: Row | x != y
      ensures less(x, y) || less(y, x)
    {
      assert x.at != y.at || x.id != y.id;
    }
  }

  // ---------------------------------------------------------------- one page

  /**
   On whole milliseconds the cursor condition selects exactly the rows listed after the cursor's row.
   In any case it selects no other rows newest first, and none less oldest first.
   */
  lemma ConditionIsAfter(q: Query, r: Row, x: Row)
    ensures r.at % 1000 == 0 || q.direction.Desc? ==> CursorCondition(q, CursorOf(r), x) ==> ListingOrder(q)(r, x)
    ensures r.at % 1000 == 0 || q.direction.Asc? ==> ListingOrder(q)(r, x) ==> CursorCondition(q, CursorOf(r), x)
  {
  }

  /**
   It is exact for every row a table can hold, the cursor's own row included, if and only if the
   timestamp of the cursor's row is a whole millisecond.
   */
  lemma CursorExactIffAligned(q: Query, r: Row)
    requires TotalIds(q.idLess)
    ensures (forall x: Row :: (x.id == r.id ==> x == r) ==>
      (CursorCondition(q, CursorOf(r), x) <==> ListingOrder(q)(r, x)))
      <==> r.at % 1000 == 0
    ensures (forall x: Row :: x.id != r.id ==> (CursorCondition(q, CursorOf(r), x) <==> ListingOrder(q)(r, x)))
      <==> r.at % 1000 == 0
  {
    var other := r.id + "a";
    if r.at % 1000 == 0 {
      assert TruncateToMillisecond(r.at) == r.at;
    } else {
      assert TruncateToMillisecond(r.at) < r.at;
      var x := Row(other, if q.idLess(other, r.id) then r.at else TruncateToMillisecond(r.at));
      assert x.id != r.id && CursorCondition(q, CursorOf(r), x) != ListingOrder(q)(r, x);
    }
  }

  lemma {:induction false} SelectedRows(q: Query, table: seq<Row>, cursor: Option<Position>)
    requires IsTable(table)
    ensures forall r :: r in Selected(q, table, cursor) <==>
      r in table && (cursor.None? || CursorCondition(q, cursor.value, r))
    ensures NoDup(Selected(q, table, cursor))
  {
    if table != [] {
      assert table == [table[0]] + table[1..];
      assert table[0] !in table[1..];
      SelectedRows(q, table[1..], cursor);
    }
  }

  /** The sorted rows a page is cut from. */
  function Candidates(q: Query, table: seq<Row>, cursor: Option<Position>): seq<Row> {
    Sort(ListingOrder(q), Selected(q, table, cursor))
  }

  lemma CandidatesAreSorted(q: Query, table: seq<Row>, cursor: Option<Position>)
    requires TotalIds(q.idLess) && IsTable(table)
    ensures Ascending(ListingOrder(q), Candidates(q, table, cursor))
    ensures forall r :: r in Candidates(q, table, cursor) <==>
      r in table && (cursor.None? || CursorCondition(q, cursor.value, r))
  {
    SelectedRows(q, table, cursor);
    OrderIsTotal(q, Elems(Selected(q, table, cursor)));
    SortSorts(ListingOrder(q), Selected(q, table, cursor));
  }

  /**
   The order of every page, written out: newest first by time and then by descending id, or oldest
   first by time and then by ascending id.
   */
  lemma ListedInOrder(q: Query, table: seq<Row>, cursor: Option<Position>, i: nat, j: nat)
    requires TotalIds(q.idLess) && IsTable(table) && i < j < |Candidates(q, table, cursor)|
    ensures var x, y := Candidates(q, table, cursor)[i], Candidates(q, table, cursor)[j];
      match q.direction
      case Desc => x.at > y.at || (x.at == y.at && q.idLess(y.id, x.id))
      case Asc => x.at < y.at || (x.at == y.at && q.idLess(x.id, y.id))
  {
    CandidatesAreSorted(q, table, cursor);
    AscendingAt(ListingOrder(q), Candidates(q, table, cursor), i, j);
  }

  /** A page is the first `limit` candidates, with a cursor at its last row iff candidates remain. */
  lemma PageIsPrefix(q: Query, table: seq<Row>, cursor: Option<Position>)
    requires q.limit >= 1
    ensures var page, s := FetchPage(q, table, cursor), Candidates(q, table, cursor);
      && page.items == Take(s, q.limit)
      && page.nextCursor == if |s| > q.limit then Some(CursorOf(s[q.limit - 1])) else None
  {
  }

  /** What one page says about its snapshot: sorted items from behind the cursor, the next cursor at the last one. */
  lemma PageIsSorted(q: Query, table: seq<Row>, cursor: Option<Position>)
    requires q.limit >= 1 && TotalIds(q.idLess) && IsTable(table)
    ensures var page := FetchPage(q, table, cursor);
      && Ascending(ListingOrder(q), page.items)
      && (forall r :: r in page.items ==> r in table && (cursor.Some? ==> CursorCondition(q, cursor.value, r)))
      && (page.nextCursor.Some? ==>
            |page.items| == q.limit && page.nextCursor == Some(CursorOf(page.items[q.limit - 1])))
  {
    PageIsPrefix(q, table, cursor);
    CandidatesAreSorted(q, table, cursor);
    var s := Candidates(q, table, cursor);
    if |s| > q.limit {
      assert s == s[..q.limit] + s[q.limit..];
      AscendingConcat(ListingOrder(q), s[..q.limit], s[q.limit..]);
    }
  }

  /** A row behind the cursor is on the page or behind the next cursor, if that cursor skips nothing. */
  lemma PageSkipsNothing(q: Query, table: seq<Row>, cursor: Option<Position>, r: Row)
    requires q.limit >= 1 && TotalIds(q.idLess) && IsTable(table)
    requires r in table && (cursor.Some? ==> CursorCondition(q, cursor.value, r))
    requires q.direction.Asc? || WholeMillisecondCursor(FetchPage(q, table, cursor))
    ensures var page := FetchPage(q, table, cursor);
      r in page.items || (page.nextCursor.Some? && CursorCondition(q, page.nextCursor.value, r))
  {
    PageIsPrefix(q, table, cursor);
    CandidatesAreSorted(q, table, cursor);
    var s := Candidates(q, table, cursor);
    var i :| 0 <= i < |s| && s[i] == r;
    if i >= q.limit {
      AscendingAt(ListingOrder(q), s, q.limit - 1, i);
      ConditionIsAfter(q, s[q.limit - 1], r);
    } else {
      assert Take(s, q.limit)[i] == r;
    }
  }

  // ---------------------------------------------------------------- walks over changing tables

  lemma LastPage(q: Query, tables: seq<seq<Row>>, cursor: Option<Position>)
    requires q.limit >= 1 && tables != [] && FetchPage(q, tables[0], cursor).nextCursor.None?
    ensures var page := FetchPage(q, tables[0], cursor);
      Walk(q, tables, cursor) == [page] && Items([page]) == page.items
  {
  }

  lemma ItemsOfWalk(q: Query, tables: seq<seq<Row>>, cursor: Option<Position>)
    requires q.limit >= 1 && tables != [] && FetchPage(q, tables[0], cursor).nextCursor.Some?
    ensures var page := FetchPage(q, tables[0], cursor);
      var pages, rest := Walk(q, tables, cursor), Walk(q, tables[1..], page.nextCursor);
      && Items(pages) == page.items + Items(rest) && |pages| == |rest| + 1
      && (rest != [] ==> (Completed(pages) <==> Completed(rest)))
  {
  }

  lemma PagesOfWalk(q: Query, tables: seq<seq<Row>>, cursor: Option<Position>)
    requires q.limit >= 1 && tables != []
    ensures var page := FetchPage(q, tables[0], cursor);
      forall p :: p in Walk(q, tables, cursor) <==>
        p == page || (page.nextCursor.Some? && p in Walk(q, tables[1..], page.nextCursor))
  {
  }

  /** Rows listed after a row behind a cursor are behind it, too. */
  lemma BehindStaysBehind(q: Query, cursor: Position, x: Row, y: Row)
    requires TotalIds(q.idLess) && CursorCondition(q, cursor, x) && ListingOrder(q)(x, y)
    ensures CursorCondition(q, cursor, y)
  {
  }

  lemma JoinPages(q: Query, table: seq<Row>, cursor: Option<Position>, page: Page, rest: seq<Row>)
    requires q.limit >= 1 && TotalIds(q.idLess) && IsTable(table) && (q.direction.Desc? || WholeMillisecondCursor(page))
    requires page == FetchPage(q, table, cursor) && page.nextCursor.Some?
    requires Ascending(ListingOrder(q), rest) && forall r :: r in rest ==> CursorCondition(q, page.nextCursor.value, r)
    ensures Ascending(ListingOrder(q), page.items + rest)
    ensures cursor.Some? ==> forall r :: r in rest ==> CursorCondition(q, cursor.value, r)
  {
    PageIsSorted(q, table, cursor);
    var less, last := ListingOrder(q), page.items[q.limit - 1];
    OrderIsTotal(q, Elems(page.items + rest));
    assert last in page.items && last in table;
    forall x, y | x in page.items && y in rest
      ensures less(x, y)
    {
      ConditionIsAfter(q, last, y);
      var i :| 0 <= i < |page.items| && page.items[i] == x;
      if i < q.limit - 1 {
        AscendingAt(less, page.items, i, q.limit - 1);
      }
    }
    AscendingConcat(less, page.items, rest);
    if cursor.Some? {
      forall r | r in rest
        ensures CursorCondition(q, cursor.value, r)
      {
        ConditionIsAfter(q, last, r);
        BehindStaysBehind(q, cursor.value, last, r);
      }
    }
  }

  /**
   Whatever is inserted and deleted between the pages, the rows listed are strictly monotone in the
   listing order across page boundaries, and all lie behind the starting cursor: newest first for
   any timestamps, oldest first if the last rows of the pages are at whole milliseconds.
   */
  lemma {:induction false} WalkIsMonotone(q: Query, tables: seq<seq<Row>>, cursor: Option<Position>)
    requires q.limit >= 1 && TotalIds(q.idLess) && AreTables(tables)
    requires q.direction.Desc? || WholeMillisecondCursors(Walk(q, tables, cursor))
    ensures var items := Items(Walk(q, tables, cursor));
      && Ascending(ListingOrder(q), items)
      && (cursor.Some? ==> forall r :: r in items ==> CursorCondition(q, cursor.value, r))
      && forall r :: r in items ==> exists t :: t in tables && r in t
    decreases tables
  {
    if tables != [] {
      var page := FetchPage(q, tables[0], cursor);
      assert tables[0] in tables && forall t :: t in tables[1..] ==> t in tables;
      PageIsSorted(q, tables[0], cursor);
      if page.nextCursor.None? {
        LastPage(q, tables, cursor);
      } else {
        var rest := Walk(q, tables[1..], page.nextCursor);
        PagesOfWalk(q, tables, cursor);
        WalkIsMonotone(q, tables[1..], page.nextCursor);
        ItemsOfWalk(q, tables, cursor);
        JoinPages(q, tables[0], cursor, page, Items(rest));
      }
    }
  }

  /** Keys are immutable: two snapshots never disagree on the timestamp of an id. */
  ghost predicate ImmutableKeys(tables: seq<seq<Row>>) {
    forall t, u, r, s :: t in tables && u in tables && r in t && s in u && r.id == s.id ==> r == s
  }

  /** No row is listed twice in a walk, on one page or on two. */
  lemma NeverListedTwice(q: Query, tables: seq<seq<Row>>, i: nat, j: nat)
    requires q.limit >= 1 && TotalIds(q.idLess) && AreTables(tables) && ImmutableKeys(tables)
    requires q.direction.Desc? || WholeMillisecondCursors(Walk(q, tables, None))
    requires i < j < |Items(Walk(q, tables, None))|
    ensures Items(Walk(q, tables, None))[i].id != Items(Walk(q, tables, None))[j].id
  {
    WalkIsMonotone(q, tables, None);
    var items := Items(Walk(q, tables, None));
    AscendingAt(ListingOrder(q), items, i, j);
    assert items[i] in items && items[j] in items;
    OrderIsTotal(q, Elems(items));
  }

  /**
   In a completed walk every row that was in the table at every fetch is listed: oldest first for any
   timestamps, newest first if the last rows of the pages are at whole milliseconds.
   */
  lemma {:induction false} CompletedWalkListsAll(q: Query, tables: seq<seq<Row>>, cursor: Option<Position>, r: Row)
    requires q.limit >= 1 && TotalIds(q.idLess) && AreTables(tables)
    requires q.direction.Asc? || WholeMillisecondCursors(Walk(q, tables, cursor))
    requires Completed(Walk(q, tables, cursor))
    requires forall t :: t in tables[..|Walk(q, tables, cursor)|] ==> r in t
    requires cursor.Some? ==> CursorCondition(q, cursor.value, r)
    ensures r in Items(Walk(q, tables, cursor))
    decreases tables
  {
    var pages := Walk(q, tables, cursor);
    var page := FetchPage(q, tables[0], cursor);
    assert tables[0] in tables && forall t :: t in tables[1..] ==> t in tables;
    assert tables[..|pages|][0] in tables[..|pages|];
    PageSkipsNothing(q, tables[0], cursor, r);
    PagesOfWalk(q, tables, cursor);
    if page.nextCursor.Some? {
      var rest := Walk(q, tables[1..], page.nextCursor);
      assert pages[1..] == rest && pages[|pages| - 1] == if rest == [] then page else rest[|rest| - 1];
      if r !in page.items {
        assert tables[1..][..|rest|] == tables[..|pages|][1..];
        CompletedWalkListsAll(q, tables[1..], page.nextCursor, r);
      }
    }
  }

  // ---------------------------------------------------------------- walks over a static table

  /** The number of pages of a walk over n rows. */
  function PageCount(n: nat, limit: nat): (pages: nat)
    requires limit >= 1
    ensures pages >= 1
    decreases n
  {
    if n <= limit then 1 else 1 + PageCount(n - limit, limit)
  }

  /** It is n / limit rounded up, but at least one. */
  lemma {:induction false} PageCountIsCeiling(n: nat, limit: nat)
    requires limit >= 1
    ensures n <= PageCount(n, limit) * limit
    ensures n > 0 ==> (PageCount(n, limit) - 1) * limit < n
    decreases n
  {
    if n > limit {
      PageCountIsCeiling(n - limit, limit);
      var p := PageCount(n - limit, limit);
      assert (p + 1) * limit == p * limit + limit;
      assert p * limit == (p - 1) * limit + limit;
    }
  }

  lemma PageCountStep(n: nat, limit: nat)
    requires n > limit >= 1
    ensures PageCount(n, limit) == 1 + PageCount(n - limit, limit) > 1
  {
  }

  /** The cursor a walk over the listing `s` holds when it has listed k rows. */
  function CursorAt(s: seq<Row>, k: nat): Option<Position>
    requires k <= |s|
  {
    if k == 0 then None else Some(CursorOf(s[k - 1]))
  }

  /** The page of the listing `s` that starts with its k-th row. */
  function SlicePage(limit: nat, s: seq<Row>, k: nat): Page
    requires k <= |s|
  {
    if k + limit >= |s| then Page(s[k..], None) else Page(s[k..k + limit], CursorAt(s, k + limit))
  }

  /**
   The cursor of `r`, the last row of a page, separates it from `x`, the next row of the listing.
   Oldest first that takes a whole millisecond; newest first it is enough that `x` does not lie
   within the millisecond of `r`, or lies at its very start with a smaller id.
   */
  predicate Separates(q: Query, r: Row, x: Row) {
    var start := TruncateToMillisecond(r.at);
    match q.direction
    case Asc => r.at == start
    case Desc => x.at < start || (x.at == start && q.idLess(x.id, r.id))
  }

  /** If the cursor after the k-th row separates, exactly the rows from k on stand behind it. */
  lemma CandidatesAreSuffix(q: Query, table: seq<Row>, s: seq<Row>, k: nat)
    requires TotalIds(q.idLess) && IsTable(table) && s == Candidates(q, table, None)
    requires 0 < k < |s| && Separates(q, s[k - 1], s[k])
    ensures Candidates(q, table, CursorAt(s, k)) == s[k..]
  {
    var less := ListingOrder(q);
    var c := Candidates(q, table, CursorAt(s, k));
    CandidatesAreSorted(q, table, None);
    CandidatesAreSorted(q, table, CursorAt(s, k));
    AscendingSuffix(less, s, k);
    OrderIsTotal(q, Elems(s));
    OrderIsTotal(q, Elems(c));
    AfterIsSuffix(less, s, k);
    assert s[k..][0] == s[k];
    AscendingAt(less, s, k - 1, k);
    ConditionIsAfter(q, s[k - 1], s[k]);
    forall r
      ensures r in c <==> r in s[k..]
    {
      ConditionIsAfter(q, s[k - 1], r);
      if r in s[k..] && r != s[k] {
        assert r in s[k..][1..];
        BehindStaysBehind(q, CursorOf(s[k - 1]), s[k], r);
      }
    }
    AscendingUnique(less, c, s[k..]);
  }

  /** If it does not, the next page starts with some other row, or is empty. */
  lemma WrongCandidates(q: Query, table: seq<Row>, s: seq<Row>, k: nat)
    requires TotalIds(q.idLess) && IsTable(table) && s == Candidates(q, table, None)
    requires 0 < k < |s| && !Separates(q, s[k - 1], s[k])
    ensures var c := Candidates(q, table, CursorAt(s, k)); c != [] ==> c[0] != s[k]
  {
    var less, c := ListingOrder(q), Candidates(q, table, CursorAt(s, k));
    CandidatesAreSorted(q, table, None);
    CandidatesAreSorted(q, table, CursorAt(s, k));
    OrderIsTotal(q, {s[k - 1], s[k]});
    AscendingAt(less, s, k - 1, k);
    assert s[k - 1] in s && s[k] in s;
    if c != [] {
      assert c[0] in c && forall x :: x in c <==> x == c[0] || x in c[1..];
      if q.direction.Asc? {
        assert CursorCondition(q, CursorOf(s[k - 1]), s[k - 1]);
        assert s[k - 1] in c;
      }
    }
  }

  /** The page does not go on with the k-th row of the listing. */
  predicate StartsWrong(page: Page, s: seq<Row>, k: nat)
    requires k < |s|
  {
    if page.items == [] then page.nextCursor.None? else page.items[0] != s[k]
  }

  /** The page fetched after the k-th row is the right slice, or starts wrong. */
  lemma StaticPage(q: Query, table: seq<Row>, s: seq<Row>, k: nat)
    requires q.limit >= 1 && TotalIds(q.idLess) && IsTable(table) && s == Candidates(q, table, None)
    requires k == 0 || k < |s|
    ensures var page := FetchPage(q, table, CursorAt(s, k));
      if k == 0 || Separates(q, s[k - 1], s[k]) then page == SlicePage(q.limit, s, k) else StartsWrong(page, s, k)
  {
    PageIsPrefix(q, table, CursorAt(s, k));
    if k > 0 && !Separates(q, s[k - 1], s[k]) {
      WrongCandidates(q, table, s, k);
    } else {
      if k > 0 {
        CandidatesAreSuffix(q, table, s, k);
      }
      assert Candidates(q, table, CursorAt(s, k)) == s[k..];
      if k + q.limit < |s| {
        assert s[k..][q.limit - 1] == s[k + q.limit - 1];
      }
    }
  }

  /** n fetches from the same table. */
  function Snapshots(table: seq<Row>, n: nat): seq<seq<Row>> {
    seq(n, _ => table)
  }

  /** Following cursors for at most n pages of one fetch function. */
  function Follow(fetch: Option<Position> -> Page, n: nat, cursor: Option<Position>): seq<Page> {
    if n == 0 then []
    else
      var page := fetch(cursor);
      [page] + if page.nextCursor.None? then [] else Follow(fetch, n - 1, page.nextCursor)
  }

  lemma {:induction false} StaticWalkFollows(
      q: Query, table: seq<Row>, n: nat, cursor: Option<Position>, fetch: Option<Position> -> Page)
    requires q.limit >= 1 && forall c :: fetch(c) == FetchPage(q, table, c)
    ensures Walk(q, Snapshots(table, n), cursor) == Follow(fetch, n, cursor)
    decreases n
  {
    if n > 0 {
      assert Snapshots(table, n)[1..] == Snapshots(table, n - 1);
      StaticWalkFollows(q, table, n - 1, FetchPage(q, table, cursor).nextCursor, fetch);
    }
  }

  lemma FollowStep(fetch: Option<Position> -> Page, n: nat, cursor: Option<Position>, page: Page)
    requires n > 0 && fetch(cursor) == page
    ensures var pages := Follow(fetch, n, cursor);
      if page.nextCursor.None? then Items(pages) == page.items && Completed(pages) && |pages| == 1
      else
        var rest := Follow(fetch, n - 1, page.nextCursor);
        Items(pages) == page.items + Items(rest) && |pages| == |rest| + 1 && (Completed(rest) ==> Completed(pages))
  {
  }

  /** The position in the listing where the i-th page ends. */
  function PageEnd(limit: nat, i: nat): nat {
    i * limit
  }

  lemma PageEndsAscend(limit: nat, i: nat, j: nat)
    requires i <= j
    ensures PageEnd(limit, i + 1) == PageEnd(limit, i) + limit && PageEnd(limit, i) <= PageEnd(limit, j)
  {
  }

  /** The cursor after the k-th row goes on with the k-th row: it is the start, or the cursor separates. */
  predicate GoesOn(q: Query, s: seq<Row>, k: nat)
    requires k < |s|
  {
    k == 0 || Separates(q, s[k - 1], s[k])
  }

  /** The cursors of all pages after the one that starts with the k-th row go on with the listing. */
  predicate AllGoOn(goesOn: nat -> bool, limit: nat, size: nat, k: nat)
    requires limit >= 1
    decreases size - k
  {
    k + limit >= size || (goesOn(k + limit) && AllGoOn(goesOn, limit, size, k + limit))
  }

  /**
   One page of a walk, whatever it lists: `lists(ok, n, k)` is to say that n pages from the k-th row on
   list the rest if and only if `ok`.
   */
  ghost predicate PageStep(
      goesOn: nat -> bool, lists: (bool, nat, nat) -> bool, limit: nat, size: nat, n: nat, k: nat, ok: bool)
    requires limit >= 1
  {
    && k <= size && n >= PageCount(size - k, limit) && goesOn(k)
    && (k + limit < size && goesOn(k + limit) ==> lists(ok, n - 1, k + limit))
    ==> lists(k + limit >= size || (goesOn(k + limit) && ok), n, k)
  }

  lemma {:induction false} FollowInduction(
      goesOn: nat -> bool, lists: (bool, nat, nat) -> bool, limit: nat, size: nat, n: nat, k: nat)
    requires limit >= 1 && k <= size && n >= PageCount(size - k, limit) && goesOn(k)
    requires forall n: nat, k: nat, ok :: PageStep(goesOn, lists, limit, size, n, k, ok)
    ensures lists(AllGoOn(goesOn, limit, size, k), n, k)
    decreases n
  {
    var next := k + limit;
    if next < size && goesOn(next) {
      PageCountStep(size - k, limit);
      FollowInduction(goesOn, lists, limit, size, n - 1, next);
      assert PageStep(goesOn, lists, limit, size, n, k, AllGoOn(goesOn, limit, size, next));
    } else {
      assert PageStep(goesOn, lists, limit, size, n, k, true);
    }
  }

  /** The page after the k-th row is the right slice of `s` if the cursor goes on there and starts wrong otherwise. */
  ghost predicate IsSliceIf(fetch: Option<Position> -> Page, limit: nat, s: seq<Row>, goesOn: bool, k: nat)
    requires k < |s|
  {
    var page := fetch(CursorAt(s, k));
    if goesOn then page == SlicePage(limit, s, k) else StartsWrong(page, s, k)
  }

  lemma SamePrefix(s: seq<Row>, k: nat, next: nat, rest: seq<Row>)
    requires k <= next <= |s|
    ensures s[k..next] + rest == s[k..] <==> rest == s[next..]
  {
    assert s[k..] == s[k..next] + s[next..];
    if s[k..next] + rest == s[k..] {
      assert rest == (s[k..next] + rest)[next - k..];
    }
  }

  /** Following `fetch` after the k-th row lists the rest of `s`, completely, if and only if `ok`. */
  ghost predicate ListsIf(ok: bool, fetch: Option<Position> -> Page, limit: nat, s: seq<Row>, n: nat, k: nat)
    requires limit >= 1 && k <= |s|
  {
    var pages := Follow(fetch, n, CursorAt(s, k));
    && (Items(pages) == s[k..] <==> ok)
    && (ok ==> Completed(pages) && |pages| == PageCount(|s| - k, limit))
  }

  lemma FollowWrong(fetch: Option<Position> -> Page, limit: nat, s: seq<Row>, n: nat, k: nat)
    requires limit >= 1 && n > 0 && k < |s| && StartsWrong(fetch(CursorAt(s, k)), s, k)
    ensures ListsIf(false, fetch, limit, s, n, k)
  {
    FollowStep(fetch, n, CursorAt(s, k), fetch(CursorAt(s, k)));
    assert s[k..][0] == s[k];
  }

  /** A right slice lists the rest if and only if it is the last one or the next page on does. */
  lemma FollowSlice(fetch: Option<Position> -> Page, limit: nat, s: seq<Row>, n: nat, k: nat, ok: bool)
    requires limit >= 1 && k <= |s| && n > 0 && fetch(CursorAt(s, k)) == SlicePage(limit, s, k)
    requires k + limit < |s| ==> ListsIf(ok, fetch, limit, s, n - 1, k + limit)
    ensures ListsIf(k + limit >= |s| || ok, fetch, limit, s, n, k)
  {
    FollowStep(fetch, n, CursorAt(s, k), SlicePage(limit, s, k));
    if k + limit < |s| {
      PageCountStep(|s| - k, limit);
      SamePrefix(s, k, k + limit, Items(Follow(fetch, n - 1, CursorAt(s, k + limit))));
    }
  }

  /** A right slice before a page that starts wrong does not list the rest. */
  lemma FollowIntoWrong(fetch: Option<Position> -> Page, limit: nat, s: seq<Row>, n: nat, k: nat)
    requires limit >= 1 && n > 1 && k + limit < |s| && fetch(CursorAt(s, k)) == SlicePage(limit, s, k)
    requires StartsWrong(fetch(CursorAt(s, k + limit)), s, k + limit)
    ensures ListsIf(false, fetch, limit, s, n, k)
  {
    FollowWrong(fetch, limit, s, n - 1, k + limit);
    FollowSlice(fetch, limit, s, n, k, false);
  }

  /** One page of a walk, right if the cursor goes on there. */
  lemma FollowPage(
      fetch: Option<Position> -> Page, limit: nat, s: seq<Row>, n: nat, k: nat, goesOn: bool, ok: bool)
    requires limit >= 1 && k <= |s| && n > 0 && fetch(CursorAt(s, k)) == SlicePage(limit, s, k)
    requires k + limit < |s| && goesOn ==> ListsIf(ok, fetch, limit, s, n - 1, k + limit)
    requires k + limit < |s| && !goesOn ==> n > 1 && StartsWrong(fetch(CursorAt(s, k + limit)), s, k + limit)
    ensures ListsIf(k + limit >= |s| || (goesOn && ok), fetch, limit, s, n, k)
  {
    if k + limit >= |s| {
      FollowSlice(fetch, limit, s, n, k, false);
    } else if goesOn {
      FollowSlice(fetch, limit, s, n, k, ok);
    } else {
      FollowIntoWrong(fetch, limit, s, n, k);
    }
  }

  /** `lists` is `ListsIf` at one argument. */
  ghost predicate IsListsIf(
      lists: (bool, nat, nat) -> bool, ok: bool, fetch: Option<Position> -> Page, limit: nat, s: seq<Row>, n: nat,
      k: nat)
    requires limit >= 1
  {
    lists(ok, n, k) == (k <= |s| && ListsIf(ok, fetch, limit, s, n, k))
  }

  lemma FollowPageStep(
      fetch: Option<Position> -> Page, limit: nat, s: seq<Row>, n: nat, goesOn: nat -> bool,
      lists: (bool, nat, nat) -> bool, k: nat, ok: bool)
    requires limit >= 1 && (k == |s| ==> k == 0 || !goesOn(k)) && fetch(None) == SlicePage(limit, s, 0)
    requires k < |s| ==> IsSliceIf(fetch, limit, s, goesOn(k), k)
    requires k + limit < |s| ==> IsSliceIf(fetch, limit, s, goesOn(k + limit), k + limit)
    requires n > 0 ==> IsListsIf(lists, ok, fetch, limit, s, n - 1, k + limit)
    requires IsListsIf(lists, k + limit >= |s| || (goesOn(k + limit) && ok), fetch, limit, s, n, k)
    ensures PageStep(goesOn, lists, limit, |s|, n, k, ok)
  {
    if && k <= |s| && n >= PageCount(|s| - k, limit) && goesOn(k)
       && (k + limit < |s| && goesOn(k + limit) ==> lists(ok, n - 1, k + limit)) {
      if k + limit < |s| {
        PageCountStep(|s| - k, limit);
      }
      FollowPage(fetch, limit, s, n, k, goesOn(k + limit), ok);
    }
  }

  /** Following such a fetch function lists `s` if and only if all cursors go on with it. */
  lemma FollowLists(
      fetch: Option<Position> -> Page, limit: nat, s: seq<Row>, n: nat, goesOn: nat -> bool,
      lists: (bool, nat, nat) -> bool)
    requires limit >= 1 && n >= PageCount(|s|, limit) && fetch(None) == SlicePage(limit, s, 0)
    requires goesOn(0) && (|s| > 0 ==> !goesOn(|s|))
    requires forall k: nat :: k < |s| ==> IsSliceIf(fetch, limit, s, goesOn(k), k)
    requires forall ok, n: nat, k: nat :: IsListsIf(lists, ok, fetch, limit, s, n, k)
    ensures ListsIf(AllGoOn(goesOn, limit, |s|, 0), fetch, limit, s, n, 0)
  {
    forall n: nat, k: nat, ok
      ensures PageStep(goesOn, lists, limit, |s|, n, k, ok)
    {
      assert n > 0 ==> IsListsIf(lists, ok, fetch, limit, s, n - 1, k + limit);
      FollowPageStep(fetch, limit, s, n, goesOn, lists, k, ok);
    }
    FollowInduction(goesOn, lists, limit, |s|, n, 0);
    assert IsListsIf(lists, AllGoOn(goesOn, limit, |s|, 0), fetch, limit, s, n, 0);
  }

  lemma {:induction false} AllSelected(q: Query, table: seq<Row>)
    ensures Selected(q, table, None) == table
  {
    if table != [] {
      AllSelected(q, table[1..]);
    }
  }

  /** At every page end before the end of the listing the cursor separates the rows around it. */
  ghost predicate CursorsSeparate(q: Query, s: seq<Row>) {
    forall i: nat :: 0 < PageEnd(q.limit, i) < |s| ==> Separates(q, s[PageEnd(q.limit, i) - 1], s[PageEnd(q.limit, i)])
  }

  lemma {:induction false} AllGoOnIfEach(goesOn: nat -> bool, limit: nat, size: nat, m: nat)
    requires limit >= 1
    ensures AllGoOn(goesOn, limit, size, PageEnd(limit, m)) <==>
      forall i: nat :: m < i && PageEnd(limit, i) < size ==> goesOn(PageEnd(limit, i))
    decreases size - PageEnd(limit, m)
  {
    PageEndsAscend(limit, m, m);
    forall i: nat | m < i
      ensures PageEnd(limit, m + 1) <= PageEnd(limit, i)
    {
      PageEndsAscend(limit, m + 1, i);
    }
    if PageEnd(limit, m + 1) < size {
      AllGoOnIfEach(goesOn, limit, size, m + 1);
    }
  }

  lemma SeparatedIfAllGoOn(q: Query, s: seq<Row>, goesOn: nat -> bool)
    requires q.limit >= 1 && forall k: nat :: goesOn(k) == if k < |s| then GoesOn(q, s, k) else k == 0
    ensures AllGoOn(goesOn, q.limit, |s|, 0) <==> CursorsSeparate(q, s)
  {
    AllGoOnIfEach(goesOn, q.limit, |s|, 0);
    assert PageEnd(q.limit, 0) == 0 && forall i: nat :: i > 0 <==> PageEnd(q.limit, i) > 0;
  }

  lemma StaticWalkLists(q: Query, table: seq<Row>, s: seq<Row>, n: nat, fetch: Option<Position> -> Page)
    requires q.limit >= 1 && TotalIds(q.idLess) && IsTable(table) && s == Candidates(q, table, None)
    requires (forall c :: fetch(c) == FetchPage(q, table, c)) && n >= PageCount(|s|, q.limit)
    ensures var pages := Walk(q, Snapshots(table, n), None);
      && (Items(pages) == s <==> CursorsSeparate(q, s))
      && (Items(pages) == s ==> Completed(pages) && |pages| == PageCount(|s|, q.limit))
  {
    var goesOn := (k: nat) => if k < |s| then GoesOn(q, s, k) else k == 0;
    forall k: nat | k < |s|
      ensures IsSliceIf(fetch, q.limit, s, goesOn(k), k)
    {
      StaticPage(q, table, s, k);
    }
    StaticPage(q, table, s, 0);
    StaticWalkFollows(q, table, n, None, fetch);
    assert s[0..] == s;
    var lists := (ok, n: nat, k: nat) => k <= |s| && ListsIf(ok, fetch, q.limit, s, n, k);
    FollowLists(fetch, q.limit, s, n, goesOn, lists);
    SeparatedIfAllGoOn(q, s, goesOn);
  }

  /**
   On a table that does not change, following the cursors lists the whole table in order if and only
   if at every page end before the end of the listing the cursor separates the last row of the page
   from the next one. Then the walk is complete after ceil(n / limit) pages, and one page when the
   table is empty.
   */
  lemma StaticWalkExactly(q: Query, table: seq<Row>, n: nat)
    requires q.limit >= 1 && TotalIds(q.idLess) && IsTable(table) && n >= PageCount(|table|, q.limit)
    ensures var s, pages := Sort(ListingOrder(q), table), Walk(q, Snapshots(table, n), None);
      && (Items(pages) == s <==> CursorsSeparate(q, s))
      && (Items(pages) == s ==> Completed(pages) && |pages| == PageCount(|table|, q.limit))
  {
    var s := Sort(ListingOrder(q), table);
    assert s == Candidates(q, table, None) by {
      AllSelected(q, table);
    }
    StaticWalkLists(q, table, s, n, c => FetchPage(q, table, c));
  }

  /** In particular for whole milliseconds. */
  lemma StaticWalk(q: Query, table: seq<Row>, n: nat)
    requires q.limit >= 1 && TotalIds(q.idLess) && IsTable(table) && n >= PageCount(|table|, q.limit)
    requires WholeMilliseconds(table)
    ensures var pages := Walk(q, Snapshots(table, n), None);
      && Items(pages) == Sort(ListingOrder(q), table) && Completed(pages)
      && |pages| == PageCount(|table|, q.limit)
  {
    StaticWalkExactly(q, table, n);
    AllSelected(q, table);
    CandidatesAreSorted(q, table, None);
    var s := Sort(ListingOrder(q), table);
    forall k: nat | 0 < k < |s|
      ensures Separates(q, s[k - 1], s[k])
    {
      assert s[k - 1] in s;
      AscendingAt(ListingOrder(q), s, k - 1, k);
    }
  }

  // ---------------------------------------------------------------- timestamps within one millisecond

  /**
   Microsecond timestamps break the walk: newest first with one row a page, a second row of the same
   millisecond is never listed although the walk completes.
   */
  lemma SubMillisecondRowIsSkipped(idLess: (string, string) -> bool)
    requires TotalIds(idLess)
    ensures var q, table := Query(idLess, Desc, 1), [Row("a", 1500), Row("b", 1200)];
      var pages := Walk(q, [table, table], None);
      Completed(pages) && Items(pages) == [Row("a", 1500)]
  {
    var q, a, b := Query(idLess, Desc, 1), Row("a", 1500), Row("b", 1200);
    var table := [a, b];
    var less := ListingOrder(q);
    AllSelected(q, table);
    assert table[1..] == [b] && [b][1..] == [];
    assert Sort(less, [b]) == [b];
    assert Insert(less, a, [b]) == [a] + [b];
    assert Fetch(q, table, None) == [a, b];
    var page := FetchPage(q, table, None);
    assert page.items == [a] && page.nextCursor == Some(Position(1000, "a"));
    assert Selected(q, [b], page.nextCursor) == [];
    assert Selected(q, table, page.nextCursor) == [];
    var tables := [table, table];
    assert tables[1..] == [table];
    var last := FetchPage(q, table, page.nextCursor);
    assert last == Page([], None);
    assert Walk(q, [table], page.nextCursor) == [last];
    assert Walk(q, tables, None) == [page, last];
    assert [page, last][1..] == [last] && [last][1..] == [];
    assert Items([last]) == [];
  }

  /** A page that its own cursor fetches again is all a walk over a static table ever sees. */
  lemma {:induction false} StuckWalk(q: Query, table: seq<Row>, page: Page, n: nat, cursor: Option<Position>)
    requires q.limit >= 1 && FetchPage(q, table, cursor) == page
    requires page.nextCursor.Some? && FetchPage(q, table, page.nextCursor) == page
    ensures Walk(q, Snapshots(table, n), cursor) == seq(n, _ => page)
    ensures !Completed(Walk(q, Snapshots(table, n), cursor))
    decreases n
  {
    if n > 0 {
      assert Snapshots(table, n)[0] == table && Snapshots(table, n)[1..] == Snapshots(table, n - 1);
      StuckWalk(q, table, page, n - 1, page.nextCursor);
    }
  }

  /**
   Oldest first, a row inside a millisecond lies behind its own cursor: with one row a page it is
   listed again and again, however many pages are fetched, and the second row never comes.
   */
  lemma SubMillisecondRowIsRepeated(idLess: (string, string) -> bool, n: nat)
    requires TotalIds(idLess)
    ensures var q, a, b := Query(idLess, Asc, 1), Row("a", 1500), Row("b", 2500);
      && Walk(q, Snapshots([a, b], n), None) == seq(n, _ => Page([a], Some(CursorOf(a))))
      && !Completed(Walk(q, Snapshots([a, b], n), None))
  {
    var q, a, b := Query(idLess, Asc, 1), Row("a", 1500), Row("b", 2500);
    var table := [a, b];
    var less := ListingOrder(q);
    AllSelected(q, table);
    assert table[1..] == [b] && [b][1..] == [];
    assert Sort(less, [b]) == [b];
    assert Insert(less, a, [b]) == [a] + [b];
    var cursor := Some(CursorOf(a));
    assert Selected(q, [b], cursor) == [b];
    assert Selected(q, table, cursor) == table;
    assert Sort(less, table) == [a, b];
    StuckWalk(q, table, Page([a], cursor), n, None);
  }
}
