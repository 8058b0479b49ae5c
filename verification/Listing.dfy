/** Attendance records a page at a time, newest id first, each page starting after the last row of the one before. */
module Listing {
  import opened Common
  import Sorting

  datatype Row = Row(id: nat, employee: nat, branch: Option<nat>, date: int)

  datatype Filters = Filters(employee: Option<nat>, branch: Option<nat>, from: Option<int>, to: Option<int>)

  datatype Page = Page(rows: seq<Row>, nextCursor: Option<nat>)

  const DEFAULT_LIMIT: nat := 100
  const MAX_LIMIT: nat := 500

  function Limit(asked: Option<nat>): nat {
    var limit := if asked.Some? then asked.value else DEFAULT_LIMIT;
    if limit < MAX_LIMIT then limit else MAX_LIMIT
  }

  predicate Matches(r: Row, f: Filters) {
    && (f.employee.Some? ==> r.employee == f.employee.value)
    && (f.branch.Some? ==> r.branch == f.branch)
    && (f.from.Some? ==> f.from.value <= r.date)
    && (f.to.Some? ==> r.date <= f.to.value)
  }

  function Select(table: seq<Row>, f: Filters): seq<Row> {
    if table == [] then []
    else Select(table[..|table| - 1], f) + if Matches(table[|table| - 1], f) then [table[|table| - 1]] else []
  }

  predicate HigherId(a: Row, b: Row) { a.id >= b.id }

  /** `WHERE` and `ORDER BY id DESC`. */
  function Matching(table: seq<Row>, f: Filters): seq<Row> { Sorting.Sort(HigherId, Select(table, f)) }

  /** Rows after the cursor: the query starts at the cursor's row and skips it. */
  function Following(rows: seq<Row>, cursor: Option<nat>): seq<Row> {
    if cursor.None? then rows
    else if rows == [] then []
    else if rows[0].id <= cursor.value then if rows[0].id == cursor.value then rows[1..] else rows
    else Following(rows[1..], cursor)
  }

  /** Asks for one row more than a page holds, to learn whether there is another page. */
  function PageOf(rows: seq<Row>, cursor: Option<nat>, limit: nat): Page
    requires limit > 0
  {
    var found := Following(rows, cursor);
    var fetched := if |found| > limit + 1 then found[..limit + 1] else found;
    if |fetched| > limit then Page(fetched[..limit], Some(fetched[limit - 1].id)) else Page(fetched, None)
  }

  /**
   * Someone who may read everybody's records filters as they please; anyone else reads their own,
   * and may not ask for another's.
   */
  function List(table: seq<Row>, f: Filters, readsAll: bool, self: Option<nat>, cursor: Option<nat>,
      asked: Option<nat>): Result<Page, Refusal>
    requires Limit(asked) > 0
  {
    if readsAll then Ok(PageOf(Matching(table, f), cursor, Limit(asked)))
    else if self.None? then Ok(Page([], None))
    else if f.employee.Some? && f.employee != self then Err(Conflict(OnlyOwnRecords))
    else Ok(PageOf(Matching(table, f.(employee := self)), cursor, Limit(asked)))
  }

  // ---- What the query returns ----

  ghost predicate DistinctIds(rows: seq<Row>) { forall i, j :: 0 <= i < j < |rows| ==> rows[i].id != rows[j].id }

  ghost predicate Descending(rows: seq<Row>) { forall i, j :: 0 <= i < j < |rows| ==> rows[i].id > rows[j].id }

  lemma {:induction false} Selected(table: seq<Row>, f: Filters, r: Row)
    ensures r in Select(table, f) <==> r in table && Matches(r, f)
    ensures multiset(Select(table, f))[r] <= multiset(table)[r]
  {
    if table != [] {
      var front, last := table[..|table| - 1], table[|table| - 1];
      Selected(front, f, r);
      assert table == front + [last];
    }
  }

  lemma {:induction false} SelectKeepsDistinct(table: seq<Row>, f: Filters)
    requires DistinctIds(table)
    ensures DistinctIds(Select(table, f))
  {
    if table != [] {
      var front, last := table[..|table| - 1], table[|table| - 1];
      SelectKeepsDistinct(front, f);
      forall r | r in Select(front, f) ensures r.id != last.id {
        Selected(front, f, r);
        var i :| 0 <= i < |front| && front[i] == r;
        assert table[i] == r;
      }
    }
  }

  lemma HigherIdIsTotal()
    ensures Sorting.TotalPreorder(HigherId)
  {
  }

  /** Two rows at different places of a permutation of rows with distinct ids have distinct ids. */
  lemma PermutedStaysDistinct(rows: seq<Row>, other: seq<Row>)
    requires DistinctIds(rows) && multiset(rows) == multiset(other)
    ensures DistinctIds(other)
  {
    forall i, j | 0 <= i < j < |other| ensures other[i].id != other[j].id {
      assert other[i] in multiset(other) && other[j] in multiset(other);
      var a :| 0 <= a < |rows| && rows[a] == other[i];
      var b :| 0 <= b < |rows| && rows[b] == other[j];
      if a == b {
        Twice(other, i, j);
        Once(rows, a);
      }
    }
  }

  lemma Twice(rows: seq<Row>, i: nat, j: nat)
    requires i < j < |rows| && rows[i] == rows[j]
    ensures multiset(rows)[rows[i]] >= 2
  {
    assert rows == rows[..j] + [rows[j]] + rows[j + 1..];
    assert rows[i] in rows[..j];
    assert rows[..j][i] == rows[i];
    assert multiset(rows[..j])[rows[i]] >= 1;
  }

  lemma Once(rows: seq<Row>, i: nat)
    requires i < |rows| && DistinctIds(rows)
    ensures multiset(rows)[rows[i]] == 1
  {
    assert rows == rows[..i] + [rows[i]] + rows[i + 1..];
    assert rows[i] !in rows[..i] && rows[i] !in rows[i + 1..];
  }

  /** The query returns exactly the matching records, in strictly descending id order. */
  lemma MatchingDescends(table: seq<Row>, f: Filters)
    requires DistinctIds(table)
    ensures Descending(Matching(table, f))
    ensures forall r :: r in Matching(table, f) <==> r in table && Matches(r, f)
  {
    HigherIdIsTotal();
    Sorting.SortOrders(HigherId, Select(table, f));
    Sorting.SortPermutes(HigherId, Select(table, f));
    SelectKeepsDistinct(table, f);
    PermutedStaysDistinct(Select(table, f), Matching(table, f));
    var rows := Matching(table, f);
    forall i, j | 0 <= i < j < |rows| ensures rows[i].id > rows[j].id { assert HigherId(rows[i], rows[j]); }
    forall r ensures r in rows <==> r in table && Matches(r, f) {
      Sorting.SortMembers(HigherId, Select(table, f), r);
      Selected(table, f, r);
    }
  }

  /** Without organization-wide breadth nobody is shown another employee's record. */
  lemma OnlyOwnRecordsListed(table: seq<Row>, f: Filters, self: Option<nat>, cursor: Option<nat>, asked: Option<nat>)
    requires DistinctIds(table) && Limit(asked) > 0 && List(table, f, false, self, cursor, asked).Ok?
    ensures forall r :: r in List(table, f, false, self, cursor, asked).value.rows ==> Some(r.employee) == self
  {
    if self.Some? {
      var own := f.(employee := self);
      MatchingDescends(table, own);
      FollowingIsWithin(Matching(table, own), cursor);
      forall r | r in List(table, f, false, self, cursor, asked).value.rows ensures Some(r.employee) == self {
        assert r in Following(Matching(table, own), cursor);
        assert Matches(r, own);
      }
    }
  }

  lemma {:induction false} FollowingIsWithin(rows: seq<Row>, cursor: Option<nat>)
    ensures forall r :: r in Following(rows, cursor) ==> r in rows
  {
    if cursor.Some? && rows != [] { FollowingIsWithin(rows[1..], cursor); }
  }

  // ---- Going through the pages ----

  /** The rows after the row at `k` are those from `k + 1` on. */
  lemma {:induction false} FollowingRow(rows: seq<Row>, k: nat)
    requires Descending(rows) && k < |rows|
    ensures Following(rows, Some(rows[k].id)) == rows[k + 1..]
  {
    if k > 0 {
      FollowingRow(rows[1..], k - 1);
      assert rows[1..][k..] == rows[k + 1..];
    }
  }

  /** The pages as they are followed, from the `from`th row on. */
  function PagesFrom(rows: seq<Row>, from: nat, limit: nat): seq<Page>
    requires limit > 0 && from <= |rows|
    decreases |rows| - from
  {
    var page := PageOf(rows, if from == 0 then None else Some(rows[from - 1].id), limit);
    if page.nextCursor.None? || from + limit > |rows| then [page] else [page] + PagesFrom(rows, from + limit, limit)
  }

  function AllRows(pages: seq<Page>): seq<Row> {
    if pages == [] then [] else pages[0].rows + AllRows(pages[1..])
  }

  ghost predicate Linked(pages: seq<Page>) {
    && pages != [] && pages[|pages| - 1].nextCursor.None?
    && forall i :: 0 <= i < |pages| - 1 ==>
         pages[i].rows != [] && pages[i].nextCursor == Some(pages[i].rows[|pages[i].rows| - 1].id)
  }

  lemma PageFrom(rows: seq<Row>, from: nat, limit: nat)
    requires Descending(rows) && limit > 0 && from <= |rows|
    ensures var page := PageOf(rows, if from == 0 then None else Some(rows[from - 1].id), limit);
            if from + limit < |rows| then page == Page(rows[from..from + limit], Some(rows[from + limit - 1].id))
            else page == Page(rows[from..], None)
  {
    if from > 0 { FollowingRow(rows, from - 1); }
    assert rows[from..][..if |rows| - from > limit then limit else |rows| - from]
        == rows[from..if |rows| - from > limit then from + limit else |rows|];
  }

  /** So many pages are filled by `n` rows: all full but the last, which is not empty unless there are none. */
  ghost predicate Fills(pages: nat, n: nat, limit: nat) {
    pages > 0 && n <= pages * limit && (if n == 0 then pages == 1 else (pages - 1) * limit < n)
  }

  lemma OnePage(n: nat, limit: nat)
    requires n <= limit
    ensures Fills(1, n, limit)
  {
  }

  lemma OneMorePage(pages: nat, n: nat, limit: nat)
    requires limit > 0 && n > 0 && Fills(pages, n, limit)
    ensures Fills(pages + 1, n + limit, limit)
  {
    assert (pages + 1) * limit == pages * limit + limit;
    assert pages * limit == (pages - 1) * limit + limit;
  }

  lemma Prepended(page: Page, rest: seq<Page>)
    requires Linked(rest) && page.rows != [] && page.nextCursor == Some(page.rows[|page.rows| - 1].id)
    ensures AllRows([page] + rest) == page.rows + AllRows(rest) && Linked([page] + rest)
  {
  }

  lemma LastPage(page: Page)
    requires page.nextCursor.None?
    ensures AllRows([page]) == page.rows && Linked([page])
  {
  }

  lemma PagesUnfold(rows: seq<Row>, from: nat, limit: nat)
    requires Descending(rows) && limit > 0 && from <= |rows|
    ensures from + limit < |rows| ==>
              PagesFrom(rows, from, limit)
                == [Page(rows[from..from + limit], Some(rows[from + limit - 1].id))]
                 + PagesFrom(rows, from + limit, limit)
    ensures from + limit >= |rows| ==> PagesFrom(rows, from, limit) == [Page(rows[from..], None)]
  {
    PageFrom(rows, from, limit);
    hide PageOf;
  }

  lemma {:induction false} PagesFromCover(rows: seq<Row>, from: nat, limit: nat)
    requires Descending(rows) && limit > 0 && from <= |rows|
    ensures AllRows(PagesFrom(rows, from, limit)) == rows[from..]
    ensures Linked(PagesFrom(rows, from, limit))
    ensures Fills(|PagesFrom(rows, from, limit)|, |rows| - from, limit)
    decreases |rows| - from
  {
    hide *;
    PagesUnfold(rows, from, limit);
    if from + limit < |rows| {
      var rest := PagesFrom(rows, from + limit, limit);
      PagesFromCover(rows, from + limit, limit);
      Prepended(Page(rows[from..from + limit], Some(rows[from + limit - 1].id)), rest);
      OneMorePage(|rest|, |rows| - from - limit, limit);
      assert rows[from..] == rows[from..from + limit] + rows[from + limit..];
    } else {
      LastPage(Page(rows[from..], None));
      OnePage(|rows| - from, limit);
    }
  }

  /**
   * Following the cursor from the start over an unchanged table shows every matching record exactly
   * once, highest id first, and stops after as many pages as the count calls for.
   */
  lemma TraversalIsComplete(table: seq<Row>, f: Filters, limit: nat)
    requires DistinctIds(table) && limit > 0
    ensures var pages := PagesFrom(Matching(table, f), 0, limit);
            && Linked(pages) && Descending(AllRows(pages))
            && (forall r :: r in AllRows(pages) <==> r in table && Matches(r, f))
            && Fills(|pages|, |AllRows(pages)|, limit)
  {
    MatchingDescends(table, f);
    PagesFromCover(Matching(table, f), 0, limit);
    assert Matching(table, f)[0..] == Matching(table, f);
  }

  /** A page never holds more than was asked for, nor than the service allows. */
  lemma PageIsBounded(table: seq<Row>, f: Filters, readsAll: bool, self: Option<nat>, cursor: Option<nat>,
      asked: Option<nat>)
    requires Limit(asked) > 0 && List(table, f, readsAll, self, cursor, asked).Ok?
    ensures var page := List(table, f, readsAll, self, cursor, asked).value;
            && |page.rows| <= MAX_LIMIT && (asked.Some? ==> |page.rows| <= asked.value)
            && (page.nextCursor.Some? ==> |page.rows| == Limit(asked))
  {
  }

  // ---- One page, said of the table itself ----

  /**
   * A record a reader asked for: of this employee and branch, no earlier than the first day and no later
   * than the last.
   */
  ghost predicate AskedFor(r: Row, f: Filters) {
    && (f.employee == None || f.employee == Some(r.employee)) && (f.branch == None || f.branch == r.branch)
    && (f.from == None || r.date >= f.from.value) && (f.to == None || f.to.value >= r.date)
  }

  /** How many records a page holds when there are enough: a hundred unless asked, and never more than five hundred. */
  ghost function PageSize(asked: Option<nat>): nat {
    match asked
    case None => 100
    case Some(n) => if n > 500 then 500 else n
  }

  lemma {:induction false} FollowingExactly(rows: seq<Row>, cursor: nat) returns (k: nat)
    requires Descending(rows)
    ensures k <= |rows| && Following(rows, Some(cursor)) == rows[k..]
    ensures (forall i :: 0 <= i < k ==> rows[i].id >= cursor) && (forall i :: k <= i < |rows| ==> rows[i].id < cursor)
  {
    if rows == [] {
      k := 0;
    } else if rows[0].id <= cursor {
      k := if rows[0].id == cursor then 1 else 0;
    } else {
      k := FollowingExactly(rows[1..], cursor);
      assert rows[1..][k..] == rows[k + 1..];
      k := k + 1;
    }
  }

  /** What is still to come after the cursor. */
  ghost predicate ToCome(table: seq<Row>, f: Filters, cursor: Option<nat>, r: Row) {
    r in table && AskedFor(r, f) && (cursor.Some? ==> r.id < cursor.value)
  }

  /**
   * A page holds the highest ids still to come, in descending order: all of them if they fit, and
   * otherwise as many as a page holds, with a cursor at the last.
   */
  lemma PageHoldsTheNext(table: seq<Row>, f: Filters, cursor: Option<nat>, asked: Option<nat>)
    requires DistinctIds(table) && Limit(asked) > 0
    ensures List(table, f, true, None, cursor, asked).Ok?
    ensures var page := List(table, f, true, None, cursor, asked).value;
            && Descending(page.rows)
            && (forall r :: r in page.rows ==> ToCome(table, f, cursor, r))
            && match page.nextCursor
               case None => |page.rows| <= PageSize(asked) && forall r :: ToCome(table, f, cursor, r) ==> r in page.rows
               case Some(last) =>
                 && |page.rows| == PageSize(asked) && page.rows[|page.rows| - 1].id == last
                 && (exists r :: ToCome(table, f, cursor, r) && r !in page.rows)
                 && forall r :: ToCome(table, f, cursor, r) && r !in page.rows ==> r.id < last
  {
    var rows, limit := Matching(table, f), Limit(asked);
    assert limit == PageSize(asked);
    assert List(table, f, true, None, cursor, asked) == Ok(PageOf(rows, cursor, limit));
    hide *;
    ToComeExactly(table, f, cursor);
    PageOfFollowing(rows, cursor, limit);
    TakesTheFirst(Following(rows, cursor), limit, PageOf(rows, cursor, limit));
  }

  lemma PageOfFollowing(rows: seq<Row>, cursor: Option<nat>, limit: nat)
    requires limit > 0
    ensures var found := Following(rows, cursor);
            PageOf(rows, cursor, limit)
              == if |found| > limit then Page(found[..limit], Some(found[limit - 1].id)) else Page(found, None)
  {
    hide Following;
    var found := Following(rows, cursor);
    if |found| > limit + 1 { assert found[..limit + 1][..limit] == found[..limit]; }
  }

  lemma FollowingMembers(rows: seq<Row>, cursor: Option<nat>, r: Row)
    requires Descending(rows)
    ensures Descending(Following(rows, cursor))
    ensures r in Following(rows, cursor) <==> r in rows && (cursor.Some? ==> r.id < cursor.value)
  {
    if cursor.Some? {
      var k := FollowingExactly(rows, cursor.value);
      hide Following;
      if r in rows && r.id < cursor.value {
        var i :| 0 <= i < |rows| && rows[i] == r;
        assert rows[k..][i - k] == r;
      }
    }
  }

  /** What follows the cursor in the rows read is what is still to come. */
  lemma ToComeExactly(table: seq<Row>, f: Filters, cursor: Option<nat>)
    requires DistinctIds(table)
    ensures var found := Following(Matching(table, f), cursor);
            Descending(found) && forall r :: r in found <==> ToCome(table, f, cursor, r)
  {
    MatchingDescends(table, f);
    hide *;
    forall r: Row ensures r in Following(Matching(table, f), cursor) <==> ToCome(table, f, cursor, r) {
      IsToCome(table, f, cursor, r);
    }
    FollowingMembers(Matching(table, f), cursor, Row(0, 0, None, 0));
  }

  lemma IsToCome(table: seq<Row>, f: Filters, cursor: Option<nat>, r: Row)
    requires DistinctIds(table)
    ensures r in Following(Matching(table, f), cursor) <==> ToCome(table, f, cursor, r)
  {
    MatchingDescends(table, f);
    hide Matching, Following, DistinctIds;
    FollowingMembers(Matching(table, f), cursor, r);
  }

  lemma TakesTheFirst(found: seq<Row>, limit: nat, page: Page)
    requires Descending(found) && limit > 0
    requires page == if |found| > limit then Page(found[..limit], Some(found[limit - 1].id)) else Page(found, None)
    ensures Descending(page.rows) && forall r :: r in page.rows ==> r in found
    ensures match page.nextCursor
            case None => page.rows == found && |found| <= limit
            case Some(last) =>
              && |page.rows| == limit && page.rows[limit - 1].id == last
              && (exists r :: r in found && r !in page.rows) && forall r :: r in found && r !in page.rows ==>
                   r.id < last
  {
    if |found| > limit {
      assert page.rows == found[..limit];
      assert found[limit] in found && found[limit] !in page.rows;
      forall r | r in found && r !in page.rows ensures r.id < found[limit - 1].id {
        var i :| 0 <= i < |found| && found[i] == r;
        if i < limit { assert page.rows[i] == r; }
      }
    }
  }

  /**
   * Whoever may not read everybody's records reads as if they had asked for their own; asking for
   * another's is refused, and with no employee of one's own there is nothing to read.
   */
  lemma OthersReadTheirOwn(table: seq<Row>, f: Filters, self: Option<nat>, cursor: Option<nat>, asked: Option<nat>)
    requires Limit(asked) > 0
    ensures List(table, f, false, self, cursor, asked) ==
              if self == None then Ok(Page([], None))
              else if f.employee != None && f.employee != self then Err(Conflict(OnlyOwnRecords))
              else List(table, Filters(self, f.branch, f.from, f.to), true, None, cursor, asked)
  {
  }
}
