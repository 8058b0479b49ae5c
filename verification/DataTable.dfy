/** The table's rules: search, then filters, then sort, then one page. */
module DataTable {
  import opened Common
  import Sorting
  import Text

  datatype Cell = Null | Undefined | Number(value: real) | Words(text: string)

  datatype Direction = Asc | Desc

  /** A column reads a cell from a row, and may bring its own comparison and its own filter. */
  datatype Column<!T> = Column(
    id: string, cell: T -> Cell, sortFn: Option<(T, T, Direction) -> int>, filterFn: Option<(T, string) -> bool>)

  datatype SortState = Unsorted | By(column: string, direction: Direction)

  /** What the platform decides: how letters fold, how numbers are written, and how texts compare. */
  datatype Locale = Locale(fold: char -> char, written: real -> string, collate: (string, string) -> int)

  const NO_FILTER := "ALL"

  function DisplayValue(cell: Cell, locale: Locale): string {
    match cell
    case Number(value) => locale.written(value)
    case Words(text) => text
    case _ => ""
  }

  function Keep<T>(rows: seq<T>, test: T -> bool): seq<T> {
    if rows == [] then []
    else Keep(rows[..|rows| - 1], test) + if test(rows[|rows| - 1]) then [rows[|rows| - 1]] else []
  }

  // ---- Search ----

  function Needle(query: string, locale: Locale): string { Text.Trim(Text.Lowered(query, locale.fold)) }

  predicate Holds(text: string, needle: string, locale: Locale) {
    Text.Includes(Text.Lowered(text, locale.fold), needle)
  }

  /** Explicit search fields win; otherwise every column's text is searched. */
  predicate Found<T>(row: T, columns: seq<Column<T>>, needle: string, fields: seq<T -> string>, locale: Locale) {
    if fields != [] then exists i :: 0 <= i < |fields| && Holds(fields[i](row), needle, locale)
    else exists i :: 0 <= i < |columns| && Holds(DisplayValue(columns[i].cell(row), locale), needle, locale)
  }

  function SearchRows<T>(data: seq<T>, columns: seq<Column<T>>, query: string, fields: seq<T -> string>,
      locale: Locale): seq<T> {
    var needle := Needle(query, locale);
    if needle == "" then data else Keep(data, row => Found(row, columns, needle, fields, locale))
  }

  // ---- Filters ----

  function FindColumn<T>(columns: seq<Column<T>>, id: string): Option<Column<T>> {
    if columns == [] then None
    else if columns[0].id == id then Some(columns[0])
    else FindColumn(columns[1..], id)
  }

  /** Does a row pass one filter? An empty or `ALL` value, or a column that is not there, filters nothing. */
  predicate Passes<T>(row: T, columns: seq<Column<T>>, filter: (string, string), locale: Locale) {
    if filter.1 == "" || filter.1 == NO_FILTER then true
    else match FindColumn(columns, filter.0)
      case None => true
      case Some(column) =>
        if column.filterFn.Some? then column.filterFn.value(row, filter.1)
        else DisplayValue(column.cell(row), locale) == filter.1
  }

  predicate PassesAll<T>(row: T, columns: seq<Column<T>>, filters: seq<(string, string)>, locale: Locale) {
    forall i :: 0 <= i < |filters| ==> Passes(row, columns, filters[i], locale)
  }

  /** The rows that pass every filter, whatever order the filters are applied in. */
  function Filtered<T>(data: seq<T>, columns: seq<Column<T>>, filters: seq<(string, string)>, locale: Locale): seq<T> {
    Keep(data, row => PassesAll(row, columns, filters, locale))
  }

  method ApplyColumnFilters<T>(data: seq<T>, columns: seq<Column<T>>, filters: seq<(string, string)>, locale: Locale)
      returns (rows: seq<T>)
    ensures rows == Filtered(data, columns, filters, locale)
  {
    rows := data;
    KeepAll(data, row => PassesAll(row, columns, filters[..0], locale));
    for i := 0 to |filters|
      invariant rows == Filtered(data, columns, filters[..i], locale)
    {
      OneMoreFilter(data, columns, filters, i, locale);
      var value := filters[i].1;
      var column := FindColumn(columns, filters[i].0);
      if value != "" && value != NO_FILTER && column.Some? {
        var test := column.value.filterFn;
        ghost var before := rows;
        rows := if test.Some? then Keep(rows, row => test.value(row, value))
                else Keep(rows, row => DisplayValue(column.value.cell(row), locale) == value);
        KeepSame(before, row => Passes(row, columns, filters[i], locale),
                 if test.Some? then row => test.value(row, value)
                 else row => DisplayValue(column.value.cell(row), locale) == value);
      } else {
        KeepAll(rows, row => Passes(row, columns, filters[i], locale));
      }
    }
    assert filters[..|filters|] == filters;
  }

  lemma {:induction false} KeepAll<T>(rows: seq<T>, test: T -> bool)
    requires forall i :: 0 <= i < |rows| ==> test(rows[i])
    ensures Keep(rows, test) == rows
  {
    if rows != [] { KeepAll(rows[..|rows| - 1], test); }
  }

  lemma {:induction false} KeepSame<T>(rows: seq<T>, test: T -> bool, other: T -> bool)
    requires forall i :: 0 <= i < |rows| ==> (test(rows[i]) <==> other(rows[i]))
    ensures Keep(rows, test) == Keep(rows, other)
  {
    if rows != [] { KeepSame(rows[..|rows| - 1], test, other); }
  }

  lemma {:induction false} KeepTwice<T>(rows: seq<T>, first: T -> bool, second: T -> bool, both: T -> bool)
    requires forall i :: 0 <= i < |rows| ==> (both(rows[i]) <==> first(rows[i]) && second(rows[i]))
    ensures Keep(Keep(rows, first), second) == Keep(rows, both)
  {
    if rows != [] {
      var front, last := rows[..|rows| - 1], rows[|rows| - 1];
      KeepTwice(front, first, second, both);
      var kept := Keep(front, first);
      assert (kept + [last])[..|kept|] == kept;
      assert kept + [] == kept;
    }
  }

  lemma OneMoreFilter<T>(data: seq<T>, columns: seq<Column<T>>, filters: seq<(string, string)>, i: nat, locale: Locale)
    requires i < |filters|
    ensures Keep(Filtered(data, columns, filters[..i], locale), row => Passes(row, columns, filters[i], locale))
         == Filtered(data, columns, filters[..i + 1], locale)
  {
    forall k | 0 <= k < |data|
      ensures PassesAll(data[k], columns, filters[..i + 1], locale)
         <==> PassesAll(data[k], columns, filters[..i], locale) && Passes(data[k], columns, filters[i], locale)
    {
      assert filters[..i + 1] == filters[..i] + [filters[i]];
    }
    KeepTwice(data, row => PassesAll(row, columns, filters[..i], locale),
              row => Passes(row, columns, filters[i], locale),
              row => PassesAll(row, columns, filters[..i + 1], locale));
  }

  lemma {:induction false} KeepCounts<T>(rows: seq<T>, test: T -> bool, x: T)
    ensures multiset(Keep(rows, test))[x] == if test(x) then multiset(rows)[x] else 0
  {
    if rows != [] {
      KeepCounts(rows[..|rows| - 1], test, x);
      assert rows == rows[..|rows| - 1] + [rows[|rows| - 1]];
    }
  }

  /** Applying the filters in any other order keeps the same rows, in the same order. */
  lemma FilterOrderIsIrrelevant<T>(data: seq<T>, columns: seq<Column<T>>, filters: seq<(string, string)>,
      other: seq<(string, string)>, locale: Locale)
    requires multiset(filters) == multiset(other)
    ensures Filtered(data, columns, filters, locale) == Filtered(data, columns, other, locale)
  {
    forall k | 0 <= k < |data|
      ensures PassesAll(data[k], columns, filters, locale) <==> PassesAll(data[k], columns, other, locale)
    {
      if PassesAll(data[k], columns, filters, locale) { SameFilters(data[k], columns, filters, other, locale); }
      if PassesAll(data[k], columns, other, locale) { SameFilters(data[k], columns, other, filters, locale); }
    }
    KeepSame(data, row => PassesAll(row, columns, filters, locale), row => PassesAll(row, columns, other, locale));
  }

  lemma SameFilters<T>(row: T, columns: seq<Column<T>>, filters: seq<(string, string)>, other: seq<(string, string)>,
      locale: Locale)
    requires multiset(filters) == multiset(other) && PassesAll(row, columns, filters, locale)
    ensures PassesAll(row, columns, other, locale)
  {
    forall i | 0 <= i < |other| ensures Passes(row, columns, other[i], locale) {
      assert other[i] in multiset(filters);
      var j :| 0 <= j < |filters| && filters[j] == other[i];
    }
  }

  // ---- Sorting ----

  predicate IsEmpty(cell: Cell) { cell.Null? || cell.Undefined? }

  function Signed(comparison: int, direction: Direction): int { if direction.Asc? then comparison else -comparison }

  /** Empty values come last whatever the direction: a blank cell is absence, not a low value. */
  function CompareCells(left: Cell, right: Cell, direction: Direction, locale: Locale): int {
    if left == right then 0
    else if IsEmpty(left) then 1
    else if IsEmpty(right) then -1
    else if left.Number? && right.Number? then Signed(if left.value < right.value then -1 else 1, direction)
    else Signed(locale.collate(DisplayValue(left, locale), DisplayValue(right, locale)), direction)
  }

  function SortRows<T>(data: seq<T>, columns: seq<Column<T>>, sort: SortState, locale: Locale): seq<T> {
    if sort.Unsorted? then data
    else match FindColumn(columns, sort.column)
      case None => data
      case Some(column) =>
        if column.sortFn.Some? then Sorting.Sort((a, b) => column.sortFn.value(a, b, sort.direction) <= 0, data)
        else Sorting.Sort((a, b) => CompareCells(column.cell(a), column.cell(b), sort.direction, locale) <= 0, data)
  }

  /** Any sorting only rearranges. */
  lemma SortRearranges<T>(data: seq<T>, columns: seq<Column<T>>, sort: SortState, locale: Locale)
    ensures multiset(SortRows(data, columns, sort, locale)) == multiset(data)
  {
    if sort.By? {
      var found := FindColumn(columns, sort.column);
      if found.Some? {
        var column := found.value;
        if column.sortFn.Some? {
          Sorting.SortPermutes((a, b) => column.sortFn.value(a, b, sort.direction) <= 0, data);
        } else {
          Sorting.SortPermutes((a, b) => CompareCells(column.cell(a), column.cell(b), sort.direction, locale) <= 0,
                               data);
        }
      }
    }
  }

  /** Numbers in the direction asked for, and then everything that is not a number. */
  predicate NumbersFirst(left: Cell, right: Cell, direction: Direction) {
    if !right.Number? then true
    else left.Number? && (if direction.Asc? then left.value <= right.value else right.value <= left.value)
  }

  lemma NumbersFirstIsTotal<T(!new)>(cell: T -> Cell, direction: Direction)
    ensures Sorting.TotalPreorder((a: T, b: T) => NumbersFirst(cell(a), cell(b), direction))
  {
  }

  ghost predicate NumbersAnd<T>(data: seq<T>, cell: T -> Cell, empty: Cell) {
    forall i :: 0 <= i < |data| ==> cell(data[i]).Number? || cell(data[i]) == empty
  }

  lemma NumberComparison(left: Cell, right: Cell, empty: Cell, direction: Direction, locale: Locale)
    requires IsEmpty(empty) && (left.Number? || left == empty) && (right.Number? || right == empty)
    ensures CompareCells(left, right, direction, locale) <= 0 <==> NumbersFirst(left, right, direction)
  {
  }

  function HasCell<T>(cell: T -> Cell, value: Cell): T -> bool { row => cell(row) == value }

  /**
   * A column of numbers and one kind of empty value sorts as it should: numbers in order, empties
   * last in both directions, rows of equal cells in the order they came.
   */
  lemma NumbersSortEmptiesLast<T(!new)>(data: seq<T>, columns: seq<Column<T>>, sort: SortState, empty: Cell,
      locale: Locale)
    requires sort.By? && FindColumn(columns, sort.column).Some? && IsEmpty(empty)
    requires var column := FindColumn(columns, sort.column).value;
             column.sortFn.None? && NumbersAnd(data, column.cell, empty)
    ensures var cell, sorted := FindColumn(columns, sort.column).value.cell, SortRows(data, columns, sort, locale);
            && multiset(sorted) == multiset(data)
            && (forall i, j :: 0 <= i < j < |sorted| ==> NumbersFirst(cell(sorted[i]), cell(sorted[j]), sort.direction))
            && (forall value :: Keep(sorted, HasCell(cell, value)) == Keep(data, HasCell(cell, value)))
  {
    var cell := FindColumn(columns, sort.column).value.cell;
    var compare := (a: T, b: T) => CompareCells(cell(a), cell(b), sort.direction, locale) <= 0;
    var order := (a: T, b: T) => NumbersFirst(cell(a), cell(b), sort.direction);
    forall i, j | 0 <= i < |data| && 0 <= j < |data| ensures compare(data[i], data[j]) <==> order(data[i], data[j]) {
      NumberComparison(cell(data[i]), cell(data[j]), empty, sort.direction, locale);
    }
    SortAgrees(compare, order, data);
    NumbersFirstIsTotal(cell, sort.direction);
    Sorting.SortOrders(order, data);
    SortRearranges(data, columns, sort, locale);
    var sorted := SortRows(data, columns, sort, locale);
    assert sorted == Sorting.Sort(order, data);
    forall i, j | 0 <= i < j < |sorted| ensures NumbersFirst(cell(sorted[i]), cell(sorted[j]), sort.direction) {
      assert order(sorted[i], sorted[j]);
    }
    forall value ensures Keep(sorted, HasCell(cell, value)) == Keep(data, HasCell(cell, value)) {
      SortKeeps(order, data, HasCell(cell, value));
    }
  }

  lemma {:induction false} InsertAgrees<T>(le: (T, T) -> bool, other: (T, T) -> bool, s: seq<T>, x: T)
    requires forall i :: 0 <= i < |s| ==> (le(s[i], x) <==> other(s[i], x))
    ensures Sorting.Insert(le, s, x) == Sorting.Insert(other, s, x)
  {
    if s != [] && !le(s[|s| - 1], x) { InsertAgrees(le, other, s[..|s| - 1], x); }
  }

  /** Orders that agree on the rows sort them alike. */
  lemma {:induction false} SortAgrees<T>(le: (T, T) -> bool, other: (T, T) -> bool, s: seq<T>)
    requires forall i, j :: 0 <= i < |s| && 0 <= j < |s| ==> (le(s[i], s[j]) <==> other(s[i], s[j]))
    ensures Sorting.Sort(le, s) == Sorting.Sort(other, s)
  {
    if s != [] {
      var front, last := s[..|s| - 1], s[|s| - 1];
      SortAgrees(le, other, front);
      var sorted := Sorting.Sort(le, front);
      forall i | 0 <= i < |sorted| ensures le(sorted[i], last) <==> other(sorted[i], last) {
        Sorting.SortMembers(le, front, sorted[i]);
        var j :| 0 <= j < |front| && front[j] == sorted[i];
        assert s[j] == sorted[i];
      }
      InsertAgrees(le, other, sorted, last);
    }
  }

  lemma {:induction false} InsertKeeps<T>(le: (T, T) -> bool, s: seq<T>, x: T, test: T -> bool)
    requires forall i :: 0 <= i < |s| && test(s[i]) && test(x) ==> le(s[i], x)
    ensures Keep(Sorting.Insert(le, s, x), test) == Keep(s, test) + if test(x) then [x] else []
  {
    if s == [] || le(s[|s| - 1], x) {
      assert (s + [x])[..|s|] == s;
    } else {
      var front, last := s[..|s| - 1], s[|s| - 1];
      InsertKeeps(le, front, x, test);
      var inserted := Sorting.Insert(le, front, x);
      assert (inserted + [last])[..|inserted|] == inserted;
    }
  }

  /** Sorting keeps rows that tie in the order they came. */
  lemma {:induction false} SortKeeps<T>(le: (T, T) -> bool, s: seq<T>, test: T -> bool)
    requires forall i, j :: 0 <= i < |s| && 0 <= j < |s| && test(s[i]) && test(s[j]) ==> le(s[i], s[j])
    ensures Keep(Sorting.Sort(le, s), test) == Keep(s, test)
  {
    if s != [] {
      var front, last := s[..|s| - 1], s[|s| - 1];
      SortKeeps(le, front, test);
      var sorted := Sorting.Sort(le, front);
      forall i | 0 <= i < |sorted| && test(sorted[i]) && test(last) ensures le(sorted[i], last) {
        Sorting.SortMembers(le, front, sorted[i]);
        var j :| 0 <= j < |front| && front[j] == sorted[i];
        assert s[j] == sorted[i] && s[|s| - 1] == last;
      }
      InsertKeeps(le, sorted, last, test);
    }
  }

  /** The comparison is a total preorder on numbers and empties exactly when the two kinds of empty do not meet. */
  lemma ComparableExactly(cells: set<Cell>, direction: Direction, locale: Locale)
    requires forall c :: c in cells ==> c.Number? || IsEmpty(c)
    ensures && (forall a, b :: a in cells && b in cells ==>
                  CompareCells(a, b, direction, locale) <= 0 || CompareCells(b, a, direction, locale) <= 0)
            && (forall a, b, c :: a in cells && b in cells && c in cells ==>
                  CompareCells(a, b, direction, locale) <= 0 && CompareCells(b, c, direction, locale) <= 0 ==>
                    CompareCells(a, c, direction, locale) <= 0)
       <==> !(Null in cells && Undefined in cells)
  {
  }

  // ---- Pages ----

  function PageCount(total: nat, size: nat): nat
    requires size > 0
  {
    var pages := (total + size - 1) / size;
    if pages == 0 then 1 else pages
  }

  function ClampPage(page: int, total: nat): int {
    var least := if page < 1 then 1 else page;
    if least < total then least else total
  }

  /** `Array.prototype.slice`, where a negative position counts from the end. */
  function Slice<T>(s: seq<T>, from: int, to: int): seq<T> {
    var start, end := Position(|s|, from), Position(|s|, to);
    if start < end then s[start..end] else []
  }

  function Position(length: nat, at: int): (p: nat)
    ensures p <= length
  {
    if at < 0 then if length + at < 0 then 0 else length + at
    else if at > length then length else at
  }

  function Paginate<T>(data: seq<T>, page: int, size: nat): seq<T> {
    var start := (page - 1) * size;
    Slice(data, start, start + size)
  }

  function FirstPages<T>(data: seq<T>, pages: nat, size: nat): seq<T> {
    if pages == 0 then [] else FirstPages(data, pages - 1, size) + Paginate(data, pages, size)
  }

  function FirstRows<T>(data: seq<T>, n: nat): seq<T> { if n <= |data| then data[..n] else data }

  lemma OnePage<T>(data: seq<T>, start: nat, size: nat)
    ensures FirstRows(data, start) + Slice(data, start, start + size) == FirstRows(data, start + size)
  {
  }

  lemma PageStarts<T>(data: seq<T>, page: nat, size: nat, start: nat)
    requires page > 0 && start == (page - 1) * size
    ensures Paginate(data, page, size) == Slice(data, start, start + size) && start + size == page * size
  {
  }

  lemma {:induction false} FirstPagesAreFirstRows<T>(data: seq<T>, pages: nat, size: nat)
    ensures FirstPages(data, pages, size) == FirstRows(data, pages * size)
  {
    if pages > 0 {
      var start := (pages - 1) * size;
      FirstPagesAreFirstRows(data, pages - 1, size);
      PageStarts(data, pages, size, start);
      hide FirstRows, Slice, Paginate;
      OnePage(data, start, size);
    }
  }

  /** Pages are enough for the rows, and all but the last are full. */
  lemma PageCountFits(total: nat, size: nat)
    requires size > 0
    ensures total <= PageCount(total, size) * size
    ensures total > 0 ==> (PageCount(total, size) - 1) * size < total
  {
    var x := total + size - 1;
    var q := x / size;
    assert x == q * size + x % size;
    if total > 0 {
      assert (q - 1) * size == q * size - size;
    }
  }

  /** The pages put together are all the rows, in order. */
  lemma AllPagesAreTheRows<T>(data: seq<T>, size: nat)
    requires size > 0
    ensures FirstPages(data, PageCount(|data|, size), size) == data
  {
    PageCountFits(|data|, size);
    FirstPagesAreFirstRows(data, PageCount(|data|, size), size);
  }

  /** Whatever page is asked for, the page shown of a non-empty table is not empty. */
  lemma ClampedPageIsNotEmpty<T>(data: seq<T>, page: int, size: nat)
    requires size > 0 && data != []
    ensures Paginate(data, ClampPage(page, PageCount(|data|, size)), size) != []
  {
    PageCountFits(|data|, size);
    var pages := PageCount(|data|, size);
    var clamped := ClampPage(page, pages);
    assert 1 <= clamped <= pages;
    MulMonotone(clamped - 1, pages - 1, size);
  }

  lemma MulMonotone(a: nat, b: nat, c: nat)
    requires a <= b
    ensures a * c <= b * c
  {
  }

  // ---- The whole table ----

  predicate Shown<T>(row: T, columns: seq<Column<T>>, query: string, fields: seq<T -> string>,
      filters: seq<(string, string)>, locale: Locale) {
    && (Needle(query, locale) == "" || Found(row, columns, Needle(query, locale), fields, locale))
    && PassesAll(row, columns, filters, locale)
  }

  function View<T>(data: seq<T>, columns: seq<Column<T>>, query: string, fields: seq<T -> string>,
      filters: seq<(string, string)>, sort: SortState, locale: Locale): seq<T>
  {
    SortRows(Filtered(SearchRows(data, columns, query, fields, locale), columns, filters, locale), columns, sort,
             locale)
  }

  /** All pages together hold each matching row as often as the data does, and no other row. */
  lemma PagesHoldExactlyTheMatches<T>(data: seq<T>, columns: seq<Column<T>>, query: string, fields: seq<T -> string>,
      filters: seq<(string, string)>, sort: SortState, locale: Locale, size: nat, row: T)
    requires size > 0
    ensures var view := View(data, columns, query, fields, filters, sort, locale);
            multiset(FirstPages(view, PageCount(|view|, size), size))[row]
              == if Shown(row, columns, query, fields, filters, locale) then multiset(data)[row] else 0
  {
    var searched := SearchRows(data, columns, query, fields, locale);
    var filtered := Filtered(searched, columns, filters, locale);
    AllPagesAreTheRows(View(data, columns, query, fields, filters, sort, locale), size);
    SortRearranges(filtered, columns, sort, locale);
    KeepCounts(searched, row => PassesAll(row, columns, filters, locale), row);
    KeepCounts(data, row => Found(row, columns, Needle(query, locale), fields, locale), row);
  }

  predicate HasActiveFilters(query: string, filters: seq<(string, string)>) {
    || Text.Trim(query) != ""
    || exists i :: 0 <= i < |filters| && filters[i].1 != "" && filters[i].1 != NO_FILTER
  }

  ghost predicate FoldKeepsBlanks(locale: Locale) { forall c :: Text.IsSpace(locale.fold(c)) <==> Text.IsSpace(c) }

  /** With nothing active every row stays, where it was. */
  lemma NothingActiveKeepsAll<T>(data: seq<T>, columns: seq<Column<T>>, query: string, fields: seq<T -> string>,
      filters: seq<(string, string)>, locale: Locale)
    requires !HasActiveFilters(query, filters) && FoldKeepsBlanks(locale)
    ensures Filtered(SearchRows(data, columns, query, fields, locale), columns, filters, locale) == data
  {
    Text.TrimmedAwayExactly(query);
    Text.TrimmedAwayExactly(Text.Lowered(query, locale.fold));
    assert Needle(query, locale) == "";
    KeepAll(data, row => PassesAll(row, columns, filters, locale));
  }

  // ---- What is shown, said of the rows themselves ----

  /** The first column with this id. */
  ghost predicate IsColumn<T>(columns: seq<Column<T>>, id: string, i: nat) {
    i < |columns| && columns[i].id == id && forall j :: 0 <= j < i ==> columns[j].id != id
  }

  lemma {:induction false} ColumnFound<T>(columns: seq<Column<T>>, id: string) returns (i: nat)
    ensures match FindColumn(columns, id)
            case Some(column) => IsColumn(columns, id, i) && columns[i] == column
            case None => forall j :: 0 <= j < |columns| ==> columns[j].id != id
  {
    i := 0;
    if columns != [] && columns[0].id != id {
      i := ColumnFound(columns[1..], id);
      if FindColumn(columns, id).Some? {
        forall j | 0 <= j < i + 1 ensures columns[j].id != id { if j > 0 { assert columns[j] == columns[1..][j - 1]; } }
      } else {
        forall j | 0 <= j < |columns| ensures columns[j].id != id {
          if j > 0 { assert columns[j] == columns[1..][j - 1]; }
        }
      }
      i := i + 1;
    }
  }

  /** A cell shows its number as written, its text as it is, and nothing if it is empty. */
  lemma CellsShow(value: real, text: string, locale: Locale)
    ensures DisplayValue(Number(value), locale) == locale.written(value) && DisplayValue(Words(text), locale) == text
    ensures DisplayValue(Null, locale) == [] && DisplayValue(Undefined, locale) == []
  {
  }

  /** A filter keeps the rows its column accepts: by the column's own test, or by showing the very value. */
  lemma FilterKeepsExactly<T>(row: T, columns: seq<Column<T>>, id: string, value: string, locale: Locale)
    ensures Passes(row, columns, (id, value), locale) <==>
              || value in ["", "ALL"] || (forall j :: 0 <= j < |columns| ==> columns[j].id != id)
              || exists i: nat :: IsColumn(columns, id, i)
                   && match columns[i].filterFn
                      case Some(accepts) => accepts(row, value)
                      case None => DisplayValue(columns[i].cell(row), locale) == value
  {
    var i := ColumnFound(columns, id);
    if FindColumn(columns, id).Some? {
      assert IsColumn(columns, id, i);
      forall k: nat | IsColumn(columns, id, k) ensures k == i {}
    }
    hide FindColumn, DisplayValue;
  }

  /** This text, letter case aside, holds what is searched for. */
  ghost predicate Mentions(text: string, needle: string, locale: Locale) {
    exists before, after :: |before| + |needle| + |after| == |text|
      && forall i :: 0 <= i < |text| ==> locale.fold(text[i]) == (before + needle + after)[i]
  }

  lemma HoldsExactly(text: string, needle: string, locale: Locale)
    ensures Holds(text, needle, locale) <==> Mentions(text, needle, locale)
  {
    var lowered := Text.Lowered(text, locale.fold);
    Text.IncludesExactly(lowered, needle);
    if before, after :| lowered == before + needle + after {
      assert forall i :: 0 <= i < |text| ==> locale.fold(text[i]) == (before + needle + after)[i];
    }
    if Mentions(text, needle, locale) {
      var before, after :| |before| + |needle| + |after| == |text|
        && forall i :: 0 <= i < |text| ==> locale.fold(text[i]) == (before + needle + after)[i];
      assert lowered == before + needle + after;
    }
  }

  /**
   * A search keeps every row while it is blank, and otherwise the rows of which a search field, or
   * where there are none the text of a column, holds the trimmed query, letter case aside.
   */
  lemma SearchKeepsExactly<T>(data: seq<T>, columns: seq<Column<T>>, query: string, fields: seq<T -> string>,
      locale: Locale, row: T)
    ensures var needle := Text.Trim(Text.Lowered(query, locale.fold));
            multiset(SearchRows(data, columns, query, fields, locale))[row] ==
              if || needle == []
                 || (fields != [] && exists i :: 0 <= i < |fields| && Mentions(fields[i](row), needle, locale))
                 || (fields == []
                     && exists i :: 0 <= i < |columns|
                          && Mentions(DisplayValue(columns[i].cell(row), locale), needle, locale))
              then multiset(data)[row] else 0
  {
    var needle := Needle(query, locale);
    KeepCounts(data, row => Found(row, columns, needle, fields, locale), row);
    forall text ensures Holds(text, needle, locale) <==> Mentions(text, needle, locale) {
      HoldsExactly(text, needle, locale);
    }
    hide Holds, Mentions;
  }

  /** Something is active exactly when the query has more than white space or some filter has a value of its own. */
  lemma ActiveExactly(query: string, filters: seq<(string, string)>)
    ensures HasActiveFilters(query, filters) <==>
              || (exists i :: 0 <= i < |query| && !Text.IsSpace(query[i]))
              || exists i :: 0 <= i < |filters| && filters[i].1 !in ["", "ALL"]
  {
    Text.TrimmedAwayExactly(query);
    hide Text.IsSpace;
  }

  /** A column's own consistent comparison puts the rows in its order, rows that tie in the order they came. */
  lemma OwnComparisonSorts<T(!new)>(data: seq<T>, columns: seq<Column<T>>, id: string, direction: Direction,
      locale: Locale, i: nat)
    requires IsColumn(columns, id, i) && columns[i].sortFn.Some?
    requires Sorting.TotalPreorder((a, b) => columns[i].sortFn.value(a, b, direction) <= 0)
    ensures var sorted := SortRows(data, columns, By(id, direction), locale);
            && multiset(sorted) == multiset(data)
            && (forall j, k :: 0 <= j < k < |sorted| ==> columns[i].sortFn.value(sorted[j], sorted[k], direction) <= 0)
            && forall test: T -> bool ::
                 (forall a, b :: test(a) && test(b) ==> columns[i].sortFn.value(a, b, direction) <= 0) ==>
                   Keep(sorted, test) == Keep(data, test)
  {
    var k := ColumnFound(columns, id);
    assert k == i;
    var order := (a, b) => columns[i].sortFn.value(a, b, direction) <= 0;
    Sorting.SortOrders(order, data);
    Sorting.SortPermutes(order, data);
    var sorted := SortRows(data, columns, By(id, direction), locale);
    assert sorted == Sorting.Sort(order, data);
    forall j, k | 0 <= j < k < |sorted| ensures columns[i].sortFn.value(sorted[j], sorted[k], direction) <= 0 {
      assert order(sorted[j], sorted[k]);
    }
    forall test: T -> bool | forall a, b :: test(a) && test(b) ==> columns[i].sortFn.value(a, b, direction) <= 0
      ensures Keep(sorted, test) == Keep(data, test)
    {
      SortKeeps(order, data, test);
    }
  }

  /** No sort, or one by a column that is not there, leaves the rows as they came. */
  lemma UnsortedStays<T>(data: seq<T>, columns: seq<Column<T>>, id: string, direction: Direction, locale: Locale)
    ensures SortRows(data, columns, Unsorted, locale) == data
    ensures (forall j :: 0 <= j < |columns| ==> columns[j].id != id) ==>
              SortRows(data, columns, By(id, direction), locale) == data
  {
    var i := ColumnFound(columns, id);
  }

  /** Texts compare as the platform says, in the direction asked for, and behind every text come the empty cells. */
  lemma TextsCompare(left: string, right: string, locale: Locale)
    ensures left != right ==>
              && CompareCells(Words(left), Words(right), Asc, locale) == locale.collate(left, right)
              && CompareCells(Words(left), Words(right), Desc, locale) == -locale.collate(left, right)
    ensures CompareCells(Words(left), Words(left), Asc, locale) == 0
    ensures forall direction ::
              && CompareCells(Words(left), Null, direction, locale) < 0
              && CompareCells(Undefined, Words(left), direction, locale) > 0
  {
  }

  /** There is always a page, as few as hold the rows, and a page that is there is the page shown. */
  lemma PagesAreCounted(total: nat, size: nat, page: int)
    requires size > 0
    ensures PageCount(total, size) >= 1 && total <= PageCount(total, size) * size
    ensures PageCount(total, size) > 1 ==> (PageCount(total, size) - 1) * size < total
    ensures ClampPage(page, PageCount(total, size)) ==
              if 1 <= page <= PageCount(total, size) then page else if page < 1 then 1 else PageCount(total, size)
  {
    PageCountFits(total, size);
    var x := total + size - 1;
    assert x == x / size * size + x % size;
    if total == 0 { assert x / size == 0; }
  }

  /** A position before the start counts from the end, as far as there are rows; one past the end is the end. */
  lemma SlicesCountFromTheEnd<T>(s: seq<T>, from: int, to: int)
    requires from < 0
    ensures -|s| <= from ==> Slice(s, from, to) == Slice(s, |s| + from, to)
    ensures from < -|s| ==> Slice(s, from, to) == Slice(s, 0, to)
    ensures -|s| <= to < 0 ==> Slice(s, from, to) == Slice(s, from, |s| + to)
    ensures to < -|s| ==> Slice(s, from, to) == []
    ensures to > |s| ==> Slice(s, from, to) == Slice(s, from, |s|)
  {
  }

  /** Page nought holds nothing, and the pages before it, which clamping rules out, hold rows from the end. */
  lemma PagesBeforeTheFirst<T>(data: seq<T>, size: nat)
    requires 0 < size && 2 * size <= |data|
    ensures Paginate(data, 0, size) == []
    ensures Paginate(data, -1, size) == data[|data| - 2 * size..|data| - size]
  {
  }
}
