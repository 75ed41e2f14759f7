/** Pages of the rows of a query, and pages of the sub-entities of each row. */
module Pages {
  import opened Common

  datatype Pagination = Pagination(path: string, pageNumber: int, pageSize: int)

  /** What the validation of a pagination lets through. */
  predicate Valid(p: Pagination) {
    1 <= p.pageNumber <= 100 && 1 <= p.pageSize <= 100
  }

  function Min(a: int, b: int): int {
    if a <= b then a else b
  }

  // ---------------------------------------------------------------------------------------------
  // Rows
  // ---------------------------------------------------------------------------------------------

  /** A query that is still being described; a limit of 0 is no limit. */
  class Cursor<T> {
    var skipped: nat
    var limited: nat

    constructor ()
      ensures skipped == 0 && limited == 0
    {
      skipped, limited := 0, 0;
    }

    function Result(rows: seq<T>): seq<T>
      reads this
    {
      var rest := rows[Min(skipped, |rows|)..];
      if limited == 0 then rest else rest[..Min(limited, |rest|)]
    }
  }

  function FindPath(paginations: seq<Pagination>, path: string): (r: Option<Pagination>)
    ensures r.None? <==> forall i :: 0 <= i < |paginations| ==> paginations[i].path != path
    ensures r.Some? ==> exists i :: 0 <= i < |paginations| && r.value == paginations[i] && r.value.path == path
                                    && forall j :: 0 <= j < i ==> paginations[j].path != path
  {
    if paginations == [] then None
    else if paginations[0].path == path then Some(paginations[0])
    else
      var rest := paginations[1..];
      assert forall i :: 0 <= i < |rest| ==> paginations[i + 1] == rest[i];
      FindPath(rest, path)
  }

  predicate AllValid(paginations: Option<seq<Pagination>>) {
    paginations.Some? ==> forall i :: 0 <= i < |paginations.value| ==> Valid(paginations.value[i])
  }

  /** A pagination without a path counts before one for all paths; without paginations it is the first
      50 rows.  A missing path is modelled as the empty one. */
  function RootPagination(paginations: Option<seq<Pagination>>): (r: Option<Pagination>)
    ensures AllValid(paginations) && r.Some? ==> Valid(r.value)
  {
    if paginations.None? then Some(Pagination("*", 1, 50))
    else
      var root := FindPath(paginations.value, "");
      if root.Some? then root else FindPath(paginations.value, "*")
  }

  /** The first pagination without a path decides, otherwise the first one for all paths; there may be none. */
  lemma RootPaginationExactly(paginations: seq<Pagination>, i: nat)
    requires i < |paginations| && forall j :: 0 <= j < i ==> paginations[j].path != paginations[i].path
    ensures paginations[i].path == "" ==> RootPagination(Some(paginations)) == Some(paginations[i])
    ensures paginations[i].path == "*" && (forall j :: 0 <= j < |paginations| ==> paginations[j].path != "") ==>
              RootPagination(Some(paginations)) == Some(paginations[i])
    ensures (forall j :: 0 <= j < |paginations| ==> paginations[j].path != "" && paginations[j].path != "*") ==>
              RootPagination(Some(paginations)).None?
  {
  }

  function Window<T>(rows: seq<T>, from: nat, size: nat): (r: seq<T>)
    ensures |r| == if from >= |rows| then 0 else Min(size, |rows| - from)
    ensures forall j :: 0 <= j < |r| ==> r[j] == rows[from + j]
  {
    rows[Min(from, |rows|)..Min(from + size, |rows|)]
  }

  /** The rows numbered from (page - 1) * size up to but not including page * size. */
  function Page<T>(rows: seq<T>, number: nat, size: nat): seq<T>
    requires number >= 1
  {
    PageStart(number, size);
    Window(rows, (number - 1) * size, size)
  }

  lemma PageStart(number: nat, size: nat)
    requires number >= 1
    ensures 0 <= (number - 1) * size && number * size == (number - 1) * size + size
  {
  }

  /** The skip and the limit of the root pagination select its page; without one all rows are read. */
  method PerformPagination<T(!new)>(cursor: Cursor<T>, paginations: Option<seq<Pagination>>)
    requires AllValid(paginations) && cursor.skipped == 0 && cursor.limited == 0
    modifies cursor
    ensures forall rows: seq<T> :: cursor.Result(rows) ==
              var p := RootPagination(paginations);
              if p.Some? then Page(rows, p.value.pageNumber, p.value.pageSize) else rows
    ensures paginations.None? ==>
              forall rows: seq<T> :: cursor.Result(rows) == if |rows| <= 50 then rows else rows[..50]
  {
    var root := RootPagination(paginations);
    if root.Some? {
      var p := root.value;
      PageStart(p.pageNumber, p.pageSize);
      cursor.skipped := (p.pageNumber - 1) * p.pageSize;
      cursor.limited := p.pageSize;
    }
  }

  function FirstPages<T>(rows: seq<T>, size: nat, count: nat): seq<T> {
    if count == 0 then [] else FirstPages(rows, size, count - 1) + Page(rows, count, size)
  }

  lemma {:induction false} FirstPagesArePrefix<T>(rows: seq<T>, size: nat, count: nat)
    ensures 0 <= count * size && FirstPages(rows, size, count) == rows[..Min(count * size, |rows|)]
  {
    if count == 0 {
    } else {
      FirstPagesArePrefix(rows, size, count - 1);
      PageStart(count, size);
      AddPage(rows, (count - 1) * size, size, FirstPages(rows, size, count - 1), Page(rows, count, size));
    }
  }

  lemma AddPage<T>(rows: seq<T>, from: nat, size: nat, before: seq<T>, page: seq<T>)
    requires before == rows[..Min(from, |rows|)] && page == Window(rows, from, size)
    ensures before + page == rows[..Min(from + size, |rows|)]
  {
    JoinPage(rows, from, size);
  }

  lemma JoinPage<T>(rows: seq<T>, from: nat, size: nat)
    ensures rows[..Min(from, |rows|)] + rows[Min(from, |rows|)..Min(from + size, |rows|)] ==
            rows[..Min(from + size, |rows|)]
  {
  }

  /** The number of the last page that is not empty. */
  function PageCount(n: nat, size: nat): nat
    requires size > 0
  {
    (n + size - 1) / size
  }

  lemma EnoughPages(n: nat, size: nat, count: nat)
    requires size > 0
    ensures count >= PageCount(n, size) <==> count * size >= n
  {
    var q := (n + size - 1) / size;
    assert q * size <= n + size - 1 < q * size + size;
    if count >= q {
      Scaled(q, count, size);
    } else {
      Scaled(count + 1, q, size);
      PageStart(count + 1, size);
    }
  }

  lemma Scaled(a: nat, b: nat, size: nat)
    requires a <= b
    ensures a * size <= b * size
  {
  }

  /** The pages together are the rows, in order, exactly when enough pages are read. */
  lemma PagesCoverRows<T>(rows: seq<T>, size: nat, count: nat)
    requires size > 0
    ensures FirstPages(rows, size, count) == rows <==> count >= PageCount(|rows|, size)
  {
    FirstPagesArePrefix(rows, size, count);
    EnoughPages(|rows|, size, count);
  }

  lemma PageNumberOf(i: nat, size: nat, number: nat)
    requires size > 0 && number >= 1
    ensures (number - 1) * size <= i < number * size <==> number == i / size + 1
    ensures (i / size) * size + i % size == i
  {
    var q := i / size;
    assert q * size <= i < q * size + size;
    PageStart(q + 1, size);
    if number - 1 < q {
      Scaled(number, q, size);
    } else if number - 1 > q {
      Scaled(q + 1, number - 1, size);
    }
  }

  /** Row i is on page i / size + 1, at place i % size, and on no other page. */
  lemma RowIsOnOnePage<T>(rows: seq<T>, size: nat, i: nat, number: nat)
    requires size > 0 && i < |rows| && number >= 1
    ensures (number - 1) * size <= i < (number - 1) * size + |Page(rows, number, size)| <==> number == i / size + 1
    ensures number == i / size + 1 ==>
            i % size < |Page(rows, number, size)| && Page(rows, number, size)[i % size] == rows[i]
  {
    PageStart(number, size);
    PageNumberOf(i, size, number);
  }

  /** With at most a hundred pages of at most a hundred rows, rows beyond the ten-thousandth are on no
      page that passes validation. */
  lemma PagesEndAtTenThousand<T>(rows: seq<T>, p: Pagination)
    requires Valid(p)
    ensures (p.pageNumber - 1) * p.pageSize + |Page(rows, p.pageNumber, p.pageSize)| <= 10000
            || |Page(rows, p.pageNumber, p.pageSize)| == 0
  {
    PageStart(p.pageNumber, p.pageSize);
    Scaled(p.pageNumber, 100, p.pageSize);
  }

  /** With pages of a given size, row i is on a page that passes validation if and only if the size is at most a
      hundred and the row is among the first hundred times the size. */
  lemma ValidPagesReachExactly<T>(rows: seq<T>, path: string, size: nat, i: nat)
    requires size > 0 && i < |rows|
    ensures (exists number: nat ::
               && Valid(Pagination(path, number, size))
               && (number - 1) * size <= i < (number - 1) * size + |Page(rows, number, size)|)
            <==> size <= 100 && i < 100 * size
  {
    var n := i / size + 1;
    RowIsOnOnePage(rows, size, i, n);
    PageNumberOf(i, size, n);
    if size <= 100 && i < 100 * size {
      if n > 100 {
        Scaled(100, n - 1, size);
      }
      assert Valid(Pagination(path, n, size));
    }
    forall number: nat | Valid(Pagination(path, number, size))
                         && (number - 1) * size <= i < (number - 1) * size + |Page(rows, number, size)|
      ensures size <= 100 && i < 100 * size
    {
      RowIsOnOnePage(rows, size, i, number);
      PageStart(n, size);
      Scaled(n, 100, size);
    }
  }

  // ---------------------------------------------------------------------------------------------
  // Sub-entities
  // ---------------------------------------------------------------------------------------------

  datatype SubEntity = SubEntity(id: int, count: Option<nat>)

  /** A row; `subEntities` is missing when the property holds no array.  `length` is a property of the
      row itself, which rows do not have unless it is declared. */
  class Row {
    var subEntities: Option<seq<SubEntity>>
    var length: Option<int>
  }

  /** Slicing with bounds beyond the end. */
  function Slice<T>(xs: seq<T>, from: nat, to: nat): seq<T>
    requires from <= to
  {
    xs[Min(from, |xs|)..Min(to, |xs|)]
  }

  /** The guard for the first page asks for the `length` of the row. */
  function SubPage<T>(xs: seq<T>, length: Option<int>, p: Pagination): seq<T>
    requires p.pageNumber >= 1 && p.pageSize >= 0
  {
    PageStart(p.pageNumber, p.pageSize);
    if p.pageNumber != 1 || (length.Some? && length.value > p.pageNumber * p.pageSize)
    then Slice(xs, (p.pageNumber - 1) * p.pageSize, p.pageNumber * p.pageSize)
    else xs
  }

  function Counted(xs: seq<SubEntity>, count: nat): (r: seq<SubEntity>)
    ensures |r| == |xs| && forall i :: 0 <= i < |xs| ==> r[i] == SubEntity(xs[i].id, Some(count))
  {
    seq(|xs|, i requires 0 <= i < |xs| => SubEntity(xs[i].id, Some(count)))
  }

  function Paginated(xs: seq<SubEntity>, length: Option<int>, p: Pagination, countRequested: bool): seq<SubEntity>
    requires p.pageNumber >= 1 && p.pageSize >= 0
  {
    var page := SubPage(xs, length, p);
    if countRequested then Counted(page, |page|) else page
  }

  method PaginateRows(rows: seq<Row>, p: Pagination, countRequested: bool)
    requires Valid(p) && forall i, j :: 0 <= i < j < |rows| ==> rows[i] != rows[j]
    modifies rows
    ensures forall i :: 0 <= i < |rows| ==>
              && rows[i].length == old(rows[i].length)
              && rows[i].subEntities == if old(rows[i].subEntities).None? then None
                                        else Some(Paginated(old(rows[i].subEntities).value, old(rows[i].length), p,
                                                            countRequested))
  {
    for k := 0 to |rows|
      invariant forall i :: 0 <= i < |rows| ==> rows[i].length == old(rows[i].length)
      invariant forall i :: 0 <= i < k ==>
                  rows[i].subEntities == if old(rows[i].subEntities).None? then None
                                         else Some(Paginated(old(rows[i].subEntities).value, old(rows[i].length), p,
                                                             countRequested))
      invariant forall i :: k <= i < |rows| ==> rows[i].subEntities == old(rows[i].subEntities)
    {
      var row := rows[k];
      if row.subEntities.Some? {
        PageStart(p.pageNumber, p.pageSize);
        if p.pageNumber != 1 || (row.length.Some? && row.length.value > p.pageNumber * p.pageSize) {
          row.subEntities := Some(Slice(row.subEntities.value, (p.pageNumber - 1) * p.pageSize,
                                        p.pageNumber * p.pageSize));
        }
        if countRequested {
          row.subEntities := Some(Counted(row.subEntities.value, |row.subEntities.value|));
        }
      }
    }
  }

  /** Pages after the first are the same as for rows; the first page of a row without `length` is the
      same exactly when there is no second. */
  lemma SubPageIsPage<T>(xs: seq<T>, p: Pagination)
    requires Valid(p)
    ensures SubPage(xs, None, p) == Page(xs, p.pageNumber, p.pageSize) <==> p.pageNumber != 1 || |xs| <= p.pageSize
  {
    PageStart(p.pageNumber, p.pageSize);
  }

  function FirstSubPages<T>(xs: seq<T>, size: nat, count: nat): seq<T> {
    if count == 0 then [] else FirstSubPages(xs, size, count - 1) + SubPage(xs, None, Pagination("", count, size))
  }

  /** The pages of sub-entities together are all sub-entities and once more those after the first page. */
  lemma {:induction false} LaterSubEntitiesComeTwice<T>(xs: seq<T>, size: nat, count: nat)
    requires size > 0 && count >= 1
    ensures FirstSubPages(xs, size, count) == xs + Slice(xs, size, if count * size >= size then count * size else size)
    decreases count
  {
    Scaled(1, count, size);
    PageStart(count, size);
    if count == 1 {
      assert FirstSubPages(xs, size, 0) == [];
    } else {
      LaterSubEntitiesComeTwice(xs, size, count - 1);
      Scaled(1, count - 1, size);
      JoinSlices(xs, size, (count - 1) * size, count * size);
    }
  }

  lemma JoinSlices<T>(xs: seq<T>, a: nat, b: nat, c: nat)
    requires a <= b <= c
    ensures (xs + Slice(xs, a, b)) + Slice(xs, b, c) == xs + Slice(xs, a, c)
  {
  }

  /** So they partition the sub-entities if and only if the first page holds all of them. */
  lemma SubPagesCoverOnlyShortLists<T>(xs: seq<T>, size: nat, count: nat)
    requires size > 0 && count >= PageCount(|xs|, size) && count >= 1
    ensures FirstSubPages(xs, size, count) == xs <==> |xs| <= size
  {
    LaterSubEntitiesComeTwice(xs, size, count);
    EnoughPages(|xs|, size, count);
    Scaled(1, count, size);
    if |xs| > size {
      assert |FirstSubPages(xs, size, count)| > |xs|;
    }
  }

  /** The requested count is the number of sub-entities on the page; that is the number of all
      sub-entities if and only if it is the first page. */
  lemma CountIsOfThePage(xs: seq<SubEntity>, p: Pagination, i: nat)
    requires Valid(p) && i < |Paginated(xs, None, p, true)|
    ensures var c := Paginated(xs, None, p, true)[i].count;
            c == Some(|SubPage(xs, None, p)|) && (c == Some(|xs|) <==> p.pageNumber == 1)
  {
    PageStart(p.pageNumber, p.pageSize);
    if p.pageNumber > 1 {
      Scaled(1, p.pageNumber - 1, p.pageSize);
    }
  }
}
