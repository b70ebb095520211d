/**
 storage/common.go: Sort.BindQuery, the page arithmetic and the ORDER text of a list query.
 Integers are 64 bits wide and wrap around, as the program's do.
 */
module Paging {
  import opened Text
  import opened SnakeCase
  import opened SortField

  const TWO_TO_63 := 0x8000_0000_0000_0000
  const TWO_TO_64 := 0x1_0000_0000_0000_0000
  const DEFAULT_OFFSET: Int64 := 20

  type Int64 = x: int | -TWO_TO_63 <= x < TWO_TO_63

  function Wrap64(x: int): Int64 {
    (x + TWO_TO_63) % TWO_TO_64 - TWO_TO_63
  }

  lemma WrapCongruent(x: int)
    ensures (Wrap64(x) - x) % 0x1_0000_0000_0000_0000 == 0
  {
    var k := (x + TWO_TO_63) / TWO_TO_64;
    assert Wrap64(x) - x == -k * TWO_TO_64;
  }

  /** The clauses gathered on a database handle. */
  datatype Query = Query(limit: Option<Int64>, offset: Option<Int64>, orders: seq<string>)

  function Offset(page: Int64, size: Int64): Int64
    requires page >= 1
  {
    Wrap64((page - 1) * size)
  }

  class Sort {
    var Order: string
    var Page: Int64
    var Size: Int64

    constructor (order: string, page: Int64, size: Int64)
      ensures Order == order && Page == page && Size == size
    {
      Order, Page, Size := order, page, size;
    }

    method BindQuery(db: Query, lower: char -> char) returns (q: Query)
      modifies this`Page, this`Size
      ensures Page == if old(Page) >= 1 then old(Page) else 1
      ensures Size == if old(Size) >= 1 then old(Size) else 20
      ensures q.limit == Some(Size) && q.offset == Some(Offset(Page, Size))
      ensures (q.offset.value - (Page - 1) * Size) % 0x1_0000_0000_0000_0000 == 0
      ensures q.orders == db.orders + if TrimSpace(Order) == "" then [] else [SnakeFields(lower, TrimSpace(Order))]
    {
      hide Snake, Split, TrimSpace;
      if Page <= 0 {
        Page := 1;
      }
      if Size <= 0 {
        Size := DEFAULT_OFFSET;
      }
      var offset := Wrap64((Page - 1) * Size);
      WrapCongruent((Page - 1) * Size);
      q := db.(limit := Some(Size), offset := Some(offset));
      var order := TrimSpace(Order);
      if |order| > 0 {
        var pieces := Split(order, ",");
        var orders := new string[|pieces|](i requires 0 <= i < |pieces| => pieces[i]);
        for i := 0 to orders.Length
          modifies orders
          invariant forall j :: 0 <= j < i ==> orders[j] == Snake(lower, pieces[j])
          invariant forall j :: i <= j < orders.Length ==> orders[j] == pieces[j]
        {
          var column := ToSnakeCase(lower, orders[i]);
          orders[i] := column;
        }
        assert orders[..] == SnakeEach(lower, pieces);
        q := q.(orders := q.orders + [Join(orders[..], ",")]);
      }
    }

    /** Binding the normalised request again asks for the same window in the same order. */
    method BindAgain(db: Query, lower: char -> char) returns (first: Query, second: Query)
      modifies this`Page, this`Size
      ensures first == second
    {
      first := BindQuery(db, lower);
      second := BindQuery(db, lower);
    }

    /** A list request: the order is validated, and bound only when it is valid. */
    method ValidateAndBind(fields: Option<map<string, bool>>, db: Query, lower: char -> char)
      returns (err: Option<SortError>, q: Query)
      requires CaseMap(lower)
      modifies this`Page, this`Size
      ensures err.None? <==> Grammar(fields, TrimSpace(Order))
      ensures err.Some? ==> q == db && Page == old(Page) && Size == old(Size)
      ensures err.None? && TrimSpace(Order) != "" ==>
                && q.orders == db.orders + [Join(ColumnEach(lower, ParseKeys(Order)), ",")]
                && PrintKeys(ParseKeys(Order)) == TrimSpace(Order)
                && forall k :: k in ParseKeys(Order) ==> k.name in fields.value && fields.value[k.name]
    {
      hide Split, TrimSpace, SnakeFields, CaseMap, PrintKeys, ColumnEach, ParseKeys;
      err := ValidateSortField(fields, Order);
      if err.Some? {
        return err, db;
      }
      if TrimSpace(Order) != "" {
        AcceptedOrderText(lower, fields.value, Order);
        AcceptedOrderParses(fields.value, Order);
      }
      q := BindQuery(db, lower);
    }
  }

  // ---------- windows ----------

  function Min(a: int, b: int): int {
    if a <= b then a else b
  }

  /** The rows a query returns; a clause that is absent or not positive does not cut. */
  function Fetch<T>(q: Query, rows: seq<T>): seq<T> {
    var lo := if q.offset.Some? && q.offset.value > 0 then Min(q.offset.value, |rows|) else 0;
    var hi := if q.limit.Some? && q.limit.value >= 0 then Min(lo + q.limit.value, |rows|) else |rows|;
    rows[lo..hi]
  }

  function Window<T>(rows: seq<T>, page: Int64, size: Int64): seq<T>
    requires page >= 1 && size >= 1
  {
    Fetch(Query(Some(size), Some(Offset(page, size)), []), rows)
  }

  function PageCount(n: nat, size: Int64): nat
    requires size >= 1
  {
    (n + size - 1) / size
  }

  function Pages<T>(rows: seq<T>, size: Int64, k: nat): seq<T>
    requires size >= 1 && k < TWO_TO_63
  {
    if k == 0 then [] else Pages(rows, size, k - 1) + Window(rows, k, size)
  }

  lemma ProductMonotone(a: int, b: int, size: int)
    requires a <= b && size >= 0
    ensures a * size <= b * size
  {
  }

  /** The offset is the intended product exactly when the product fits the integer type. */
  lemma OffsetExact(page: Int64, size: Int64)
    requires page >= 1 && size >= 1
    ensures Offset(page, size) == (page - 1) * size <==> (page - 1) * size < TWO_TO_63
  {
    ProductMonotone(0, page - 1, size);
  }

  lemma WindowIsSlice<T>(rows: seq<T>, page: Int64, size: Int64, lo: int)
    requires page >= 1 && size >= 1 && lo == (page - 1) * size < TWO_TO_63
    ensures lo >= 0
    ensures Window(rows, page, size) == rows[Min(lo, |rows|)..Min(lo + size, |rows|)]
  {
    OffsetExact(page, size);
    ProductMonotone(0, page - 1, size);
    hide Offset;
  }

  lemma PageCountBounds(n: nat, size: Int64) returns (c: nat, end: int)
    requires size >= 1
    ensures c == PageCount(n, size) && end == c * size
    ensures end - size < n <= end
    ensures n == 0 ==> c == 0
    ensures n > 0 ==> 1 <= c <= n
  {
    c := PageCount(n, size);
    end := c * size;
    assert n + size - 1 == c * size + (n + size - 1) % size;
    if n > 0 {
      if c < 1 {
        ProductMonotone(c, 0, size);
      }
      ProductMonotone(1, size, c - 1);
      assert (c - 1) * size == end - size;
    }
  }

  lemma {:induction false} PagesArePrefix<T>(rows: seq<T>, size: Int64, k: nat, end: int)
    requires size >= 1 && |rows| < TWO_TO_63 && k <= PageCount(|rows|, size) && k < TWO_TO_63
    requires end == k * size
    ensures end >= 0
    ensures Pages(rows, size, k) == rows[..Min(end, |rows|)]
  {
    hide PageCount, Window;
    ProductMonotone(0, k, size);
    if k > 0 {
      var c, last := PageCountBounds(|rows|, size);
      ProductMonotone(k, c, size);
      assert (k - 1) * size == end - size;
      PagesArePrefix(rows, size, k - 1, end - size);
      WindowIsSlice(rows, k, size, end - size);
    }
  }

  /** Pages 1 to ceil(n/size), one after the other, are the whole list. */
  lemma PagesPartition<T>(rows: seq<T>, size: Int64)
    requires size >= 1 && |rows| < TWO_TO_63
    ensures PageCount(|rows|, size) < TWO_TO_63
    ensures Pages(rows, size, PageCount(|rows|, size)) == rows
  {
    hide PageCount, Pages;
    var c, end := PageCountBounds(|rows|, size);
    PagesArePrefix(rows, size, c, end);
  }

  /**
   Requests for pages 1, 2, ... of one size, bound and fetched one after the other, as many as it
   takes to reach past the last row, give the whole list.
   */
  method FetchEveryPage<T>(rows: seq<T>, order: string, size: Int64, lower: char -> char)
    returns (all: seq<T>, pages: nat)
    requires |rows| < TWO_TO_63
    ensures all == rows
    ensures var n := if size >= 1 then size else 20; (pages - 1) * n < |rows| <= pages * n
  {
    hide PageCount, Wrap64, Fetch, SnakeFields, TrimSpace;
    var n: Int64 := if size >= 1 then size else 20;
    pages := PageCount(|rows|, n);
    ghost var _, _ := PageCountBounds(|rows|, n);
    PagesPartition(rows, n);
    all := [];
    for k := 0 to pages
      invariant all == Pages(rows, n, k)
    {
      var s := new Sort(order, k + 1, size);
      var q := s.BindQuery(Query(None, None, []), lower);
      FetchIgnoresOrder(q, rows);
      all := all + Fetch(q, rows);
    }
  }

  lemma FetchIgnoresOrder<T>(q: Query, rows: seq<T>)
    ensures Fetch(q, rows) == Fetch(q.(orders := []), rows)
  {
  }

  function Indices(n: nat): (r: seq<nat>)
    ensures |r| == n
  {
    seq(n, i => i)
  }

  /** Row r is on page r/size + 1 and on no other whose offset fits the integer type. */
  lemma RowOnOnePage(n: nat, r: nat, page: Int64, size: Int64)
    requires r < n && page >= 1 && size >= 1 && (page - 1) * size < TWO_TO_63
    ensures r in Window(Indices(n), page, size) <==> page == r / size + 1
  {
    hide Window, Wrap64;
    var lo := (page - 1) * size;
    WindowIsSlice(Indices(n), page, size, lo);
    SliceOfIndices(n, Min(lo, n), Min(lo + size, n), r);
    DivisionUnique(r, page - 1, size, lo);
  }

  lemma SliceOfIndices(n: nat, lo: nat, hi: nat, r: nat)
    requires lo <= hi <= n
    ensures r in Indices(n)[lo..hi] <==> lo <= r < hi
  {
    var w := Indices(n)[lo..hi];
    assert forall i :: 0 <= i < |w| ==> w[i] == lo + i;
    assert lo <= r < hi ==> w[r - lo] == r;
  }

  lemma DivisionUnique(r: nat, q: nat, size: int, lo: int)
    requires size >= 1 && lo == q * size
    ensures lo <= r < lo + size <==> q == r / size
  {
    var d := r / size;
    var base := d * size;
    assert base <= r < base + size;
    if q < d {
      ProductMonotone(q + 1, d, size);
      assert (q + 1) * size == lo + size;
    } else if q > d {
      ProductMonotone(d + 1, q, size);
      assert (d + 1) * size == base + size;
    }
  }

  /** A page beyond the last one is empty when its offset fits the integer type. */
  lemma LaterPageEmpty<T>(rows: seq<T>, page: Int64, size: Int64)
    requires page >= 1 && size >= 1 && page > PageCount(|rows|, size) && (page - 1) * size < TWO_TO_63
    ensures Window(rows, page, size) == []
  {
    hide PageCount, Window;
    var c, end := PageCountBounds(|rows|, size);
    ProductMonotone(c, page - 1, size);
    WindowIsSlice(rows, page, size, (page - 1) * size);
  }

  /** Without that bound it need not be: this page wraps round to offset 0 and shows the first rows again. */
  lemma WrappedPageShowsFirst<T>(rows: seq<T>)
    ensures Window(rows, 0x4000_0000_0000_0001, 4) == Window(rows, 1, 4)
  {
  }

  /** What is left of a product x that need not fit: its residue w, or w less 2^64 when w has the top bit set. */
  lemma WrapByResidue(x: int, w: int)
    requires w == x % TWO_TO_64
    ensures Wrap64(x) == if w < TWO_TO_63 then w else w - TWO_TO_64
  {
    var k := x / TWO_TO_64;
    assert x == k * TWO_TO_64 + w;
    if w < TWO_TO_63 {
      assert (x + TWO_TO_63) / TWO_TO_64 == k;
    } else {
      assert (x + TWO_TO_63) / TWO_TO_64 == k + 1;
    }
  }

  /** For every page and size: the window is empty exactly when the product, modulo 2^64, is past the rows and not negative. */
  lemma WindowEmptyIff<T>(rows: seq<T>, page: Int64, size: Int64, w: int)
    requires page >= 1 && size >= 1 && w == (page - 1) * size % TWO_TO_64
    ensures Window(rows, page, size) == [] <==> |rows| == 0 || |rows| <= w < TWO_TO_63
  {
    WrapByResidue((page - 1) * size, w);
    hide Wrap64;
  }

  /** For every page and size: which rows the window shows. */
  lemma RowOnPageIff(n: nat, r: nat, page: Int64, size: Int64, w: int)
    requires r < n && page >= 1 && size >= 1 && w == (page - 1) * size % TWO_TO_64
    ensures r in Window(Indices(n), page, size) <==> if w < TWO_TO_63 then w <= r < w + size else r < size
  {
    WrapByResidue((page - 1) * size, w);
    hide Wrap64, Indices;
    var lo := if w < TWO_TO_63 then Min(w, n) else 0;
    SliceOfIndices(n, lo, Min(lo + size, n), r);
  }
}
