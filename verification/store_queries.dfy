/**
 The read side of `RSSDatabase`: `get_items_by_category` and
 `get_all_items` (rows ordered by `pub_date DESC`) and `get_statistics`.
 A storage error is a `fault` parameter: the queries then return an empty
 list and the statistics an empty dictionary (`None` here).
 */
module StoreQueries {
  import opened Text
  import opened Options
  import opened ItemStore

  /** One row as the queries select it: every column except `updated_at`. */
  datatype Row = Row(
    id: nat,
    title: string,
    description: string,
    link: string,
    pubDate: string,
    category: int,
    createdAt: string)

  function AsRow(r: Record): Row {
    Row(r.id, r.title, r.description, r.link, r.pubDate, r.category, r.createdAt)
  }

  /** The selected columns of each record, in order. */
  function Rows(rs: seq<Record>): (r: seq<Row>)
    ensures |r| == |rs|
    ensures forall i :: 0 <= i < |rs| ==> r[i] == AsRow(rs[i])
  {
    seq(|rs|, i requires 0 <= i < |rs| => AsRow(rs[i]))
  }

  // ---------------------------------------------------------------------------
  // ORDER BY pub_date DESC
  // ---------------------------------------------------------------------------

  /**
   Publication dates never increase along `rows`, compared as text in the
   BINARY collation. `pub_date` holds the feed's RFC 822 text, which begins
   with the weekday name, so this order is not the chronological one (see
   `TextOrderIsNotChronological`).
   */
  ghost predicate PubDateDescending(rows: seq<Row>) {
    forall i, j :: 0 <= i < j < |rows| ==> Below(rows[j].pubDate, rows[i].pubDate)
  }

  /** No row of `rows` has a `pub_date` above `d` in text order. */
  ghost predicate PubDatesAtMost(rows: seq<Row>, d: string) {
    forall j :: 0 <= j < |rows| ==> Below(rows[j].pubDate, d)
  }

  /** A row whose `pub_date` is at least every `pub_date` of a descending sequence can go in front. */
  lemma PrependGreatest(x: Row, rows: seq<Row>)
    requires PubDateDescending(rows) && PubDatesAtMost(rows, x.pubDate)
    ensures PubDateDescending([x] + rows)
  {
    var r := [x] + rows;
    forall i, j | 0 <= i < j < |r| ensures Below(r[j].pubDate, r[i].pubDate) {
      assert r[j] == rows[j - 1];
      if i > 0 { assert r[i] == rows[i - 1]; }
    }
  }

  /**
   Text order is not date order: a 2020 date written on a Wednesday sorts
   below a 2024 date written on a Monday, so `ORDER BY pub_date DESC`
   puts the older row first.
   */
  lemma TextOrderIsNotChronological(older: Row, newer: Row)
    requires older.pubDate == "Wed, 01 Jan 2020 12:00:00 GMT"
    requires newer.pubDate == "Mon, 01 Jan 2024 12:00:00 GMT"
    ensures PubDateDescending([older, newer])
    ensures !PubDateDescending([newer, older])
  {
    assert Below(newer.pubDate, older.pubDate);
    assert !Below(older.pubDate, newer.pubDate);
    var swapped := [newer, older];
    assert swapped[0] == newer && swapped[1] == older;
  }

  /** The bound `PubDatesAtMost` depends only on which rows there are. */
  lemma PubDatesAtMostByContents(a: seq<Row>, b: seq<Row>, d: string)
    requires multiset(a) <= multiset(b) && PubDatesAtMost(b, d)
    ensures PubDatesAtMost(a, d)
  {
    forall j | 0 <= j < |a| ensures Below(a[j].pubDate, d) {
      assert a[j] in multiset(b);
      var k :| 0 <= k < |b| && b[k] == a[j];
    }
  }

  /** Inserts `x` into rows in descending `pub_date` order, keeping that order. */
  function InsertByDate(x: Row, rows: seq<Row>): (r: seq<Row>)
    requires PubDateDescending(rows)
    ensures PubDateDescending(r)
    ensures multiset(r) == multiset(rows) + multiset{x}
  {
    if |rows| == 0 then
      [x]
    else if Below(rows[0].pubDate, x.pubDate) then
      assert PubDatesAtMost(rows, x.pubDate) by {
        forall j | 0 <= j < |rows| ensures Below(rows[j].pubDate, x.pubDate) {
          if j > 0 { BelowTransitive(rows[j].pubDate, rows[0].pubDate, x.pubDate); }
        }
      }
      PrependGreatest(x, rows);
      [x] + rows
    else
      var head := rows[0];
      var rest := rows[1..];
      assert rows == [head] + rest;
      BelowTotal(head.pubDate, x.pubDate);
      var tail := InsertByDate(x, rest);
      assert PubDatesAtMost(rest + [x], head.pubDate) by {
        forall j | 0 <= j < |rest + [x]| ensures Below((rest + [x])[j].pubDate, head.pubDate) {
          if j < |rest| { assert (rest + [x])[j] == rows[j + 1]; }
        }
      }
      PubDatesAtMostByContents(tail, rest + [x], head.pubDate);
      PrependGreatest(head, tail);
      [head] + tail
  }

  /** `ORDER BY pub_date DESC`: the same rows in descending text order of `pub_date`. Ties stay in an unspecified order, as in SQL. */
  function SortByDate(rows: seq<Row>): (r: seq<Row>)
    ensures PubDateDescending(r)
    ensures multiset(r) == multiset(rows)
  {
    if |rows| == 0 then []
    else
      assert rows == [rows[0]] + rows[1..];
      InsertByDate(rows[0], SortByDate(rows[1..]))
  }

  // ---------------------------------------------------------------------------
  // get_items_by_category and get_all_items
  // ---------------------------------------------------------------------------

  /**
   `get_items_by_category`: exactly the stored rows of `category`, in
   descending `pub_date` text order; the empty list on a storage error.
   */
  function GetItemsByCategory(s: Store, category: int, fault: bool): (r: seq<Row>)
    ensures fault ==> r == []
    ensures !fault ==> PubDateDescending(r)
    ensures !fault ==> multiset(r) == multiset(Rows(Select(s.records, category)))
    ensures !fault ==> |r| == Count(s.records, category)
  {
    if fault then []
    else
      var r := SortByDate(Rows(Select(s.records, category)));
      assert |r| == |multiset(r)|;
      r
  }

  /** `get_all_items`: every stored row in descending `pub_date` text order; the empty list on a storage error. */
  function GetAllItems(s: Store, fault: bool): (r: seq<Row>)
    ensures fault ==> r == []
    ensures !fault ==> PubDateDescending(r)
    ensures !fault ==> multiset(r) == multiset(Rows(s.records))
    ensures !fault ==> |r| == |s.records|
  {
    if fault then []
    else
      var r := SortByDate(Rows(s.records));
      assert |r| == |multiset(r)|;
      r
  }

  /** A row is returned for `category` exactly when a stored record of that category selects to it. */
  lemma ItemsByCategoryExact(s: Store, category: int, row: Row)
    ensures row in GetItemsByCategory(s, category, false)
      <==> exists x :: x in s.records && x.category == category && AsRow(x) == row
  {
    var sel := Select(s.records, category);
    var r := GetItemsByCategory(s, category, false);
    assert row in r <==> row in multiset(r);
    assert row in Rows(sel) <==> row in multiset(Rows(sel));
    if row in Rows(sel) {
      var i :| 0 <= i < |sel| && Rows(sel)[i] == row;
      assert sel[i] in sel;
    }
    if x :| x in s.records && x.category == category && AsRow(x) == row {
      assert x in sel;
      var i :| 0 <= i < |sel| && sel[i] == x;
      assert Rows(sel)[i] == row;
    }
  }

  // ---------------------------------------------------------------------------
  // get_statistics
  // ---------------------------------------------------------------------------

  /** One `by_category` entry. */
  datatype CategoryCount = CategoryCount(category: int, count: nat)

  /**
   The result of `get_statistics`: the row count, the per-category counts in
   ascending category order (`GROUP BY category ORDER BY category`), and
   `MAX(created_at)`, which is `NULL` for an empty table.
   */
  datatype Statistics = Statistics(totalItems: nat, byCategory: seq<CategoryCount>, lastUpdate: Option<string>)

  /** Strictly ascending, hence duplicate-free. */
  ghost predicate Ascending(cs: seq<int>) {
    forall i, j :: 0 <= i < j < |cs| ==> cs[i] < cs[j]
  }

  /** Inserts `c` into an ascending sequence unless already there. */
  function InsertCategory(c: int, cs: seq<int>): (r: seq<int>)
    requires Ascending(cs)
    ensures Ascending(r)
    ensures forall d :: d in r <==> d in cs || d == c
  {
    if |cs| == 0 then [c]
    else if c < cs[0] then [c] + cs
    else if c == cs[0] then cs
    else
      var tail := InsertCategory(c, cs[1..]);
      assert cs == [cs[0]] + cs[1..];
      var r := [cs[0]] + tail;
      forall i, j | 0 <= i < j < |r| ensures r[i] < r[j] {
        assert r[j] == tail[j - 1];
        assert r[j] in cs[1..] || r[j] == c;
        if r[j] in cs[1..] {
          var k :| 0 <= k < |cs[1..]| && cs[1..][k] == r[j];
          assert cs[k + 1] == r[j];
        }
        if i > 0 { assert r[i] == tail[i - 1]; }
      }
      r
  }

  /** The distinct categories of the stored rows, ascending (`GROUP BY category ORDER BY category`). */
  function Categories(rs: seq<Record>): (r: seq<int>)
    ensures Ascending(r)
    ensures forall c :: c in r <==> exists x :: x in rs && x.category == c
  {
    if |rs| == 0 then []
    else
      var init := rs[..|rs| - 1];
      var x := rs[|rs| - 1];
      assert rs == init + [x];
      InsertCategory(x.category, Categories(init))
  }

  /** The `by_category` entries for the categories `cs`. */
  function CountsFor(rs: seq<Record>, cs: seq<int>): (r: seq<CategoryCount>)
    ensures |r| == |cs|
    ensures forall i :: 0 <= i < |cs| ==> r[i] == CategoryCount(cs[i], Count(rs, cs[i]))
  {
    seq(|cs|, i requires 0 <= i < |cs| => CategoryCount(cs[i], Count(rs, cs[i])))
  }

  /** The sum of the counts. */
  function Total(counts: seq<CategoryCount>): nat {
    if |counts| == 0 then 0 else counts[0].count + Total(counts[1..])
  }

  /** How often `c` occurs in `cs`. */
  function Occurrences(cs: seq<int>, c: int): nat {
    if |cs| == 0 then 0 else (if cs[0] == c then 1 else 0) + Occurrences(cs[1..], c)
  }

  /** A duplicate-free sequence holds each of its elements once. */
  lemma {:induction false} OccursOnce(cs: seq<int>, c: int)
    requires Ascending(cs)
    ensures Occurrences(cs, c) == (if c in cs then 1 else 0)
  {
    if |cs| > 0 {
      OccursOnce(cs[1..], c);
      assert cs == [cs[0]] + cs[1..];
      if cs[0] == c {
        assert c !in cs[1..] by {
          forall k | 0 <= k < |cs[1..]| ensures cs[1..][k] != c {
            assert cs[1..][k] == cs[k + 1];
          }
        }
      }
    }
  }

  /** Appending one row adds one to its category's count, for each time the category is listed. */
  lemma {:induction false} TotalAppend(rs: seq<Record>, x: Record, cs: seq<int>)
    ensures Total(CountsFor(rs + [x], cs)) == Total(CountsFor(rs, cs)) + Occurrences(cs, x.category)
  {
    if |cs| > 0 {
      TotalAppend(rs, x, cs[1..]);
      assert CountsFor(rs + [x], cs)[1..] == CountsFor(rs + [x], cs[1..]);
      assert CountsFor(rs, cs)[1..] == CountsFor(rs, cs[1..]);
      assert (rs + [x])[..|rs|] == rs;
    }
  }

  /** The counts over duplicate-free categories that cover every row add up to the number of rows. */
  lemma {:induction false} CountsAddUp(rs: seq<Record>, cs: seq<int>)
    requires Ascending(cs)
    requires forall x :: x in rs ==> x.category in cs
    ensures Total(CountsFor(rs, cs)) == |rs|
  {
    if |rs| == 0 {
      NoRowsNoCounts(cs);
    } else {
      var init := rs[..|rs| - 1];
      var x := rs[|rs| - 1];
      assert rs == init + [x];
      CountsAddUp(init, cs);
      TotalAppend(init, x, cs);
      OccursOnce(cs, x.category);
    }
  }

  /** An empty table counts zero in every category. */
  lemma {:induction false} NoRowsNoCounts(cs: seq<int>)
    ensures Total(CountsFor([], cs)) == 0
  {
    if |cs| > 0 {
      assert CountsFor([], cs)[1..] == CountsFor([], cs[1..]);
      NoRowsNoCounts(cs[1..]);
    }
  }

  /** `MAX(created_at)`: the latest creation time under text order, `None` for no rows. */
  function LatestCreated(rs: seq<Record>): (r: Option<string>)
    ensures r.None? <==> |rs| == 0
    ensures r.Some? ==> exists x :: x in rs && x.createdAt == r.value
    ensures r.Some? ==> forall x :: x in rs ==> Below(x.createdAt, r.value)
  {
    if |rs| == 0 then None
    else
      var init := rs[..|rs| - 1];
      var x := rs[|rs| - 1];
      assert rs == init + [x];
      match LatestCreated(init)
      case None =>
        BelowReflexive(x.createdAt);
        Some(x.createdAt)
      case Some(m) =>
        if Below(m, x.createdAt) then
          assert forall y :: y in init ==> Below(y.createdAt, x.createdAt) by {
            forall y | y in init ensures Below(y.createdAt, x.createdAt) {
              BelowTransitive(y.createdAt, m, x.createdAt);
            }
          }
          BelowReflexive(x.createdAt);
          Some(x.createdAt)
        else
          BelowTotal(m, x.createdAt);
          Some(m)
  }

  /**
   `get_statistics`: `total_items` is the number of rows; `by_category`
   lists each category present once, in ascending order, with its row
   count, and these counts add up to `total_items`; `last_update` is the
   latest `created_at`, absent for an empty table. A storage error gives
   no statistics.
   */
  function GetStatistics(s: Store, fault: bool): (r: Option<Statistics>)
    ensures r.None? <==> fault
    ensures r.Some? ==> r.value.totalItems == |s.records|
    ensures r.Some? ==>
              forall i, j :: 0 <= i < j < |r.value.byCategory| ==>
                r.value.byCategory[i].category < r.value.byCategory[j].category
    ensures r.Some? ==>
              forall i :: 0 <= i < |r.value.byCategory| ==>
                && r.value.byCategory[i].count == Count(s.records, r.value.byCategory[i].category)
                && r.value.byCategory[i].count > 0
    ensures r.Some? ==>
              forall x :: x in s.records ==>
                exists i :: 0 <= i < |r.value.byCategory| && r.value.byCategory[i].category == x.category
    ensures r.Some? ==> Total(r.value.byCategory) == r.value.totalItems
    ensures r.Some? ==> (r.value.lastUpdate.None? <==> |s.records| == 0)
    ensures r.Some? && r.value.lastUpdate.Some? ==>
              exists x :: x in s.records && x.createdAt == r.value.lastUpdate.value
    ensures r.Some? && r.value.lastUpdate.Some? ==>
              forall x :: x in s.records ==> Below(x.createdAt, r.value.lastUpdate.value)
  {
    if fault then None
    else
      var counts := CountsFor(s.records, Categories(s.records));
      ByCategoryFacts(s.records);
      Some(Statistics(|s.records|, counts, LatestCreated(s.records)))
  }

  /** The `by_category` entries of a table: ascending, non-zero, exact, covering every row, adding up. */
  lemma ByCategoryFacts(rs: seq<Record>)
    ensures var counts := CountsFor(rs, Categories(rs));
      && (forall i, j :: 0 <= i < j < |counts| ==> counts[i].category < counts[j].category)
      && (forall i :: 0 <= i < |counts| ==> counts[i].count == Count(rs, counts[i].category) && counts[i].count > 0)
      && (forall x :: x in rs ==> exists i :: 0 <= i < |counts| && counts[i].category == x.category)
      && Total(counts) == |rs|
  {
    var cs := Categories(rs);
    var counts := CountsFor(rs, cs);
    CountsAddUp(rs, cs);
    forall i | 0 <= i < |counts| ensures counts[i].count > 0 {
      assert cs[i] in cs;
      var x :| x in rs && x.category == cs[i];
      assert x in Select(rs, cs[i]);
    }
    forall x | x in rs ensures exists i :: 0 <= i < |counts| && counts[i].category == x.category {
      var i :| 0 <= i < |cs| && cs[i] == x.category;
      assert counts[i].category == x.category;
    }
  }

  /** The per-category query and the statistics agree on how many rows a category has. */
  lemma QueryMatchesStatistics(s: Store, category: int)
    requires category in Categories(s.records)
    ensures var stats := GetStatistics(s, false).value;
      exists i :: 0 <= i < |stats.byCategory|
        && stats.byCategory[i].category == category
        && stats.byCategory[i].count == |GetItemsByCategory(s, category, false)|
  {
    var cs := Categories(s.records);
    var i :| 0 <= i < |cs| && cs[i] == category;
    assert GetStatistics(s, false).value.byCategory[i].category == category;
  }
}
