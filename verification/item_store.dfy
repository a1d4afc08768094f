/**
 The `rss_items` table of `RSSDatabase`, stated abstractly: the rows in
 rowid order and the AUTOINCREMENT counter, with the mutating operations
 `add_item`, `clear_category` and `clear_all`. SQLite itself (connections,
 commits, indexes) is outside the model; a storage error is a `fault`
 parameter, and since every statement runs in a transaction that is rolled
 back on error, a fault leaves the table as it was.
 */
module ItemStore {

  /** One row of `rss_items`. `createdAt` and `updatedAt` are the store's own timestamps. */
  datatype Record = Record(
    id: nat,
    title: string,
    description: string,
    link: string,
    pubDate: string,
    category: int,
    createdAt: string,
    updatedAt: string)

  /**
   The table: its rows in rowid order, and `lastId`, AUTOINCREMENT's counter
   (SQLite's `sqlite_sequence` entry). It is at least every id ever handed
   out and never decreases; a new row gets an id above it.
   */
  datatype Store = Store(records: seq<Record>, lastId: nat)

  /** The data `add_item` is given for one feed item. */
  datatype Item = Item(title: string, description: string, link: string, pubDate: string, category: int)

  /** The item a stored record was made from. */
  function ItemOf(r: Record): Item {
    Item(r.title, r.description, r.link, r.pubDate, r.category)
  }

  /**
   The two schema invariants of the rows: ids increase along the table
   (`id INTEGER PRIMARY KEY AUTOINCREMENT`) and no two rows share a link
   (`link TEXT UNIQUE`).
   */
  ghost predicate OrderedUnique(rs: seq<Record>) {
    forall i, j :: 0 <= i < j < |rs| ==> rs[i].id < rs[j].id && rs[i].link != rs[j].link
  }

  /** The table invariant: ordered, unique links, every id handed out by the counter. */
  ghost predicate Valid(s: Store) {
    OrderedUnique(s.records) && forall i :: 0 <= i < |s.records| ==> 1 <= s.records[i].id <= s.lastId
  }

  /** A freshly created table (`init_database` on a new file). */
  function Empty(): (s: Store)
    ensures Valid(s) && |s.records| == 0
  {
    Store([], 0)
  }

  /** The links stored. */
  function Links(s: Store): set<string> {
    set r | r in s.records :: r.link
  }

  /** Some stored row has this link. */
  predicate HasLink(s: Store, link: string): (b: bool)
    ensures b <==> link in Links(s)
  {
    exists r :: r in s.records && r.link == link
  }

  // ---------------------------------------------------------------------------
  // add_item
  // ---------------------------------------------------------------------------

  /** The store after an operation, and the value the operation returns. */
  datatype Outcome = Outcome(store: Store, ok: bool)

  /**
   `add_item`: `INSERT OR IGNORE` of a row for `item`, stamped with `now`
   (`CURRENT_TIMESTAMP`). A new link adds exactly one row, with an id above
   the AUTOINCREMENT counter, and returns true. A stored link is ignored
   (`rowcount` 0) and returns false with the rows unchanged; SQLite draws
   the rowid before the UNIQUE check, so the ignored statement may still
   advance the counter (modelled here as reserving one id). A storage error
   returns false and leaves the table as it was.
   */
  function AddItem(s: Store, item: Item, now: string, fault: bool): (r: Outcome)
    ensures r.ok <==> !fault && item.link !in Links(s)
    ensures fault ==> r.store == s
    ensures !r.ok ==> r.store.records == s.records
    ensures r.ok ==> && |r.store.records| == |s.records| + 1
                     && r.store.records[..|s.records|] == s.records
                     && ItemOf(r.store.records[|s.records|]) == item
                     && r.store.records[|s.records|].createdAt == now
                     && r.store.records[|s.records|].id > s.lastId
                     && r.store.lastId == r.store.records[|s.records|].id
    ensures r.store.lastId >= s.lastId
    ensures Valid(s) ==> Valid(r.store)
  {
    if fault then
      Outcome(s, false)
    else if HasLink(s, item.link) then
      Outcome(Store(s.records, s.lastId + 1), false)
    else
      var id := s.lastId + 1;
      var row := Record(id, item.title, item.description, item.link, item.pubDate, item.category, now, now);
      var records := s.records + [row];
      assert records[..|s.records|] == s.records;
      assert forall i :: 0 <= i < |s.records| ==> s.records[i].link != item.link by {
        forall i | 0 <= i < |s.records| ensures s.records[i].link != item.link {
          assert s.records[i] in s.records;
        }
      }
      Outcome(Store(records, id), true)
  }

  /** How many stored rows carry `link`. */
  function LinkCount(rs: seq<Record>, link: string): nat {
    if |rs| == 0 then 0
    else LinkCount(rs[..|rs| - 1], link) + (if rs[|rs| - 1].link == link then 1 else 0)
  }

  /** A link is counted exactly when some row carries it. */
  lemma {:induction false} LinkCountPresence(rs: seq<Record>, link: string)
    ensures LinkCount(rs, link) > 0 <==> exists r :: r in rs && r.link == link
  {
    if |rs| > 0 {
      var init := rs[..|rs| - 1];
      var x := rs[|rs| - 1];
      assert rs == init + [x];
      LinkCountPresence(init, link);
      if r :| r in init && r.link == link { assert r in rs; }
      if r :| r in rs && r.link == link { assert r == x || r in init; }
    }
  }

  /** In a valid table a link is stored at most once. */
  lemma {:induction false} LinkCountAtMostOne(rs: seq<Record>, link: string)
    requires OrderedUnique(rs)
    ensures LinkCount(rs, link) <= 1
    ensures LinkCount(rs, link) == 1 <==> exists r :: r in rs && r.link == link
  {
    LinkCountPresence(rs, link);
    if |rs| > 0 {
      var init := rs[..|rs| - 1];
      var x := rs[|rs| - 1];
      assert rs == init + [x];
      OrderedUniqueInit(init, x);
      LinkCountAtMostOne(init, link);
      if x.link == link {
        forall r | r in init ensures r.link != link {
          var i :| 0 <= i < |init| && init[i] == r;
          assert rs[i] == r && rs[|init|] == x;
        }
        LinkCountPresence(init, link);
      }
    }
  }

  /**
   Insertion is idempotent: adding an item with the same link again, with
   any other fields and at any time, returns false and leaves the rows as
   they were, and the link is stored exactly once.
   */
  lemma AddItemIdempotent(s: Store, item: Item, now: string, again: Item, later: string)
    requires Valid(s)
    requires again.link == item.link
    ensures var first := AddItem(s, item, now, false);
      var second := AddItem(first.store, again, later, false);
      && !second.ok
      && second.store.records == first.store.records
      && LinkCount(second.store.records, item.link) == 1
  {
    var first := AddItem(s, item, now, false);
    if first.ok {
      var n := |s.records|;
      assert first.store.records[n] in first.store.records;
    }
    assert item.link in Links(first.store);
    var r :| r in first.store.records && r.link == item.link;
    LinkCountAtMostOne(first.store.records, item.link);
  }

  // ---------------------------------------------------------------------------
  // Batches of items
  // ---------------------------------------------------------------------------

  /** The links of a batch of items. */
  function ItemLinks(items: seq<Item>): set<string> {
    set x | x in items :: x.link
  }

  /** `add_item` called for each item of a batch in turn, without storage errors. */
  function AddAll(s: Store, items: seq<Item>, now: string): (r: Store)
    ensures Valid(s) ==> Valid(r)
    ensures Links(r) == Links(s) + ItemLinks(items)
    decreases |items|
  {
    if |items| == 0 then
      s
    else
      var next := AddItem(s, items[0], now, false).store;
      AddedLinks(s, items[0], now);
      ItemLinksCons(items);
      AddAll(next, items[1..], now)
  }

  /** A successful insertion adds exactly the item's link. */
  lemma AddedLinks(s: Store, item: Item, now: string)
    ensures Links(AddItem(s, item, now, false).store) == Links(s) + {item.link}
  {
    var r := AddItem(s, item, now, false);
    if r.ok {
      var rs := r.store.records;
      var n := |s.records|;
      assert rs == s.records + [rs[n]];
      assert rs[n].link == item.link;
    }
  }

  /**
   A batch that repeats links, or repeats stored links, grows the table by
   the number of its distinct links that were not stored before, not by the
   number of its items.
   */
  lemma {:induction false} AddAllCount(s: Store, items: seq<Item>, now: string)
    ensures |AddAll(s, items, now).records| == |s.records| + |ItemLinks(items) - Links(s)|
    decreases |items|
  {
    if |items| > 0 {
      var x := items[0];
      var rest := items[1..];
      var next := AddItem(s, x, now, false).store;
      AddOneCount(s, x, now);
      AddAllCount(next, rest, now);
      ItemLinksCons(items);
      NewLinksStep(Links(s), ItemLinks(rest), x.link);
      calc {
        |AddAll(s, items, now).records|;
        |AddAll(next, rest, now).records|;
        |next.records| + |ItemLinks(rest) - Links(next)|;
        |s.records| + (if x.link in Links(s) then 0 else 1) + |ItemLinks(rest) - (Links(s) + {x.link})|;
        |s.records| + |({x.link} + ItemLinks(rest)) - Links(s)|;
        |s.records| + |ItemLinks(items) - Links(s)|;
      }
    }
  }

  /** The links of a batch are the first item's link and the links of the rest. */
  lemma ItemLinksCons(items: seq<Item>)
    requires |items| > 0
    ensures ItemLinks(items) == {items[0].link} + ItemLinks(items[1..])
  {
    assert items == [items[0]] + items[1..];
  }

  /** One insertion without a fault grows the table by one exactly when the link is new. */
  lemma AddOneCount(s: Store, item: Item, now: string)
    ensures var next := AddItem(s, item, now, false).store;
      && |next.records| == |s.records| + (if item.link in Links(s) then 0 else 1)
      && Links(next) == Links(s) + {item.link}
  {
    AddedLinks(s, item, now);
  }

  /** Counting the new links of a batch one item at a time. */
  lemma NewLinksStep(stored: set<string>, rest: set<string>, link: string)
    ensures |({link} + rest) - stored|
      == |rest - (stored + {link})| + (if link in stored then 0 else 1)
  {
    var later := rest - (stored + {link});
    if link in stored {
      assert ({link} + rest) - stored == later;
    } else {
      assert ({link} + rest) - stored == later + {link};
    }
  }

  // ---------------------------------------------------------------------------
  // clear_category and clear_all
  // ---------------------------------------------------------------------------

  /**
   The rows whose category is `category` (`keep` true) or whose category is
   anything else (`keep` false), in their stored order.
   */
  function Filter(rs: seq<Record>, category: int, keep: bool): (r: seq<Record>)
    ensures |r| <= |rs|
    ensures forall x :: x in r <==> x in rs && (x.category == category) == keep
    ensures OrderedUnique(rs) ==> OrderedUnique(r)
  {
    if |rs| == 0 then
      []
    else
      var init := rs[..|rs| - 1];
      var x := rs[|rs| - 1];
      assert rs == init + [x];
      OrderedUniqueInit(init, x);
      var r := Filter(init, category, keep);
      if (x.category == category) == keep then
        OrderedUniqueSubSnoc(init, x, r);
        r + [x]
      else
        r
  }

  /** Dropping the last row keeps ids ascending and links unique. */
  lemma OrderedUniqueInit(init: seq<Record>, x: Record)
    ensures OrderedUnique(init + [x]) ==> OrderedUnique(init)
  {
    if OrderedUnique(init + [x]) {
      forall i, j | 0 <= i < j < |init| ensures init[i].id < init[j].id && init[i].link != init[j].link {
        assert (init + [x])[i] == init[i] && (init + [x])[j] == init[j];
      }
    }
  }

  /** Rows drawn from `init` stay ascending and unique when the final row of `init + [x]` is appended. */
  lemma OrderedUniqueSubSnoc(init: seq<Record>, x: Record, r: seq<Record>)
    requires forall y :: y in r ==> y in init
    ensures OrderedUnique(init + [x]) && OrderedUnique(r) ==> OrderedUnique(r + [x])
  {
    if OrderedUnique(init + [x]) && OrderedUnique(r) {
      var rs := init + [x];
      forall i | 0 <= i < |r| ensures r[i].id < x.id && r[i].link != x.link {
        assert r[i] in init;
        var k :| 0 <= k < |init| && init[k] == r[i];
        assert rs[k] == r[i] && rs[|init|] == x;
      }
    }
  }

  /** The stored rows of one category. */
  function Select(rs: seq<Record>, category: int): seq<Record> {
    Filter(rs, category, true)
  }

  /** How many stored rows have this category. */
  function Count(rs: seq<Record>, category: int): nat {
    |Select(rs, category)|
  }

  /** Every row is either in its category's selection or among the others. */
  lemma {:induction false} FilterSplit(rs: seq<Record>, category: int)
    ensures |Filter(rs, category, true)| + |Filter(rs, category, false)| == |rs|
  {
    if |rs| > 0 {
      FilterSplit(rs[..|rs| - 1], category);
    }
  }

  /**
   `clear_category`: `DELETE ... WHERE category = ?`. Exactly the rows of
   that category go, every other row stays in its order, and the
   AUTOINCREMENT counter is kept. Returns true unless a storage error left
   the table unchanged.
   */
  function ClearCategory(s: Store, category: int, fault: bool): (r: Outcome)
    ensures r.ok <==> !fault
    ensures !r.ok ==> r.store == s
    ensures r.ok ==> forall x :: x in r.store.records <==> x in s.records && x.category != category
    ensures r.ok ==> |r.store.records| == |s.records| - Count(s.records, category)
    ensures r.store.lastId == s.lastId
    ensures Valid(s) ==> Valid(r.store)
  {
    if fault then
      Outcome(s, false)
    else
      var rest := Filter(s.records, category, false);
      FilterSplit(s.records, category);
      assert forall i :: 0 <= i < |rest| ==> rest[i] in s.records;
      Outcome(Store(rest, s.lastId), true)
  }

  /**
   `clear_all`: `DELETE FROM rss_items`. The table is left empty, but
   AUTOINCREMENT's counter is not reset, so ids are never reused.
   */
  function ClearAll(s: Store, fault: bool): (r: Outcome)
    ensures r.ok <==> !fault
    ensures r.ok ==> |r.store.records| == 0
    ensures !r.ok ==> r.store == s
    ensures r.store.lastId == s.lastId
    ensures Valid(s) ==> Valid(r.store)
  {
    if fault then Outcome(s, false) else Outcome(Store([], s.lastId), true)
  }

  /** After `clear_all` the next row still gets an id above every id handed out before. */
  lemma IdsNotReusedAfterClearAll(s: Store, item: Item, now: string)
    requires Valid(s)
    ensures var r := AddItem(ClearAll(s, false).store, item, now, false);
      && r.ok
      && r.store.records[0].id == s.lastId + 1
      && forall x :: x in s.records ==> x.id < r.store.records[0].id
  {
  }

  // ---------------------------------------------------------------------------
  // Histories: AUTOINCREMENT
  // ---------------------------------------------------------------------------

  /** One mutating call on the table. */
  datatype Op =
    | Add(item: Item, now: string, fault: bool)
    | DropCategory(category: int, fault: bool)
    | DropAll(fault: bool)

  /** The table after one call, and the id of the row it inserted, if any. */
  function Apply(s: Store, op: Op): (Store, seq<nat>) {
    match op
    case Add(item, now, fault) =>
      var r := AddItem(s, item, now, fault);
      if r.ok then (r.store, [r.store.lastId]) else (r.store, [])
    case DropCategory(category, fault) => (ClearCategory(s, category, fault).store, [])
    case DropAll(fault) => (ClearAll(s, fault).store, [])
  }

  /** The table after a history of calls, and the ids handed out along the way, in order. */
  function Run(s: Store, ops: seq<Op>): (Store, seq<nat>)
    decreases |ops|
  {
    if |ops| == 0 then (s, [])
    else
      var (next, ids) := Apply(s, ops[0]);
      var (last, more) := Run(next, ops[1..]);
      (last, ids + more)
  }

  /**
   AUTOINCREMENT across any history of inserts and deletions: every id
   handed out is above every id handed out before it, including the ids of
   rows deleted since, and above every id of the starting table.
   */
  lemma {:induction false} IdsStrictlyIncrease(s: Store, ops: seq<Op>)
    requires Valid(s)
    ensures var (last, ids) := Run(s, ops);
      && Valid(last)
      && last.lastId >= s.lastId
      && (forall i :: 0 <= i < |ids| ==> s.lastId < ids[i] <= last.lastId)
      && (forall i, j :: 0 <= i < j < |ids| ==> ids[i] < ids[j])
    decreases |ops|
  {
    if |ops| > 0 {
      var (next, first) := Apply(s, ops[0]);
      assert Valid(next) && next.lastId >= s.lastId;
      assert forall i :: 0 <= i < |first| ==> s.lastId < first[i] == next.lastId;
      IdsStrictlyIncrease(next, ops[1..]);
      var (last, more) := Run(next, ops[1..]);
      var ids := first + more;
      assert Run(s, ops) == (last, ids);
      forall i, j | 0 <= i < j < |ids| ensures ids[i] < ids[j] {
        if j < |first| {
        } else if i < |first| {
          assert ids[j] == more[j - |first|];
        } else {
          assert ids[i] == more[i - |first|] && ids[j] == more[j - |first|];
        }
      }
      forall i | 0 <= i < |ids| ensures s.lastId < ids[i] <= last.lastId {
        if i >= |first| { assert ids[i] == more[i - |first|]; }
      }
    }
  }
}
