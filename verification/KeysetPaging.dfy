/** Listing a wallet's transactions page by page (getTransactions of dbHelper.ts). */
module KeysetPaging {
  import opened Bytes
  import opened ListUtil
  import Inbox

  const PAGE_SIZE := 30
  const MAX_UNIX_TS := 253402300799
  const MICROS := 1_000_000
  const DESC: Bytes := [68, 69, 83, 67]
  const ASC: Bytes := [65, 83, 67]

  /** A row of storage_node; the ts column holds microseconds. */
  datatype Stored = Stored(key: Inbox.InboxKey, micros: nat)

  /** ts / 1000.0, the seconds handed to the insert. */
  function Seconds(millis: nat): real { millis as real / 1000.0 }

  /** to_timestamp: the nearest microsecond. */
  function ToTimestamp(seconds: real): int { (seconds * 1000000.0 + 0.5).Floor }

  lemma MillisAreExact(millis: nat)
    ensures ToTimestamp(Seconds(millis)) == 1000 * millis
  {
    assert Seconds(millis) * 1000000.0 == (1000 * millis) as real;
  }

  /** The rows a query for one category and wallet ranges over, in whatever shard they were filed. */
  ghost function RowsOf(m: Inbox.Inboxes, category: Bytes, wallet: Bytes): set<Stored> {
    set k | k in m && k.category == category && k.wallet == wallet :: StoredAt(k, m[k].ts)
  }

  function StoredAt(key: Inbox.InboxKey, millis: nat): (r: Stored)
    ensures r.micros == 1000 * millis
  {
    MillisAreExact(millis);
    Stored(key, ToTimestamp(Seconds(millis)))
  }

  predicate Aligned(rows: set<Stored>) { forall r | r in rows :: r.micros % 1000 == 0 }

  /** A block's time in milliseconds, divided into seconds and rounded to microseconds, is still whole milliseconds. */
  lemma {:induction false} InboxRowsAreAligned(m: Inbox.Inboxes, category: Bytes, wallet: Bytes)
    ensures Aligned(RowsOf(m, category, wallet))
  {
    hide Seconds, ToTimestamp;
    forall r | r in RowsOf(m, category, wallet) ensures r.micros % 1000 == 0 {
      var k :| k in m && r == StoredAt(k, m[k].ts);
    }
  }

  // ---------- one page ----------

  datatype Sort = Desc | Asc

  /** Rows come in increasing order of their rank. */
  function RankOf(sort: Sort, micros: nat): int { if sort.Desc? then -(micros as int) else micros }

  function Rank(sort: Sort, r: Stored): int { RankOf(sort, r.micros) }

  /** ts < cursor, or ts > cursor when ascending. */
  function Beyond(rows: set<Stored>, sort: Sort, cursor: nat): set<Stored> {
    set r | r in rows && (if sort.Desc? then r.micros < cursor else r.micros > cursor)
  }

  predicate Ordered(sort: Sort, s: seq<Stored>) {
    forall i, j | 0 <= i < j < |s| :: Rank(sort, s[i]) <= Rank(sort, s[j])
  }

  /** The sequence lists the rows, each once and in order; rows with equal times in any order. */
  predicate Lists(sort: Sort, s: seq<Stored>, rows: set<Stored>) {
    Ordered(sort, s) && NoRepeats(s) && (forall i | 0 <= i < |s| :: s[i] in rows) && forall r | r in rows :: r in s
  }

  /** FETCH FIRST n ROWS WITH TIES, from the rows in the order the database lists them. */
  function FetchWithTies(s: seq<Stored>, n: nat): (page: seq<Stored>)
    ensures page <= s
    decreases |s| - n
  {
    if |s| <= n then s
    else if n == 0 || s[n].micros != s[n - 1].micros then s[..n]
    else FetchWithTies(s, n + 1)
  }

  /** What a page is, whatever order equal times come in: the first rows beyond the cursor, closed under ties,
      no more than the size except for ties with the row at the size, all of them when they are fewer. */
  ghost predicate IsPage(rows: set<Stored>, sort: Sort, cursor: nat, page: seq<Stored>) {
    && (forall i | 0 <= i < |page| :: page[i] in Beyond(rows, sort, cursor))
    && Ordered(sort, page) && NoRepeats(page)
    && (page == [] ==> Beyond(rows, sort, cursor) == {})
    && (page != [] ==> forall r | r in Beyond(rows, sort, cursor) && Rank(sort, r) <= Rank(sort, page[|page| - 1]) ::
         r in page)
    && (|page| > PAGE_SIZE ==> page[PAGE_SIZE - 1].micros == page[|page| - 1].micros)
    && (|page| < PAGE_SIZE ==> forall r | r in Beyond(rows, sort, cursor) :: r in page)
  }

  lemma {:induction false} FetchedPrefix(sort: Sort, s: seq<Stored>, n: nat) returns (k: nat)
    requires Ordered(sort, s)
    ensures k <= |s| && FetchWithTies(s, n) == s[..k] && (k < |s| ==> k >= n)
    ensures k > n > 0 ==> s[k - 1].micros == s[n - 1].micros
    ensures k > 0 && n > 0 ==> forall j | k <= j < |s| :: Rank(sort, s[j]) > Rank(sort, s[k - 1])
    decreases |s| - n
  {
    if |s| <= n {
      k := |s|;
      assert s[..k] == s;
    } else if n == 0 || s[n].micros != s[n - 1].micros {
      k := n;
    } else {
      k := FetchedPrefix(sort, s, n + 1);
    }
  }

  // A row that would come on the page is among the first k.
  lemma {:induction false} ReachedByPage(
      rows: set<Stored>, sort: Sort, cursor: nat, s: seq<Stored>, k: nat, r: Stored)
    requires Lists(sort, s, Beyond(rows, sort, cursor)) && k <= |s| && r in Beyond(rows, sort, cursor)
    requires k > 0 ==> forall j | k <= j < |s| :: Rank(sort, s[j]) > Rank(sort, s[k - 1])
    requires k == |s| || (k > 0 && Rank(sort, r) <= Rank(sort, s[k - 1]))
    ensures r in s[..k]
  {
    var j :| 0 <= j < |s| && s[j] == r;
    assert j < k && s[..k][j] == r;
  }

  lemma PrefixStaysOrdered(sort: Sort, s: seq<Stored>, rows: set<Stored>, k: nat)
    requires Lists(sort, s, rows) && k <= |s|
    ensures Ordered(sort, s[..k]) && NoRepeats(s[..k])
    ensures forall i | 0 <= i < k :: s[i] in rows
    ensures k == 0 && |s| == 0 ==> rows == {}
  {
  }

  /** The query returns a page, for every order of equal times. */
  lemma {:induction false} QueryReturnsPage(rows: set<Stored>, sort: Sort, cursor: nat, s: seq<Stored>)
    requires Lists(sort, s, Beyond(rows, sort, cursor))
    ensures IsPage(rows, sort, cursor, FetchWithTies(s, PAGE_SIZE))
  {
    hide FetchWithTies, Beyond, Rank, Ordered, NoRepeats;
    var k := FetchedPrefix(sort, s, PAGE_SIZE);
    var page := s[..k];
    PrefixStaysOrdered(sort, s, Beyond(rows, sort, cursor), k);
    hide Lists;
    forall r | r in Beyond(rows, sort, cursor) && (k < PAGE_SIZE || Rank(sort, r) <= Rank(sort, page[k - 1]))
      ensures r in page
    {
      ReachedByPage(rows, sort, cursor, s, k, r);
    }
  }

  // ---------- the method ----------

  /** The text of firstTs: empty, a bad number, or seconds with six decimals. */
  datatype FirstTs = Empty | Malformed | At(micros: nat)

  datatype Item = Item(key: Inbox.InboxKey, ts: nat)

  datatype Listing = Failed | Listing(items: seq<Item>, lastTs: Option<nat>)

  /** round(extract(epoch from ts) * 1000). */
  function RoundMillis(micros: nat): (r: nat)
    ensures 1000 * r - 500 <= micros < 1000 * r + 500
  {
    (micros + 500) / 1000
  }

  function SortOf(text: Bytes): Option<Sort> {
    if text == [] || text == DESC then Some(Desc) else if text == ASC then Some(Asc) else None
  }

  /** An empty cursor means the current time in whole seconds, in either direction. A cursor of zero fails the check
      on its value. */
  function Cursor(firstTs: FirstTs, nowMillis: nat): Option<nat> {
    match firstTs
    case Malformed => None
    case Empty => CheckedCursor(MICROS * ((nowMillis + 500) / 1000))
    case At(micros) => CheckedCursor(micros)
  }

  function CheckedCursor(micros: nat): Option<nat> {
    if micros == 0 || micros > MAX_UNIX_TS * MICROS then None else Some(micros)
  }

  predicate Shows(r: Listing, page: seq<Stored>) {
    && r.Listing? && |r.items| == |page|
    && (forall i | 0 <= i < |page| :: r.items[i] == Item(page[i].key, RoundMillis(page[i].micros)))
    && r.lastTs == if page == [] then None else Some(RoundMillis(page[|page| - 1].micros))
  }

  /** A page by the rows' own times: distinct rows strictly beyond the cursor, in order; every other row beyond it comes
      strictly later than a page of at least 30; and rows after the thirtieth have its time. */
  predicate PageOf(rows: set<Stored>, ascending: bool, cursor: nat, page: seq<Stored>) {
    && (forall i | 0 <= i < |page| ::
          page[i] in rows && if ascending then page[i].micros > cursor else page[i].micros < cursor)
    && (forall i, j | 0 <= i < j < |page| :: page[i] != page[j]
          && if ascending then page[i].micros <= page[j].micros else page[i].micros >= page[j].micros)
    && (forall r | r in rows && r !in page && (if ascending then r.micros > cursor else r.micros < cursor) ::
          |page| >= 30
          && if ascending then r.micros > page[|page| - 1].micros else r.micros < page[|page| - 1].micros)
    && (forall i | 30 <= i < |page| :: page[i].micros == page[29].micros)
  }

  lemma {:induction false} PageIff(rows: set<Stored>, sort: Sort, cursor: nat, page: seq<Stored>)
    ensures IsPage(rows, sort, cursor, page) <==> PageOf(rows, sort.Asc?, cursor, page)
  {
    if IsPage(rows, sort, cursor, page) {
      forall i | 0 <= i < |page| ensures page[i] in Beyond(rows, sort, cursor) {
      }
      forall i | 30 <= i < |page| ensures page[i].micros == page[29].micros {
        assert Rank(sort, page[29]) <= Rank(sort, page[i]);
        assert i < |page| - 1 ==> Rank(sort, page[i]) <= Rank(sort, page[|page| - 1]);
      }
      forall r | r in rows && r !in page && r in Beyond(rows, sort, cursor)
        ensures |page| >= 30 && Rank(sort, r) > Rank(sort, page[|page| - 1])
      {
      }
    }
    if PageOf(rows, sort.Asc?, cursor, page) {
      forall r | r in Beyond(rows, sort, cursor) && r !in page
        ensures |page| >= 30 && Rank(sort, r) > Rank(sort, page[|page| - 1])
      {
      }
    }
  }

  /** The cursor of a listing in microseconds: the given time, or the current one in whole seconds; None if it is zero
      or past the year 9999. */
  function CursorMicros(firstTs: FirstTs, nowMillis: nat): Option<nat> {
    if firstTs.Malformed? then
      None
    else
      var micros := if firstTs.At? then firstTs.micros else 1000000 * ((nowMillis + 500) / 1000);
      if 0 < micros <= 253402300799000000 then Some(micros) else None
  }

  /** What a listing shows of the inboxes: rows of the category and the wallet with the times they were filed at; with
      fewer than 30 rows, all of them that lie beyond the cursor. */
  ghost predicate ShowsRows(
    m: Inbox.Inboxes, category: Bytes, wallet: Bytes, ascending: bool, cursor: nat, items: seq<Item>)
  {
    && (forall i | 0 <= i < |items| ::
          var key := items[i].key;
          key in m && key.category == category && key.wallet == wallet && items[i].ts == m[key].ts)
    && (|items| < 30 ==> forall key | key in m && key.category == category && key.wallet == wallet ::
          (if ascending then 1000 * m[key].ts > cursor else 1000 * m[key].ts < cursor) ==>
            exists i :: 0 <= i < |items| && items[i].key == key)
  }

  lemma {:induction false} PageShowsRows(
      m: Inbox.Inboxes, category: Bytes, wallet: Bytes, ascending: bool, cursor: nat, page: seq<Stored>, r: Listing)
    requires PageOf(RowsOf(m, category, wallet), ascending, cursor, page) && Shows(r, page)
    ensures ShowsRows(m, category, wallet, ascending, cursor, r.items)
  {
    hide Seconds, ToTimestamp;
    var rows := RowsOf(m, category, wallet);
    forall i | 0 <= i < |page|
      ensures (var key := r.items[i].key;
        key in m && key.category == category && key.wallet == wallet && r.items[i].ts == m[key].ts)
    {
      var k :| k in m && k.category == category && k.wallet == wallet && page[i] == StoredAt(k, m[k].ts);
    }
    forall key | key in m && key.category == category && key.wallet == wallet && |page| < 30
      && (if ascending then 1000 * m[key].ts > cursor else 1000 * m[key].ts < cursor)
      ensures exists i :: 0 <= i < |r.items| && r.items[i].key == key
    {
      var row := StoredAt(key, m[key].ts);
      assert row in rows;
      assert row in page;
      var i :| 0 <= i < |page| && page[i] == row;
      assert r.items[i].key == key;
    }
  }

  /** `order` is the order in which the database lists the rows beyond a cursor. */
  method GetTransactions(
      m: Inbox.Inboxes, wallet: Bytes, category: Bytes, firstTs: FirstTs, sort: Bytes, nowMillis: nat,
      order: (Sort, nat) -> seq<Stored>)
    returns (r: Listing)
    requires forall s: Sort, cursor: nat :: Lists(s, order(s, cursor), Beyond(RowsOf(m, category, wallet), s, cursor))
    ensures r.Failed? <==>
      CursorMicros(firstTs, nowMillis).None? || !(sort == [] || sort == [65, 83, 67] || sort == [68, 69, 83, 67])
    ensures r.Listing? ==> exists page ::
      && PageOf(RowsOf(m, category, wallet), sort == [65, 83, 67], CursorMicros(firstTs, nowMillis).value, page)
      && Shows(r, page)
    ensures r.Listing? ==>
      ShowsRows(m, category, wallet, sort == [65, 83, 67], CursorMicros(firstTs, nowMillis).value, r.items)
  {
    hide Lists, IsPage, Beyond, PageOf, RowsOf, ShowsRows;
    ghost var rows := RowsOf(m, category, wallet);
    if SortOf(sort).None? {
      return Failed;
    }
    var cursor := Cursor(firstTs, nowMillis);
    if cursor.None? {
      return Failed;
    }
    var listed := order(SortOf(sort).value, cursor.value);
    var page := FetchWithTies(listed, PAGE_SIZE);
    QueryReturnsPage(rows, SortOf(sort).value, cursor.value, listed);
    var items := seq(|page|, i requires 0 <= i < |page| => Item(page[i].key, RoundMillis(page[i].micros)));
    r := Listing(items, if items == [] then None else Some(items[|items| - 1].ts));
    assert Shows(r, page);
    PageIff(rows, SortOf(sort).value, cursor.value, page);
    PageShowsRows(m, category, wallet, sort == [65, 83, 67], cursor.value, page, r);
  }

  /** lastTs is in milliseconds and firstTs in seconds. Handed back as it is, the lastTs of a descending listing is
      refused when it is zero or past the last year allowed; when it is accepted, the last row comes again, and the
      next listing starts at the newest row again iff that row's time is below the cursor. */
  lemma {:induction false} UnconvertedCursorRestarts(
      rows: set<Stored>, cursor: nat, page: seq<Stored>, r: Listing, nowMillis: nat, next: seq<Stored>)
    requires IsPage(rows, Desc, cursor, page) && page != [] && Shows(r, page)
    ensures (var handed := MICROS * r.lastTs.value;
      && (Cursor(At(handed), nowMillis).None? <==> r.lastTs.value == 0 || r.lastTs.value > MAX_UNIX_TS)
      && (Cursor(At(handed), nowMillis).Some? ==> page[|page| - 1] in Beyond(rows, Desc, handed))
      && (Cursor(At(handed), nowMillis).Some? && IsPage(rows, Desc, handed, next) ==>
           next != [] && (next[0].micros >= page[0].micros <==> page[0].micros < handed))
      && (page[0].micros < handed ==> forall i | 0 <= i < |page| :: page[i] in Beyond(rows, Desc, handed)))
  {
    var handed := MICROS * r.lastTs.value;
    var last := page[|page| - 1];
    assert last in Beyond(rows, Desc, cursor) && page[0] in Beyond(rows, Desc, cursor);
    if Cursor(At(handed), nowMillis).Some? {
      assert last.micros < handed;
      if IsPage(rows, Desc, handed, next) {
        assert last in Beyond(rows, Desc, handed);
        assert next != [];
        assert next[0] in Beyond(rows, Desc, handed);
        if page[0].micros < handed {
          FirstIsNewest(rows, handed, next, page[0]);
        }
      }
    }
    forall i | 0 <= i < |page| && page[0].micros < handed ensures page[i] in Beyond(rows, Desc, handed) {
      assert page[i] in Beyond(rows, Desc, cursor);
      assert Rank(Desc, page[0]) <= Rank(Desc, page[i]);
    }
  }

  lemma FirstIsNewest(rows: set<Stored>, cursor: nat, page: seq<Stored>, r: Stored)
    requires IsPage(rows, Desc, cursor, page) && page != [] && r in Beyond(rows, Desc, cursor)
    ensures page[0].micros >= r.micros
  {
    assert Rank(Desc, page[0]) <= Rank(Desc, page[|page| - 1]);
    if Rank(Desc, r) <= Rank(Desc, page[|page| - 1]) {
      var j :| 0 <= j < |page| && page[j] == r;
    }
  }

  // ---------- all the pages ----------

  /** The cursor for the page after this one: its last time, through milliseconds and back. */
  function NextCursor(page: seq<Stored>): nat
    requires page != []
  {
    1000 * RoundMillis(page[|page| - 1].micros)
  }

  /** The next page starts where this one ended exactly when rounding does not go back behind the last row of the
      page, and passes no other row. */
  lemma {:induction false} NextCursorExactIff(rows: set<Stored>, sort: Sort, cursor: nat, page: seq<Stored>)
    requires IsPage(rows, sort, cursor, page) && page != []
    ensures Beyond(rows, sort, NextCursor(page)) == Beyond(rows, sort, cursor) - Elements(page) <==>
      (var last, next := Rank(sort, page[|page| - 1]), RankOf(sort, NextCursor(page));
       last <= next && forall r | r in rows :: !(last < Rank(sort, r) <= next))
  {
    var last, next := page[|page| - 1], RankOf(sort, NextCursor(page));
    var rest := Beyond(rows, sort, cursor) - Elements(page);
    assert last in Beyond(rows, sort, cursor);
    assert forall i | 0 <= i < |page| :: Rank(sort, page[i]) <= Rank(sort, last);
    forall r ensures r in rest <==> r in rows && Rank(sort, r) > Rank(sort, last) {
      assert r in page ==> Rank(sort, r) <= Rank(sort, last);
    }
    assert last in rows && last !in rest;
    forall r ensures r in Beyond(rows, sort, NextCursor(page)) <==> r in rows && Rank(sort, r) > next {
    }
    if Beyond(rows, sort, NextCursor(page)) == rest {
      assert last !in Beyond(rows, sort, NextCursor(page));
      forall r | r in rows ensures !(Rank(sort, last) < Rank(sort, r) <= next) {
        assert r in Beyond(rows, sort, NextCursor(page)) <==> r in rest;
      }
    }
  }

  /** One row at 600 microseconds past a millisecond: rounding moves the cursor past it, and every page is the
      same again. */
  lemma {:induction false} UnalignedTimesRepeat(key: Inbox.InboxKey)
    ensures (var row := Stored(key, 1600);
      && IsPage({row}, Desc, 5000, [row]) && NextCursor([row]) == 2000
      && IsPage({row}, Desc, 2000, [row])
      && Beyond({row}, Desc, NextCursor([row])) != Beyond({row}, Desc, 5000) - Elements([row]))
  {
    var row := Stored(key, 1600);
    NextCursorExactIff({row}, Desc, 5000, [row]);
  }

  /** On whole milliseconds the next cursor is the time of the last row. */
  lemma AlignedCursor(rows: set<Stored>, sort: Sort, cursor: nat, page: seq<Stored>)
    requires Aligned(rows) && IsPage(rows, sort, cursor, page) && page != []
    ensures NextCursor(page) == page[|page| - 1].micros
    ensures RankOf(sort, cursor) < RankOf(sort, NextCursor(page))
  {
    var last := page[|page| - 1];
    assert last in Beyond(rows, sort, cursor);
    RoundsExactly(last.micros);
    hide RoundMillis, IsPage;
  }

  lemma RoundsExactly(micros: nat)
    requires micros % 1000 == 0
    ensures 1000 * RoundMillis(micros) == micros
  {
  }

  /** Pages fetched one after the other, none of them empty, starting beyond the cursor. */
  ghost predicate Paged(rows: set<Stored>, sort: Sort, cursor: nat, pages: seq<seq<Stored>>)
    decreases |pages|
  {
    pages == [] || (
      && pages[0] != [] && IsPage(rows, sort, cursor, pages[0])
      && Paged(rows, sort, NextCursor(pages[0]), pages[1..]))
  }

  function CursorAfter(cursor: nat, pages: seq<seq<Stored>>): nat
    requires forall i | 0 <= i < |pages| :: pages[i] != []
  {
    if pages == [] then cursor else NextCursor(pages[|pages| - 1])
  }

  function Flat(pages: seq<seq<Stored>>): seq<Stored> { if pages == [] then [] else pages[0] + Flat(pages[1..]) }

  /** The rows between two cursors, those at the second one included. */
  function Passed(rows: set<Stored>, sort: Sort, from: nat, to: nat): set<Stored> {
    set r | r in rows && RankOf(sort, from) < Rank(sort, r) <= RankOf(sort, to)
  }

  lemma {:induction false} PagedNonEmpty(rows: set<Stored>, sort: Sort, cursor: nat, pages: seq<seq<Stored>>)
    requires Paged(rows, sort, cursor, pages)
    ensures forall i | 0 <= i < |pages| :: pages[i] != []
    decreases |pages|
  {
    if pages != [] {
      PagedNonEmpty(rows, sort, NextCursor(pages[0]), pages[1..]);
      assert forall i | 1 <= i < |pages| :: pages[i] == pages[1..][i - 1];
    }
  }

  /** However far one pages, what was listed is every row between the start and the cursor reached, each once and in
      order. */
  lemma {:induction false} PagesListEverything(rows: set<Stored>, sort: Sort, cursor: nat, pages: seq<seq<Stored>>)
    requires Aligned(rows) && Paged(rows, sort, cursor, pages)
    ensures forall i | 0 <= i < |pages| :: pages[i] != []
    ensures RankOf(sort, cursor) <= RankOf(sort, CursorAfter(cursor, pages))
    ensures Lists(sort, Flat(pages), Passed(rows, sort, cursor, CursorAfter(cursor, pages)))
    decreases |pages|
  {
    hide IsPage, Lists;
    PagedNonEmpty(rows, sort, cursor, pages);
    if pages == [] {
      NothingListed(rows, sort, cursor);
    } else {
      var page, next := pages[0], NextCursor(pages[0]);
      AlignedCursor(rows, sort, cursor, page);
      PagesListEverything(rows, sort, next, pages[1..]);
      assert CursorAfter(next, pages[1..]) == CursorAfter(cursor, pages);
      PageLists(rows, sort, cursor, page);
      var end := CursorAfter(cursor, pages);
      ListsConcat(sort, page, Passed(rows, sort, cursor, next), Flat(pages[1..]), Passed(rows, sort, next, end),
        RankOf(sort, next));
      PassedTwice(rows, sort, cursor, next, end);
    }
  }

  lemma PassedTwice(rows: set<Stored>, sort: Sort, from: nat, mid: nat, to: nat)
    requires RankOf(sort, from) <= RankOf(sort, mid) <= RankOf(sort, to)
    ensures Passed(rows, sort, from, mid) + Passed(rows, sort, mid, to) == Passed(rows, sort, from, to)
  {
  }

  lemma NothingListed(rows: set<Stored>, sort: Sort, cursor: nat)
    ensures Lists(sort, [], Passed(rows, sort, cursor, cursor))
  {
  }

  lemma PageLists(rows: set<Stored>, sort: Sort, cursor: nat, page: seq<Stored>)
    requires Aligned(rows) && IsPage(rows, sort, cursor, page) && page != []
    ensures Lists(sort, page, Passed(rows, sort, cursor, NextCursor(page)))
  {
    AlignedCursor(rows, sort, cursor, page);
    forall r | r in Passed(rows, sort, cursor, NextCursor(page)) ensures r in page {
      assert r in Beyond(rows, sort, cursor);
    }
    forall i | 0 <= i < |page| ensures page[i] in Passed(rows, sort, cursor, NextCursor(page)) {
      assert page[i] in Beyond(rows, sort, cursor);
      assert Rank(sort, page[i]) <= Rank(sort, page[|page| - 1]);
    }
  }

  lemma ListsConcat(sort: Sort, a: seq<Stored>, x: set<Stored>, b: seq<Stored>, y: set<Stored>, cut: int)
    requires Lists(sort, a, x) && Lists(sort, b, y)
    requires forall r | r in x :: Rank(sort, r) <= cut
    requires forall r | r in y :: Rank(sort, r) > cut
    ensures Lists(sort, a + b, x + y)
  {
    hide Rank;
    forall r | r in x + y ensures r in a + b {
      assert r in a || r in b;
    }
  }

  /** Paging until a page is empty lists every row beyond the start exactly once. */
  lemma {:induction false} PagingIsComplete(rows: set<Stored>, sort: Sort, start: nat, pages: seq<seq<Stored>>)
    requires Aligned(rows) && Paged(rows, sort, start, pages)
    requires (PagedNonEmpty(rows, sort, start, pages); IsPage(rows, sort, CursorAfter(start, pages), []))
    ensures Lists(sort, Flat(pages), Beyond(rows, sort, start))
  {
    PagesListEverything(rows, sort, start, pages);
    var end := CursorAfter(start, pages);
    forall r | r in Beyond(rows, sort, start) ensures r in Passed(rows, sort, start, end) {
      assert r !in Beyond(rows, sort, end);
    }
    assert Passed(rows, sort, start, end) == Beyond(rows, sort, start);
  }

  /** Every page that is not empty leaves strictly fewer rows beyond its cursor. */
  lemma {:induction false} PageShrinksRest(rows: set<Stored>, sort: Sort, cursor: nat, page: seq<Stored>)
    requires Aligned(rows) && IsPage(rows, sort, cursor, page) && page != []
    ensures |Beyond(rows, sort, NextCursor(page))| < |Beyond(rows, sort, cursor)|
    ensures |Beyond(rows, sort, NextCursor(page))| == |Beyond(rows, sort, cursor)| - |page|
    ensures |page| >= PAGE_SIZE || Beyond(rows, sort, NextCursor(page)) == {}
  {
    hide Passed, Beyond, Lists;
    AlignedCursor(rows, sort, cursor, page);
    PageLists(rows, sort, cursor, page);
    hide IsPage;
    var here, rest := Passed(rows, sort, cursor, NextCursor(page)), Beyond(rows, sort, NextCursor(page));
    ListSize(sort, page, here);
    PassedAndBeyond(rows, sort, cursor, NextCursor(page));
    assert |here + rest| == |here| + |rest|;
    if |page| < PAGE_SIZE {
      AllPassed(rows, sort, cursor, page);
    }
  }

  lemma PassedAndBeyond(rows: set<Stored>, sort: Sort, from: nat, to: nat)
    requires RankOf(sort, from) <= RankOf(sort, to)
    ensures Passed(rows, sort, from, to) !! Beyond(rows, sort, to)
    ensures Passed(rows, sort, from, to) + Beyond(rows, sort, to) == Beyond(rows, sort, from)
  {
  }

  lemma AllPassed(rows: set<Stored>, sort: Sort, cursor: nat, page: seq<Stored>)
    requires Aligned(rows) && IsPage(rows, sort, cursor, page) && 0 < |page| < PAGE_SIZE
    ensures Beyond(rows, sort, NextCursor(page)) == {}
  {
    AlignedCursor(rows, sort, cursor, page);
    forall r | r in rows ensures r !in Beyond(rows, sort, NextCursor(page)) {
      if r in Beyond(rows, sort, cursor) {
        assert r in page;
        assert forall i | 0 <= i < |page| :: Rank(sort, page[i]) <= Rank(sort, page[|page| - 1]);
      }
    }
  }

  lemma ListSize(sort: Sort, s: seq<Stored>, x: set<Stored>)
    requires Lists(sort, s, x)
    ensures |x| == |s|
  {
    assert Elements(s) == x;
    SizeOfElements(s);
  }

  /** n rows take at most ceil(n/30) pages before the empty one. */
  lemma {:induction false} PageCount(rows: set<Stored>, sort: Sort, start: nat, pages: seq<seq<Stored>>)
    requires Aligned(rows) && Paged(rows, sort, start, pages) && pages != []
    ensures 30 * (|pages| - 1) < |Beyond(rows, sort, start)|
    decreases |pages|
  {
    PageShrinksRest(rows, sort, start, pages[0]);
    if |pages| > 1 {
      PageCount(rows, sort, NextCursor(pages[0]), pages[1..]);
    }
  }
}
