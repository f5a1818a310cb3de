/** The cursor pagination the listing endpoints share: locate the cursor
    (the page starts AT it, since no record is skipped), fetch limit + 1
    ids, and if the extra one came back, drop it and hand its id out as
    the next cursor. The cursor row is looked up in the whole table, not
    only among the rows the filter keeps. */
module Pagination {
  import opened Wrappers
  import opened Listing

  const MaxLimit: nat := 100

  /** The page size: the client's value when it lies in 1..100, the
      endpoint's default when none was sent, an input error otherwise. */
  function CheckLimit(limit: Option<int>, default: nat): (r: Result<nat>)
    ensures limit.None? ==> r == Ok(default)
    ensures limit.Some? ==> (r.Ok? <==> 1 <= limit.value <= MaxLimit)
    ensures limit.Some? && r.Ok? ==> r.value == limit.value
  {
    match limit
    case None => Ok(default)
    case Some(l) => if 1 <= l <= MaxLimit then Ok(l) else Err("limit must be between 1 and 100")
  }

  /** The first position of x in s. */
  function IndexOf(s: seq<nat>, x: nat): (r: Option<nat>)
    ensures r.None? <==> x !in s
    ensures r.Some? ==> r.value < |s| && s[r.value] == x && x !in s[..r.value]
    decreases |s|
  {
    if |s| == 0 then None
    else if s[0] == x then Some(0)
    else
      var rest := IndexOf(s[1..], x);
      if rest.None? then None
      else
        assert s[..rest.value + 1] == [s[0]] + s[1..][..rest.value];
        Some(rest.value + 1)
  }

  lemma IndexOfDistinct(s: seq<nat>, i: nat)
    requires Distinct(s) && i < |s|
    ensures IndexOf(s, s[i]) == Some(i)
  {
  }

  /** Where a page starts: the top without a cursor, the cursor's position
      with one, past the end when the cursor is not in the list. */
  function Start(ordered: seq<nat>, cursor: Option<nat>): (p: nat)
    ensures p <= |ordered|
  {
    match cursor
    case None => 0
    case Some(c) => var i := IndexOf(ordered, c); if i.Some? then i.value else |ordered|
  }

  /** The query: `take` ids from the start position on. */
  function Fetch(ordered: seq<nat>, cursor: Option<nat>, take: nat): (r: seq<nat>)
    ensures |r| <= take
  {
    var p := Start(ordered, cursor);
    ordered[p..Min(p + take, |ordered|)]
  }

  datatype Page = Page(items: seq<nat>, nextCursor: Option<nat>)

  /** One page: limit + 1 fetched, the extra one popped into the cursor. */
  function Paginate(ordered: seq<nat>, cursor: Option<nat>, limit: nat): (p: Page)
    requires limit >= 1
  {
    var fetched := Fetch(ordered, cursor, limit + 1);
    if |fetched| > limit then Page(fetched[..limit], Some(fetched[limit]))
    else Page(fetched, None)
  }

  /** A page holds at most `limit` ids, taken consecutively from the
      ordered list at the cursor; the next cursor is given exactly when
      more ids follow, and it is the id right after the page. */
  lemma PageShape(ordered: seq<nat>, cursor: Option<nat>, limit: nat)
    requires limit >= 1
    ensures var p := Paginate(ordered, cursor, limit);
            var s := Start(ordered, cursor);
            && |p.items| <= limit
            && p.items == ordered[s..s + |p.items|]
            && (p.nextCursor.Some? <==> s + limit < |ordered|)
            && (p.nextCursor.Some? ==> |p.items| == limit && p.nextCursor.value == ordered[s + limit])
            && (p.nextCursor.None? ==> p.items == ordered[s..])
  {
  }

  /** A cursor not found in the list yields an empty, final page. */
  lemma UnknownCursorEmpty(ordered: seq<nat>, c: nat, limit: nat)
    requires limit >= 1 && c !in ordered
    ensures Paginate(ordered, Some(c), limit) == Page([], None)
  {
  }

  /** Every page that follows the cursors chain from here, concatenated. */
  function Follow(ordered: seq<nat>, cursor: Option<nat>, limit: nat): seq<nat>
    requires limit >= 1 && Distinct(ordered)
    decreases |ordered| - Start(ordered, cursor), cursor.None?
  {
    var p := Paginate(ordered, cursor, limit);
    if p.nextCursor.None? then p.items
    else
      var s := Start(ordered, cursor);
      IndexOfDistinct(ordered, s + limit);
      p.items + Follow(ordered, p.nextCursor, limit)
  }

  /** A page with a next cursor is followed by the page starting right after it. */
  lemma FollowStep(ordered: seq<nat>, cursor: Option<nat>, limit: nat)
    requires limit >= 1 && Distinct(ordered)
    requires Paginate(ordered, cursor, limit).nextCursor.Some?
    ensures var s := Start(ordered, cursor);
            && s + limit < |ordered|
            && Start(ordered, Paginate(ordered, cursor, limit).nextCursor) == s + limit
            && Follow(ordered, cursor, limit)
               == ordered[s..s + limit] + Follow(ordered, Paginate(ordered, cursor, limit).nextCursor, limit)
  {
    PageShape(ordered, cursor, limit);
    IndexOfDistinct(ordered, Start(ordered, cursor) + limit);
  }

  /** A page without a next cursor is the rest of the list. */
  lemma FollowLast(ordered: seq<nat>, cursor: Option<nat>, limit: nat)
    requires limit >= 1 && Distinct(ordered)
    requires Paginate(ordered, cursor, limit).nextCursor.None?
    ensures Follow(ordered, cursor, limit) == ordered[Start(ordered, cursor)..]
  {
    PageShape(ordered, cursor, limit);
  }

  lemma SliceSplit(s: seq<nat>, a: nat, b: nat)
    requires a <= b <= |s|
    ensures s[a..] == s[a..b] + s[b..]
  {
  }

  /** Following nextCursor from a position covers the rest of the list
      with no gaps and no repeats. */
  lemma {:induction false} FollowFrom(ordered: seq<nat>, cursor: Option<nat>, limit: nat)
    requires limit >= 1 && Distinct(ordered)
    ensures Follow(ordered, cursor, limit) == ordered[Start(ordered, cursor)..]
    decreases |ordered| - Start(ordered, cursor), cursor.None?
  {
    var next := Paginate(ordered, cursor, limit).nextCursor;
    var s := Start(ordered, cursor);
    if next.Some? {
      FollowStep(ordered, cursor, limit);
      FollowFrom(ordered, next, limit);
      SliceSplit(ordered, s, s + limit);
    } else {
      FollowLast(ordered, cursor, limit);
    }
  }

  /** A page of a ranked list is ranked. */
  lemma PageRanked(ordered: seq<nat>, cursor: Option<nat>, limit: nat, rank: nat -> int)
    requires limit >= 1 && RankedDesc(ordered, rank)
    ensures RankedDesc(Paginate(ordered, cursor, limit).items, rank)
  {
    PageShape(ordered, cursor, limit);
    var s := Start(ordered, cursor);
    SliceRanked(ordered, s, s + |Paginate(ordered, cursor, limit).items|, rank);
  }

  /** Starting without a cursor, the pages together are the whole ordered list. */
  lemma PagesCoverList(ordered: seq<nat>, limit: nat)
    requires limit >= 1 && Distinct(ordered)
    ensures Follow(ordered, None, limit) == ordered
  {
    FollowFrom(ordered, None, limit);
  }

  /** Where the query resumes after a cursor row that the filter leaves
      out: at the first listed id that `before` does not put ahead of
      that row. */
  function Resume(ordered: seq<nat>, c: nat, before: (nat, nat) -> bool): (p: nat)
    ensures p <= |ordered|
    ensures forall k :: 0 <= k < p ==> before(ordered[k], c)
    ensures p < |ordered| ==> !before(ordered[p], c)
    decreases |ordered|
  {
    if |ordered| == 0 || !before(ordered[0], c) then 0
    else
      var rest := Resume(ordered[1..], c, before);
      assert forall k :: 1 <= k < rest + 1 ==> ordered[k] == ordered[1..][k - 1];
      rest + 1
  }

  /** The ids the query pages through and the cursor it pages from. A
      listed cursor, or none, pages the list as it is. A cursor on a row of
      the table that the filter leaves out pages the rest of the list from
      where that row would sit. A cursor that names no row is kept, and so
      finds nothing. */
  function Window<T>(m: map<nat, T>, ordered: seq<nat>, before: (nat, nat) -> bool,
                     cursor: Option<nat>): (w: (seq<nat>, Option<nat>))
  {
    if cursor.Some? && cursor.value in m && cursor.value !in ordered
    then (ordered[Resume(ordered, cursor.value, before)..], None)
    else (ordered, cursor)
  }

  /** A page of rows and the cursor to the next page. */
  datatype RowPage<T> = RowPage(rows: seq<T>, nextCursor: Option<nat>)

  /** A listing endpoint over one table: check the limit, paginate the
      ordered ids from the cursor, and return their rows. `before` is the
      ordering the list is sorted by. */
  function ListPage<T>(m: map<nat, T>, ordered: seq<nat>, before: (nat, nat) -> bool,
                       limit: Option<int>, default: nat, cursor: Option<nat>): (r: Result<RowPage<T>>)
    requires default >= 1
    requires forall k :: 0 <= k < |ordered| ==> ordered[k] in m
    ensures r.Ok? <==> CheckLimit(limit, default).Ok?
    ensures r.Ok? ==> |r.value.rows| <= CheckLimit(limit, default).value
    ensures r.Ok? ==> forall k :: 0 <= k < |r.value.rows| ==>
              exists j :: 0 <= j < |ordered| && r.value.rows[k] == m[ordered[j]]
  {
    var checked := CheckLimit(limit, default);
    if checked.Err? then Err(checked.message)
    else
      var w := Window(m, ordered, before, cursor);
      var p := Paginate(w.0, w.1, checked.value);
      WindowPageListed(m, ordered, before, cursor, checked.value);
      var rows := seq(|p.items|, k requires 0 <= k < |p.items| => m[p.items[k]]);
      assert forall k :: 0 <= k < |rows| ==> exists j :: 0 <= j < |ordered| && rows[k] == m[ordered[j]] by {
        forall k | 0 <= k < |rows| ensures exists j :: 0 <= j < |ordered| && rows[k] == m[ordered[j]] {
          var j :| 0 <= j < |ordered| && ordered[j] == p.items[k];
        }
      }
      Ok(RowPage(rows, p.nextCursor))
  }

  /** Every id on a page is one of the listed ids. */
  lemma WindowPageListed<T>(m: map<nat, T>, ordered: seq<nat>, before: (nat, nat) -> bool,
                            cursor: Option<nat>, limit: nat)
    requires limit >= 1
    ensures var w := Window(m, ordered, before, cursor);
            var p := Paginate(w.0, w.1, limit);
            |p.items| <= limit && forall k :: 0 <= k < |p.items| ==> p.items[k] in ordered
  {
    var w := Window(m, ordered, before, cursor);
    PageShape(w.0, w.1, limit);
    var s := Start(w.0, w.1);
    var off := |ordered| - |w.0|;
    assert w.0 == ordered[off..];
    var p := Paginate(w.0, w.1, limit);
    forall k | 0 <= k < |p.items| ensures p.items[k] in ordered {
      assert p.items[k] == ordered[off + s + k];
    }
  }

  /** The page is exactly the rows of the paginated ids. */
  lemma ListPageRows<T>(m: map<nat, T>, ordered: seq<nat>, before: (nat, nat) -> bool,
                        limit: Option<int>, default: nat, cursor: Option<nat>)
    requires default >= 1
    requires forall k :: 0 <= k < |ordered| ==> ordered[k] in m
    requires ListPage(m, ordered, before, limit, default, cursor).Ok?
    ensures var r := ListPage(m, ordered, before, limit, default, cursor).value;
            var w := Window(m, ordered, before, cursor);
            var p := Paginate(w.0, w.1, CheckLimit(limit, default).value);
            |r.rows| == |p.items| && r.nextCursor == p.nextCursor
            && forall k :: 0 <= k < |p.items| ==> p.items[k] in m && r.rows[k] == m[p.items[k]]
  {
    var w := Window(m, ordered, before, cursor);
    var lim := CheckLimit(limit, default).value;
    var p := Paginate(w.0, w.1, lim);
    PageShape(w.0, w.1, lim);
    WindowPageListed(m, ordered, before, cursor, lim);
    var rows := seq(|p.items|, k requires 0 <= k < |p.items| => m[p.items[k]]);
    assert ListPage(m, ordered, before, limit, default, cursor) == Ok(RowPage(rows, p.nextCursor));
  }

  /** A page of a ranked list is ranked, wherever the cursor puts it. */
  lemma WindowPageRanked<T>(m: map<nat, T>, ordered: seq<nat>, before: (nat, nat) -> bool,
                            cursor: Option<nat>, limit: nat, rank: nat -> int)
    requires limit >= 1 && RankedDesc(ordered, rank)
    ensures var w := Window(m, ordered, before, cursor);
            RankedDesc(Paginate(w.0, w.1, limit).items, rank)
  {
    var w := Window(m, ordered, before, cursor);
    SliceRanked(ordered, |ordered| - |w.0|, |ordered|, rank);
    assert w.0 == ordered[|ordered| - |w.0|..|ordered|];
    PageRanked(w.0, w.1, limit, rank);
  }

  /** A cursor that names no row of the table gives an empty, final page. */
  lemma ListPageUnknownCursor<T>(m: map<nat, T>, ordered: seq<nat>, before: (nat, nat) -> bool,
                                 limit: Option<int>, default: nat, c: nat)
    requires default >= 1
    requires forall k :: 0 <= k < |ordered| ==> ordered[k] in m
    requires ListPage(m, ordered, before, limit, default, Some(c)).Ok? && c !in m
    ensures ListPage(m, ordered, before, limit, default, Some(c)).value == RowPage([], None)
  {
    UnknownCursorEmpty(ordered, c, CheckLimit(limit, default).value);
  }

  /** A cursor on a row the filter leaves out (a note moderated since the
      cursor was handed out, say) continues with the listed rows that come
      after that row: the page is the first page of the rest of the list. */
  lemma ListPageExcludedCursor<T>(m: map<nat, T>, ordered: seq<nat>, before: (nat, nat) -> bool,
                                  limit: Option<int>, default: nat, c: nat)
    requires default >= 1
    requires forall k :: 0 <= k < |ordered| ==> ordered[k] in m
    requires c in m && c !in ordered
    ensures ListPage(m, ordered, before, limit, default, Some(c))
         == ListPage(m, ordered[Resume(ordered, c, before)..], before, limit, default, None)
  {
  }

  /** In a newest-first list, a page after an excluded cursor row holds
      only older ids, and starts at the newest listed id older than it. */
  lemma ExcludedCursorNewestFirst<T>(m: map<nat, T>, ordered: seq<nat>, c: nat, limit: nat, j: nat)
    requires limit >= 1 && StrictlyDescending(ordered)
    requires c in m && c !in ordered
    ensures var w := Window(m, ordered, Newer, Some(c));
            var items := Paginate(w.0, w.1, limit).items;
            && (forall k :: 0 <= k < |items| ==> items[k] < c)
            && (j < |ordered| && ordered[j] < c ==> |items| > 0 && items[0] >= ordered[j])
  {
    var p := Resume(ordered, c, Newer);
    var w := Window(m, ordered, Newer, Some(c));
    assert w == (ordered[p..], None);
    PageShape(w.0, None, limit);
    var items := Paginate(w.0, w.1, limit).items;
    forall k | 0 <= k < |items| ensures items[k] < c {
      assert items[k] == ordered[p + k];
      assert ordered[p] != c;
    }
    if j < |ordered| && ordered[j] < c {
      assert p <= j;
      assert items[0] == ordered[p];
    }
  }

  /** The same at the level of rows, for a table whose rows carry their own id. */
  lemma ListPageExcludedNewestFirst<T>(m: map<nat, T>, ordered: seq<nat>, limit: Option<int>, default: nat,
                                       c: nat, j: nat, id: T -> nat)
    requires default >= 1 && StrictlyDescending(ordered)
    requires forall k :: 0 <= k < |ordered| ==> ordered[k] in m
    requires forall i :: i in m ==> id(m[i]) == i
    requires c in m && c !in ordered
    requires ListPage(m, ordered, Newer, limit, default, Some(c)).Ok?
    ensures var rows := ListPage(m, ordered, Newer, limit, default, Some(c)).value.rows;
            && (forall k :: 0 <= k < |rows| ==> id(rows[k]) < c)
            && (j < |ordered| && ordered[j] < c ==> |rows| > 0 && id(rows[0]) >= ordered[j])
  {
    var lim := CheckLimit(limit, default).value;
    ListPageRows(m, ordered, Newer, limit, default, Some(c));
    ExcludedCursorNewestFirst(m, ordered, c, lim, j);
  }
}
