/**
 * The client-side bookkeeping of the channel table: the list of rows the
 * browser has loaded, the page size, the active page and the row total
 * handed to the pager. Server replies are parameters; every state update is
 * applied at once.
 */
module ChannelsTable {
  import opened Wrappers
  import opened ChannelModel
  import JsArray
  import JsNumber
  import ChannelSort

  /** The part of a `GET /api/channel/` reply the table reads. */
  datatype ListReply = ListReply(success: bool, data: seq<Channel>)

  /** The part of a `PUT`/`DELETE /api/channel/` reply the table reads: the flag and the stored row's status. */
  datatype ManageReply = ManageReply(success: bool, status: int)

  /** The part of a channel test reply the table reads: the flag and the measured time, in whole milliseconds. */
  datatype TestReply = TestReply(success: bool, timeMs: int)

  // ---------------------------------------------------------------- keys

  /** Every row of the list carries the key its id gives it. */
  ghost predicate KeysStamped(rows: seq<Channel>) {
    forall c :: c in rows ==> c.key == JsNumber.ToString(c.id)
  }

  /** The rows after `setChannelFormat`'s loop: each key restamped from the id. */
  function Formatted(rows: seq<Channel>): seq<Channel>
  {
    seq(|rows|, i requires 0 <= i < |rows| => rows[i].(key := JsNumber.ToString(rows[i].id)))
  }

  /**
   * Formatting leaves the rows and their order alone except for the key,
   * which then identifies the row's id (so distinct ids give distinct keys),
   * and formatting twice is formatting once.
   */
  lemma FormattedSpec(rows: seq<Channel>)
    ensures |Formatted(rows)| == |rows|
    ensures KeysStamped(Formatted(rows))
    ensures forall i :: 0 <= i < |rows| ==> Formatted(rows)[i].(key := rows[i].key) == rows[i]
    ensures forall i, j :: 0 <= i < |rows| && 0 <= j < |rows| ==>
      (Formatted(rows)[i].key == Formatted(rows)[j].key <==> rows[i].id == rows[j].id)
    ensures Formatted(Formatted(rows)) == Formatted(rows)
  {
    var f := Formatted(rows);
    forall c | c in f ensures c.key == JsNumber.ToString(c.id) {
      var m :| 0 <= m < |f| && f[m] == c;
    }
    forall i, j | 0 <= i < |rows| && 0 <= j < |rows|
      ensures f[i].key == f[j].key <==> rows[i].id == rows[j].id
    {
      JsNumber.ToStringInjective(rows[i].id, rows[j].id);
    }
  }

  /** Formatting a page of the list is the same as taking that page of the formatted list. */
  lemma FormattedSlice(rows: seq<Channel>, from: nat, to: nat)
    requires from <= to <= |rows|
    ensures Formatted(rows)[from..to] == Formatted(rows[from..to])
  {
  }

  /** `channelCount` after `setChannelFormat`: one page more than loaded once a full page is loaded. */
  function ChannelCount(len: nat, pageSize: nat): nat
  {
    if len >= pageSize then len + pageSize else len
  }

  // ---------------------------------------------------------------- removal

  /** The list without its first row carrying `id`, or the list itself when no row does. */
  function RemoveFirst(rows: seq<Channel>, id: int): seq<Channel>
  {
    if rows == [] then []
    else if rows[0].id == id then rows[1..]
    else [rows[0]] + RemoveFirst(rows[1..], id)
  }

  /** The `findIndex` predicate of `removeRecord`. */
  function HasId(id: int): Channel -> bool
  {
    (c: Channel) => c.id == id
  }

  /** The independent definition agrees with `findIndex`: it cuts the list at that index. */
  lemma {:induction false} RemoveFirstAtFindIndex(rows: seq<Channel>, id: int)
    ensures var i := JsArray.FindIndex(rows, HasId(id));
      RemoveFirst(rows, id) == if i == -1 then rows else rows[..i] + rows[i + 1..]
  {
    if rows != [] && rows[0].id != id {
      RemoveFirstAtFindIndex(rows[1..], id);
      RemoveFirstCons(rows, id, JsArray.FindIndex(rows[1..], HasId(id)));
    }
  }

  /** The step of `RemoveFirstAtFindIndex` past a leading row with another id. */
  lemma RemoveFirstCons(rows: seq<Channel>, id: int, k: int)
    requires rows != [] && rows[0].id != id
    requires k == JsArray.FindIndex(rows[1..], HasId(id))
    requires RemoveFirst(rows[1..], id) == if k == -1 then rows[1..] else rows[1..][..k] + rows[1..][k + 1..]
    ensures var i := JsArray.FindIndex(rows, HasId(id));
      RemoveFirst(rows, id) == if i == -1 then rows else rows[..i] + rows[i + 1..]
  {
    assert JsArray.FindIndex(rows, HasId(id)) == if k == -1 then -1 else k + 1 by {
      assert !HasId(id)(rows[0]);
    }
    if k >= 0 {
      ConsCut(rows, k);
    }
  }

  /** Cutting position `k` out of the tail and putting the head back cuts position `k + 1`. */
  lemma ConsCut(rows: seq<Channel>, k: nat)
    requires k + 1 < |rows|
    ensures [rows[0]] + (rows[1..][..k] + rows[1..][k + 1..]) == rows[..k + 1] + rows[k + 2..]
  {
    assert rows[1..][..k] == rows[1..k + 1];
    assert rows[1..][k + 1..] == rows[k + 2..];
    assert [rows[0]] + rows[1..k + 1] == rows[..k + 1];
  }

  /**
   * `removeRecord`'s splice at the `findIndex` position removes exactly the
   * first row with the id: one row fewer, the rest in their order; and with
   * no such row the list is unchanged.
   */
  lemma RemoveFirstSpec(rows: seq<Channel>, id: int)
    ensures var i := JsArray.FindIndex(rows, HasId(id));
      && (i == -1 ==> RemoveFirst(rows, id) == rows)
      && (i >= 0 ==>
            && RemoveFirst(rows, id) == JsArray.Splice(rows, i, 1, [])
            && |RemoveFirst(rows, id)| == |rows| - 1
            && multiset(RemoveFirst(rows, id)) + multiset{rows[i]} == multiset(rows))
  {
    RemoveFirstAtFindIndex(rows, id);
    var i := JsArray.FindIndex(rows, HasId(id));
    if i >= 0 {
      CutAt(rows, i);
    }
  }

  /** Cutting out position `i` is the one-element splice there, and loses exactly that element. */
  lemma CutAt(rows: seq<Channel>, i: nat)
    requires i < |rows|
    ensures JsArray.Splice(rows, i, 1, []) == rows[..i] + rows[i + 1..]
    ensures multiset(rows[..i] + rows[i + 1..]) + multiset{rows[i]} == multiset(rows)
  {
    assert JsArray.RelativeIndex(i, |rows|) == i && JsArray.SpliceCount(|rows|, i, 1) == 1;
    assert rows == rows[..i] + [rows[i]] + rows[i + 1..];
  }

  /** Removing a row keeps every remaining row's key stamped. */
  lemma {:induction false} RemoveFirstKeepsKeys(rows: seq<Channel>, id: int)
    requires KeysStamped(rows)
    ensures KeysStamped(RemoveFirst(rows, id))
  {
    RemoveFirstSpec(rows, id);
    var r := RemoveFirst(rows, id);
    forall c | c in r ensures c in rows {
      assert c in multiset(r);
    }
  }

  // ---------------------------------------------------------------- loading

  /**
   * The list `loadChannels` hands to `setChannelFormat`: the fetched page on
   * its own for page 0, otherwise the current list with the fetched rows
   * spliced in at `startIdx * size`.
   */
  function Merged(rows: seq<Channel>, startIdx: int, size: int, data: seq<Channel>): seq<Channel>
  {
    if startIdx == 0 then data else JsArray.Splice(rows, startIdx * size, |data|, data)
  }

  /**
   * Loading page 0 replaces the list. Loading a later page keeps the rows
   * before the splice point, puts the fetched rows there, and drops only as
   * many old rows after it as were fetched.
   */
  lemma MergedSpec(rows: seq<Channel>, startIdx: int, size: int, data: seq<Channel>)
    ensures startIdx == 0 ==> Merged(rows, startIdx, size, data) == data
    ensures startIdx != 0 ==>
      var s := JsArray.RelativeIndex(startIdx * size, |rows|);
      var d := if |data| < |rows| - s then |data| else |rows| - s;
      && Merged(rows, startIdx, size, data) == rows[..s] + data + rows[s + d..]
      && Merged(rows, startIdx, size, data)[..s] == rows[..s]
      && |Merged(rows, startIdx, size, data)| == (if |rows| < s + |data| then s + |data| else |rows|)
  {
  }

  /**
   * Fetching a page that starts inside the loaded list (or right at its end)
   * a second time, with the same reply, changes nothing more.
   */
  lemma MergedIdempotent(rows: seq<Channel>, startIdx: int, size: int, data: seq<Channel>)
    requires 0 <= startIdx * size <= |rows|
    ensures Merged(Merged(rows, startIdx, size, data), startIdx, size, data) == Merged(rows, startIdx, size, data)
  {
    if startIdx != 0 {
      var once := Merged(rows, startIdx, size, data);
      var s := startIdx * size;
      MergedSpec(rows, startIdx, size, data);
      MergedSpec(once, startIdx, size, data);
      assert JsArray.RelativeIndex(startIdx * size, |once|) == s;
      var d := if |data| < |rows| - s then |data| else |rows| - s;
      assert once[s + |data|..] == rows[s + d..];
    }
  }

  // ---------------------------------------------------------------- paging

  /** `channels.slice((activePage - 1) * pageSize, activePage * pageSize)` */
  function PageWindow(rows: seq<Channel>, page: int, pageSize: nat): seq<Channel>
  {
    JsArray.Slice(rows, (page - 1) * pageSize, page * pageSize)
  }

  /**
   * The rows a page shows: positions `(page - 1) * pageSize` up to
   * `page * pageSize`, cut off at the end of the list, in order.
   */
  lemma PageWindowSpec(rows: seq<Channel>, page: int, pageSize: nat)
    requires page >= 1
    ensures var from := if (page - 1) * pageSize < |rows| then (page - 1) * pageSize else |rows|;
      var to := if page * pageSize < |rows| then page * pageSize else |rows|;
      && PageWindow(rows, page, pageSize) == rows[from..to]
      && |PageWindow(rows, page, pageSize)| <= pageSize
  {
    MulNonNegative(page - 1, pageSize);
    assert page * pageSize == (page - 1) * pageSize + pageSize;
  }

  /** Position `i` of a page's window is position `(page - 1) * pageSize + i` of the list; page 0 is empty. */
  lemma PageWindowAt(rows: seq<Channel>, page: int, pageSize: nat)
    ensures page >= 1 ==> |PageWindow(rows, page, pageSize)| <= pageSize
    ensures page >= 1 ==> forall i :: 0 <= i < |PageWindow(rows, page, pageSize)| ==>
      (page - 1) * pageSize + i < |rows| && PageWindow(rows, page, pageSize)[i] == rows[(page - 1) * pageSize + i]
    ensures page == 0 ==> PageWindow(rows, page, pageSize) == []
  {
    if page >= 1 {
      PageWindowSpec(rows, page, pageSize);
      var from := (page - 1) * pageSize;
      MulNonNegative(page - 1, pageSize);
      var w := PageWindow(rows, page, pageSize);
      if w != [] {
        assert from < |rows|;
        assert w == rows[from..from + |w|];
      }
    }
  }

  lemma MulNonNegative(a: int, b: nat)
    requires a >= 0
    ensures a * b >= 0
  {
  }

  /** Pages 1 to `n` laid end to end are the first `n * pageSize` rows: the pages tile the list. */
  lemma {:induction false} PagesTile(rows: seq<Channel>, n: nat, pageSize: nat)
    ensures Pages(rows, n, pageSize) == rows[..if n * pageSize < |rows| then n * pageSize else |rows|]
  {
    if n > 0 {
      PagesTile(rows, n - 1, pageSize);
      PageWindowSpec(rows, n, pageSize);
      MulNonNegative(n - 1, pageSize);
      assert n * pageSize == (n - 1) * pageSize + pageSize;
    }
  }

  /** The first `n` page windows, concatenated. */
  function Pages(rows: seq<Channel>, n: nat, pageSize: nat): seq<Channel>
  {
    if n == 0 then [] else Pages(rows, n - 1, pageSize) + PageWindow(rows, n, pageSize)
  }

  /** `handlePageChange`'s test: the chosen page is the one just past the loaded rows. */
  predicate ShouldLoad(page: int, len: nat, pageSize: nat)
    requires pageSize > 0
  {
    page == JsNumber.CeilDiv(len, pageSize) + 1
  }

  /**
   * A page is fetched exactly when the rows loaded so far end inside the page
   * before it, or exactly where it ends.
   */
  lemma ShouldLoadSpec(page: int, len: nat, pageSize: nat)
    requires pageSize > 0
    ensures ShouldLoad(page, len, pageSize) <==> (page - 2) * pageSize < len <= (page - 1) * pageSize
  {
    JsNumber.CeilDivUnique(len, pageSize, page - 1);
  }

  /**
   * The pager's total is one page past the loaded rows once a full page is
   * loaded, and then its last page is exactly the one whose choice triggers a
   * fetch; with less than a page loaded no page the pager offers triggers one.
   */
  lemma PagerOffersNextPage(len: nat, pageSize: nat)
    requires pageSize > 0
    ensures len >= pageSize ==>
      JsNumber.CeilDiv(ChannelCount(len, pageSize), pageSize) == JsNumber.CeilDiv(len, pageSize) + 1
    ensures forall page :: 1 <= page <= JsNumber.CeilDiv(ChannelCount(len, pageSize), pageSize) ==>
      (ShouldLoad(page, len, pageSize) <==>
        len >= pageSize && page == JsNumber.CeilDiv(ChannelCount(len, pageSize), pageSize))
  {
    if len >= pageSize {
      var c := JsNumber.CeilDiv(len, pageSize);
      assert (c + 1 - 1) * pageSize < len + pageSize <= (c + 1) * pageSize by {
        assert (c + 1) * pageSize == c * pageSize + pageSize;
      }
      JsNumber.CeilDivUnique(len + pageSize, pageSize, c + 1);
    }
  }

  /** On a list of whole pages, the page that triggers a fetch starts right at the end of the list. */
  lemma FetchStartsAtEnd(len: nat, page: int, pageSize: nat)
    requires pageSize > 0
    requires ShouldLoad(page, len, pageSize) && len % pageSize == 0
    ensures len == (page - 1) * pageSize
  {
    var q := len / pageSize;
    assert len == q * pageSize;
    JsNumber.CeilDivUnique(len, pageSize, q);
  }

  /** The window of a page that starts at position `from`. */
  lemma WindowFrom(rows: seq<Channel>, page: int, pageSize: nat, from: nat)
    requires page >= 1 && from == (page - 1) * pageSize && from <= |rows|
    ensures PageWindow(rows, page, pageSize) == rows[from..if from + pageSize < |rows| then from + pageSize else |rows|]
  {
    PageWindowSpec(rows, page, pageSize);
    assert page * pageSize == (page - 1) * pageSize + pageSize;
  }

  /** A page fetched right at the end of the list is appended to it. */
  lemma MergedAtEnd(rows: seq<Channel>, page: int, pageSize: nat, data: seq<Channel>)
    requires page >= 1 && |rows| == (page - 1) * pageSize
    ensures Merged(rows, page - 1, pageSize, data) == rows + data
  {
    if page > 1 {
      assert JsArray.RelativeIndex((page - 1) * pageSize, |rows|) == |rows|;
      MergedSpec(rows, page - 1, pageSize, data);
    }
  }

  /** The page window just past `rows`, over `rows + data` formatted, is the formatted head of `data`. */
  lemma WindowPastEnd(rows: seq<Channel>, page: int, pageSize: nat, data: seq<Channel>)
    requires page >= 1 && |rows| == (page - 1) * pageSize
    ensures PageWindow(Formatted(rows + data), page, pageSize)
      == Formatted(data[..if |data| < pageSize then |data| else pageSize])
  {
    var len := |rows|;
    var to := if |data| < pageSize then |data| else pageSize;
    WindowFrom(Formatted(rows + data), page, pageSize, len);
    FormattedSlice(rows + data, len, len + to);
    assert (rows + data)[len..len + to] == data[..to];
  }

  /**
   * When a fetch is triggered on a list of whole pages, the page the user
   * chose then shows the first `pageSize` fetched rows, keys stamped.
   */
  lemma FetchedPageShown(rows: seq<Channel>, page: int, pageSize: nat, data: seq<Channel>)
    requires pageSize > 0 && page >= 1
    requires ShouldLoad(page, |rows|, pageSize) && |rows| % pageSize == 0
    ensures PageWindow(Formatted(Merged(rows, page - 1, pageSize, data)), page, pageSize)
      == Formatted(data[..if |data| < pageSize then |data| else pageSize])
  {
    FetchStartsAtEnd(|rows|, page, pageSize);
    MergedAtEnd(rows, page, pageSize, data);
    WindowPastEnd(rows, page, pageSize, data);
  }

  /**
   * A list that ends partway through a page: with 15 rows loaded and pages of
   * 10, choosing page 3 triggers the fetch of the server's rows 20 to 29, but
   * they are spliced in at the end of the list, so page 3 shows only the last
   * 5 of them and the first 5 fill the rest of page 2.
   */
  lemma PartialPageMisplaced(rows: seq<Channel>, data: seq<Channel>)
    requires |rows| == 15 && |data| == 10
    ensures ShouldLoad(3, |rows|, 10)
    ensures Merged(rows, 2, 10, data)[15..20] == data[..5]
    ensures PageWindow(Merged(rows, 2, 10, data), 3, 10) == data[5..]
  {
    JsNumber.CeilDivUnique(15, 10, 2);
    var m := Merged(rows, 2, 10, data);
    assert m == rows + data by {
      assert JsArray.RelativeIndex(20, 15) == 15 && JsArray.SpliceCount(15, 20, 10) == 0;
    }
    assert m[20..25] == data[5..];
  }

  /**
   * After the page size shrinks below the number of rows fetched, the total
   * computed with the previous, larger page size is just the row count, so
   * none of the pages the pager offers triggers a fetch of further rows.
   */
  lemma StaleTotalHidesNextPage(len: nat, oldSize: nat, newSize: nat)
    requires 0 < newSize <= len < oldSize
    ensures ChannelCount(len, oldSize) == len
    ensures JsNumber.CeilDiv(ChannelCount(len, oldSize), newSize) == JsNumber.CeilDiv(len, newSize)
    ensures forall page :: 1 <= page <= JsNumber.CeilDiv(ChannelCount(len, oldSize), newSize) ==>
      !ShouldLoad(page, len, newSize)
    ensures JsNumber.CeilDiv(ChannelCount(len, newSize), newSize) == JsNumber.CeilDiv(len, newSize) + 1
  {
    PagerOffersNextPage(len, newSize);
  }

  // ---------------------------------------------------------------- the table

  /** The state of the channel table component. */
  class Table {
    var channels: seq<Channel>
    var pageSize: nat
    var activePage: int
    var channelCount: nat

    ghost predicate Valid()
      reads this
    {
      pageSize > 0
    }

    /** The component's initial state, before the first load. */
    constructor (itemsPerPage: nat)
      requires itemsPerPage > 0
      ensures Valid()
      ensures channels == [] && pageSize == itemsPerPage && activePage == 1
      ensures channelCount == itemsPerPage
      ensures KeysStamped(channels)
    {
      channels, pageSize, activePage := [], itemsPerPage, 1;
      channelCount := itemsPerPage;
    }

    /** `pageData`: the rows the table shows. */
    function PageData(): (r: seq<Channel>)
      reads this
      requires Valid()
      ensures activePage >= 1 ==> |r| <= pageSize
      ensures activePage >= 1 ==> forall i :: 0 <= i < |r| ==>
        (activePage - 1) * pageSize + i < |channels| && r[i] == channels[(activePage - 1) * pageSize + i]
      ensures activePage >= 1 ==>
        var from := if (activePage - 1) * pageSize < |channels| then (activePage - 1) * pageSize else |channels|;
        var to := if activePage * pageSize < |channels| then activePage * pageSize else |channels|;
        r == channels[from..to]
      ensures activePage == 0 ==> r == []
    {
      if activePage >= 1 then
        PageWindowSpec(channels, activePage, pageSize);
        PageWindowAt(channels, activePage, pageSize);
        PageWindow(channels, activePage, pageSize)
      else
        PageWindowAt(channels, activePage, pageSize);
        PageWindow(channels, activePage, pageSize)
    }

    /** `removeRecord` */
    method RemoveRecord(id: Option<int>)
      requires Valid()
      modifies this
      ensures Valid()
      ensures channels == if id.Some? then RemoveFirst(old(channels), id.value) else old(channels)
      ensures KeysStamped(old(channels)) ==> KeysStamped(channels)
      ensures pageSize == old(pageSize) && activePage == old(activePage)
      ensures channelCount == old(channelCount)
    {
      if id.Some? {
        RemoveFirstSpec(channels, id.value);
        if KeysStamped(channels) {
          RemoveFirstKeepsKeys(channels, id.value);
        }
        var idx := JsArray.FindIndex(channels, HasId(id.value));
        if idx > -1 {
          channels := JsArray.Splice(channels, idx, 1, []);
        }
      }
    }

    /** `setChannelFormat` */
    method SetChannelFormat(rows: seq<Channel>)
      requires Valid()
      modifies this
      ensures Valid()
      ensures channels == Formatted(rows) && KeysStamped(channels)
      ensures channelCount == ChannelCount(|rows|, pageSize)
      ensures pageSize == old(pageSize) && activePage == old(activePage)
    {
      var formatted := rows;
      for i := 0 to |formatted|
        invariant |formatted| == |rows|
        invariant forall j :: 0 <= j < i ==> formatted[j] == rows[j].(key := JsNumber.ToString(rows[j].id))
        invariant forall j :: i <= j < |rows| ==> formatted[j] == rows[j]
      {
        formatted := formatted[i := formatted[i].(key := JsNumber.ToString(formatted[i].id))];
      }
      FormattedSpec(rows);
      channels := formatted;
      if |formatted| >= pageSize {
        channelCount := |formatted| + pageSize;
      } else {
        channelCount := |formatted|;
      }
    }

    /** `loadChannels(startIdx, size, idSort)` with the server's reply. */
    method LoadChannels(startIdx: int, size: int, reply: ListReply)
      requires Valid()
      modifies this
      ensures Valid()
      ensures reply.success ==>
        && channels == Formatted(Merged(old(channels), startIdx, size, reply.data))
        && KeysStamped(channels)
        && channelCount == ChannelCount(|channels|, pageSize)
      ensures !reply.success ==> channels == old(channels) && channelCount == old(channelCount)
      ensures pageSize == old(pageSize) && activePage == old(activePage)
    {
      if reply.success {
        if startIdx == 0 {
          SetChannelFormat(reply.data);
        } else {
          var newChannels := JsArray.Splice(channels, startIdx * size, |reply.data|, reply.data);
          SetChannelFormat(newChannels);
        }
      }
    }

    /** `refresh`: reload the active page. */
    method Refresh(reply: ListReply)
      requires Valid()
      modifies this
      ensures Valid()
      ensures reply.success ==> channels == Formatted(Merged(old(channels), old(activePage) - 1, pageSize, reply.data))
      ensures reply.success ==> KeysStamped(channels) && channelCount == ChannelCount(|channels|, pageSize)
      ensures !reply.success ==> channels == old(channels) && channelCount == old(channelCount)
      ensures pageSize == old(pageSize) && activePage == old(activePage)
    {
      LoadChannels(activePage - 1, pageSize, reply);
    }

    /** `handlePageChange`; `reply` answers the fetch when one is made. */
    method HandlePageChange(page: int, reply: ListReply) returns (fetched: bool)
      requires Valid()
      modifies this
      ensures Valid()
      ensures activePage == page && pageSize == old(pageSize)
      ensures fetched == ShouldLoad(page, |old(channels)|, pageSize)
      ensures fetched && reply.success ==>
        && channels == Formatted(Merged(old(channels), page - 1, pageSize, reply.data))
        && KeysStamped(channels)
        && channelCount == ChannelCount(|channels|, pageSize)
      ensures !(fetched && reply.success) ==> channels == old(channels) && channelCount == old(channelCount)
    {
      activePage := page;
      fetched := page == JsNumber.CeilDiv(|channels|, pageSize) + 1;
      if fetched {
        LoadChannels(page - 1, pageSize, reply);
      }
    }

    /** `sortChannel(key)` on a numeric column. */
    method SortChannel(k: ChannelSort.SortKey)
      requires Valid()
      modifies this
      ensures Valid()
      ensures channels == ChannelSort.SortChannelResult(old(channels), ChannelSort.Column(k))
      ensures KeysStamped(old(channels)) ==> KeysStamped(channels)
      ensures pageSize == old(pageSize) && activePage == old(activePage)
      ensures channelCount == old(channelCount)
    {
      ChannelSort.SortChannelSpec(channels, ChannelSort.Column(k));
      if KeysStamped(channels) {
        PermutationKeepsKeys(channels, ChannelSort.SortChannelResult(channels, ChannelSort.Column(k)));
      }
      if |channels| == 0 {
        return;
      }
      channels := ChannelSort.SortedCopy(channels, k);
    }

    /**
     * `manageChannel(id, action, record, value)`, where `record` is the row at
     * position `at`. Returns the request sent, if any; on a successful reply to
     * anything but a delete, only that row's status changes, to the server's.
     */
    method ManageChannel(id: int, action: Action, at: nat, value: Option<int>, reply: ManageReply)
      returns (sent: Option<Request>)
      requires Valid() && at < |channels|
      modifies this
      ensures Valid()
      ensures sent == BuildRequest(id, action, value)
      ensures sent.Some? && reply.success && action != Delete ==>
        channels == old(channels)[at := old(channels)[at].(status := reply.status)]
      ensures !(sent.Some? && reply.success && action != Delete) ==> channels == old(channels)
      ensures KeysStamped(old(channels)) ==> KeysStamped(channels)
      ensures pageSize == old(pageSize) && activePage == old(activePage)
      ensures channelCount == old(channelCount)
    {
      sent := BuildRequest(id, action, value);
      if sent.None? {
        return;
      }
      if reply.success && action != Delete {
        var record := channels[at].(status := reply.status);
        assert forall c :: c in channels[at := record] ==> c == record || c in channels;
        channels := channels[at := record];
      }
    }

    /**
     * The delete button's confirmation: `manageChannel(record.id, 'delete',
     * record)` followed by `removeRecord(record.id)`. The row leaves the list
     * whatever the server replied.
     */
    method ConfirmDelete(at: nat, reply: ManageReply) returns (sent: Option<Request>)
      requires Valid() && at < |channels|
      modifies this
      ensures Valid()
      ensures sent == Some(DeleteRequest(old(channels)[at].id))
      ensures channels == RemoveFirst(old(channels), old(channels)[at].id)
      ensures |channels| == |old(channels)| - 1
      ensures KeysStamped(old(channels)) ==> KeysStamped(channels)
      ensures pageSize == old(pageSize) && activePage == old(activePage)
      ensures channelCount == old(channelCount)
    {
      var id := channels[at].id;
      RemoveFirstSpec(channels, id);
      sent := ManageChannel(id, Delete, at, None, reply);
      RemoveRecord(Some(id));
    }

    /** The enable/disable button of the row at position `at`. */
    method ToggleStatus(at: nat, reply: ManageReply) returns (sent: Option<Request>)
      requires Valid() && at < |channels|
      modifies this
      ensures Valid()
      ensures sent == Some(UpdateRequest(old(channels)[at].id,
        NewStatus(if old(channels)[at].status == StatusEnabled then StatusManuallyDisabled else StatusEnabled)))
      ensures reply.success ==> channels == old(channels)[at := old(channels)[at].(status := reply.status)]
      ensures !reply.success ==> channels == old(channels)
      ensures KeysStamped(old(channels)) ==> KeysStamped(channels)
      ensures pageSize == old(pageSize) && activePage == old(activePage)
      ensures channelCount == old(channelCount)
    {
      var record := channels[at];
      sent := ManageChannel(record.id, ToggleAction(record.status), at, None, reply);
    }

    /**
     * `searchChannels(keyword, group)`; `reply` answers the request made.
     * With both fields blank it reloads page 0. Otherwise a successful search
     * stores the matches as they come, without stamping their keys, and leaves
     * the pager total alone; the table goes back to page 1 after a reload or a
     * successful search.
     */
    method SearchChannels(keyword: string, group: string, reply: ListReply)
      requires Valid()
      modifies this
      ensures Valid()
      ensures activePage == (if (keyword == "" && group == "") || reply.success then 1 else old(activePage))
      ensures pageSize == old(pageSize)
      ensures keyword == "" && group == "" && reply.success ==>
        && channels == Formatted(reply.data)
        && KeysStamped(channels)
        && channelCount == ChannelCount(|reply.data|, pageSize)
      ensures !(keyword == "" && group == "") && reply.success ==>
        channels == reply.data && channelCount == old(channelCount)
      ensures !reply.success ==> channels == old(channels) && channelCount == old(channelCount)
    {
      if keyword == "" && group == "" {
        LoadChannels(0, pageSize, reply);
        activePage := 1;
        return;
      }
      if reply.success {
        channels := reply.data;
        activePage := 1;
      }
    }

    /**
     * `handlePageSizeChange(size)`, on a size the page-size selector offers.
     * The new size and page 1 are stored, and page 0 is fetched with `size`
     * rows. The fetch runs in the closure of the render before the change, so
     * `setChannelFormat` computes the pager total with the previous page size.
     */
    method HandlePageSizeChange(size: nat, reply: ListReply)
      requires Valid() && size > 0
      modifies this
      ensures Valid()
      ensures pageSize == size && activePage == 1
      ensures reply.success ==>
        && channels == Formatted(reply.data)
        && KeysStamped(channels)
        && channelCount == ChannelCount(|reply.data|, old(pageSize))
      ensures !reply.success ==> channels == old(channels) && channelCount == old(channelCount)
    {
      LoadChannels(0, size, reply);
      pageSize, activePage := size, 1;
    }

    /**
     * `testChannel(record)` for the row at position `at`: on success the row
     * object, which the list shares, takes the measured response time.
     */
    method TestChannel(at: nat, reply: TestReply)
      requires Valid() && at < |channels|
      modifies this
      ensures Valid()
      ensures reply.success ==> channels == old(channels)[at := old(channels)[at].(responseTimeMs := reply.timeMs)]
      ensures !reply.success ==> channels == old(channels)
      ensures KeysStamped(old(channels)) ==> KeysStamped(channels)
      ensures pageSize == old(pageSize) && activePage == old(activePage)
      ensures channelCount == old(channelCount)
    {
      if reply.success {
        var record := channels[at].(responseTimeMs := reply.timeMs);
        assert forall c :: c in channels[at := record] ==> c == record || c in channels;
        channels := channels[at := record];
      }
    }

    /**
     * `deleteAllDisabledChannels`: the server deletes the disabled channels;
     * on success the active page is reloaded, `reload` answering that fetch.
     */
    method DeleteAllDisabledChannels(deleted: bool, reload: ListReply)
      requires Valid()
      modifies this
      ensures Valid()
      ensures deleted && reload.success ==>
        && channels == Formatted(Merged(old(channels), old(activePage) - 1, pageSize, reload.data))
        && KeysStamped(channels)
        && channelCount == ChannelCount(|channels|, pageSize)
      ensures !(deleted && reload.success) ==> channels == old(channels) && channelCount == old(channelCount)
      ensures pageSize == old(pageSize) && activePage == old(activePage)
    {
      if deleted {
        Refresh(reload);
      }
    }
  }

  /** Reordering the rows keeps every key stamped. */
  lemma PermutationKeepsKeys(rows: seq<Channel>, r: seq<Channel>)
    requires KeysStamped(rows) && multiset(r) == multiset(rows)
    ensures KeysStamped(r)
  {
    forall c | c in r ensures c in rows {
      assert c in multiset(r);
    }
  }
}
