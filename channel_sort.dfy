/**
 * `sortChannel` on a numeric column. The comparator puts larger keys first
 * and reports equal keys as equal, and `Array.prototype.sort` is stable, so
 * the sorted array is the stable descending sort defined here by insertion.
 * If that leaves the original first row on top, the array is reversed,
 * which turns a second click on the same column into an ascending sort.
 */
module ChannelSort {
  import opened ChannelModel
  import JsArray

  /** The numeric columns a row can be sorted on. */
  datatype SortKey = ById | ByStatus | ByPriority | ByWeight | ByResponseTime

  /** `a[key]` for a numeric column. */
  function KeyOf(c: Channel, k: SortKey): int
  {
    match k
    case ById => c.id
    case ByStatus => c.status
    case ByPriority => c.priority
    case ByWeight => c.weight
    case ByResponseTime => c.responseTimeMs
  }

  /** The sort key of a column, as a function of the row. */
  function Column(k: SortKey): Channel -> int
  {
    c => KeyOf(c, k)
  }

  ghost predicate SortedDesc(s: seq<Channel>, key: Channel -> int) {
    forall i, j :: 0 <= i < j < |s| ==> key(s[i]) >= key(s[j])
  }

  ghost predicate SortedAsc(s: seq<Channel>, key: Channel -> int) {
    forall i, j :: 0 <= i < j < |s| ==> key(s[i]) <= key(s[j])
  }

  /**
   * Inserts `x` into `t` behind every element whose key is at least its own,
   * scanning from the back as an insertion sort does.
   */
  function Insert(t: seq<Channel>, x: Channel, key: Channel -> int): seq<Channel>
  {
    if t == [] then [x]
    else if key(t[|t| - 1]) >= key(x) then t + [x]
    else Insert(t[..|t| - 1], x, key) + [t[|t| - 1]]
  }

  /** The stable descending sort: insert each element, in order, into the sorted prefix. */
  function SortDesc(s: seq<Channel>, key: Channel -> int): seq<Channel>
  {
    if s == [] then [] else Insert(SortDesc(s[..|s| - 1], key), s[|s| - 1], key)
  }

  /** The first row, in the original order, that carries the largest key. */
  function FirstMaxIndex(s: seq<Channel>, key: Channel -> int): (i: nat)
    requires s != []
    ensures i < |s|
    ensures forall j :: 0 <= j < |s| ==> key(s[j]) <= key(s[i])
    ensures forall j :: 0 <= j < i ==> key(s[j]) < key(s[i])
  {
    if |s| == 1 then 0
    else
      var i := FirstMaxIndex(s[..|s| - 1], key);
      if key(s[i]) >= key(s[|s| - 1]) then i else |s| - 1
  }

  /** What `sortChannel` stores for a numeric column. */
  function SortChannelResult(rows: seq<Channel>, key: Channel -> int): seq<Channel>
  {
    if rows == [] then rows
    else
      var sorted := SortDesc(rows, key);
      if sorted[0].id == rows[0].id then JsArray.Reverse(sorted) else sorted
  }

  /** Every row of `s` has a key of at least `v`. */
  ghost predicate KeysAtLeast(s: seq<Channel>, v: int, key: Channel -> int) {
    forall c :: c in s ==> key(c) >= v
  }

  lemma {:induction false} InsertPermutes(t: seq<Channel>, x: Channel, key: Channel -> int)
    ensures multiset(Insert(t, x, key)) == multiset(t) + multiset{x}
    ensures |Insert(t, x, key)| == |t| + 1
  {
    if t != [] && key(t[|t| - 1]) < key(x) {
      var init := t[..|t| - 1];
      InsertPermutes(init, x, key);
      assert t == init + [t[|t| - 1]];
    }
  }

  lemma {:induction false} InsertKeysAtLeast(t: seq<Channel>, x: Channel, v: int, key: Channel -> int)
    requires KeysAtLeast(t, v, key) && key(x) >= v
    ensures KeysAtLeast(Insert(t, x, key), v, key)
  {
    if t != [] && key(t[|t| - 1]) < key(x) {
      var init := t[..|t| - 1];
      assert forall c :: c in init ==> c in t;
      InsertKeysAtLeast(init, x, v, key);
    }
  }

  lemma {:induction false} InsertSorted(t: seq<Channel>, x: Channel, key: Channel -> int)
    requires SortedDesc(t, key)
    ensures SortedDesc(Insert(t, x, key), key)
  {
    if t != [] && key(t[|t| - 1]) < key(x) {
      var init, last := t[..|t| - 1], t[|t| - 1];
      InsertSorted(init, x, key);
      assert KeysAtLeast(init, key(last), key) by {
        forall c | c in init ensures key(c) >= key(last) {
          var m :| 0 <= m < |init| && init[m] == c;
          assert t[m] == c;
        }
      }
      InsertKeysAtLeast(init, x, key(last), key);
      var r := Insert(init, x, key);
      forall i, j | 0 <= i < j < |r| + 1 ensures key((r + [last])[i]) >= key((r + [last])[j]) {
        if j == |r| {
          assert (r + [last])[i] == r[i] && r[i] in r;
        }
      }
    }
  }

  /** The stable sort orders by non-increasing key and only reorders the rows. */
  lemma {:induction false} SortDescSortedPermutes(s: seq<Channel>, key: Channel -> int)
    ensures SortedDesc(SortDesc(s, key), key)
    ensures multiset(SortDesc(s, key)) == multiset(s)
    ensures |SortDesc(s, key)| == |s|
  {
    if s != [] {
      var init, last := s[..|s| - 1], s[|s| - 1];
      var t := SortDesc(init, key);
      assert SortDesc(s, key) == Insert(t, last, key);
      SortDescSortedPermutes(init, key);
      InsertPermutes(t, last, key);
      InsertSorted(t, last, key);
      assert multiset(s) == multiset(init) + multiset{last} by {
        assert s == init + [last];
      }
    }
  }

  /** Sorting a list that is already in non-increasing order leaves it as it is. */
  lemma {:induction false} SortDescOfSorted(s: seq<Channel>, key: Channel -> int)
    requires SortedDesc(s, key)
    ensures SortDesc(s, key) == s
  {
    if s != [] {
      var init := s[..|s| - 1];
      assert SortedDesc(init, key);
      SortDescOfSorted(init, key);
      assert s == init + [s[|s| - 1]];
    }
  }

  lemma {:induction false} InsertHead(t: seq<Channel>, x: Channel, key: Channel -> int)
    requires SortedDesc(t, key)
    ensures Insert(t, x, key)[0] == if t != [] && key(t[0]) >= key(x) then t[0] else x
  {
    InsertPermutes(t, x, key);
    if |t| > 1 && key(t[|t| - 1]) < key(x) {
      InsertHead(t[..|t| - 1], x, key);
    }
  }

  /**
   * Stability at the top: the row the sort puts first is the first row of
   * the input that carries the largest key.
   */
  lemma {:induction false} SortDescHead(s: seq<Channel>, key: Channel -> int)
    requires s != []
    ensures SortDesc(s, key)[0] == s[FirstMaxIndex(s, key)]
  {
    if |s| > 1 {
      var init, x := s[..|s| - 1], s[|s| - 1];
      SortDescHead(init, key);
      SortDescSortedPermutes(init, key);
      InsertHead(SortDesc(init, key), x, key);
    }
  }

  /** The rows of `s` whose key is `v`, in their order in `s`. */
  function WithKey(s: seq<Channel>, v: int, key: Channel -> int): seq<Channel>
  {
    if s == [] then []
    else WithKey(s[..|s| - 1], v, key) + (if key(s[|s| - 1]) == v then [s[|s| - 1]] else [])
  }

  lemma {:induction false} InsertKeepsTies(t: seq<Channel>, x: Channel, v: int, key: Channel -> int)
    ensures WithKey(Insert(t, x, key), v, key) == WithKey(t, v, key) + (if key(x) == v then [x] else [])
  {
    if t == [] {
      assert WithKey([x], v, key) == WithKey([], v, key) + (if key(x) == v then [x] else []);
    } else if key(t[|t| - 1]) >= key(x) {
      assert (t + [x])[..|t|] == t;
    } else {
      var init, last := t[..|t| - 1], t[|t| - 1];
      var r := Insert(init, x, key);
      InsertKeepsTies(init, x, v, key);
      assert (r + [last])[..|r|] == r;
      assert WithKey(r + [last], v, key) == WithKey(r, v, key) + (if key(last) == v then [last] else []);
    }
  }

  /**
   * Stability: for every key value, the rows carrying it come out of the sort
   * in the order they had in the input.
   */
  lemma {:induction false} SortDescStable(s: seq<Channel>, v: int, key: Channel -> int)
    ensures WithKey(SortDesc(s, key), v, key) == WithKey(s, v, key)
  {
    if s != [] {
      var init, last := s[..|s| - 1], s[|s| - 1];
      SortDescStable(init, v, key);
      InsertKeepsTies(SortDesc(init, key), last, v, key);
    }
  }

  lemma ReverseSortedDesc(s: seq<Channel>, key: Channel -> int)
    requires SortedDesc(s, key)
    ensures SortedAsc(JsArray.Reverse(s), key)
  {
    var r := JsArray.Reverse(s);
    forall i, j | 0 <= i < j < |r| ensures key(r[i]) <= key(r[j]) {
      assert r[i] == s[|s| - 1 - i] && r[j] == s[|s| - 1 - j];
    }
  }

  /**
   * `sortChannel` keeps an empty list, otherwise only reorders the rows, and
   * leaves them in descending key order, or, exactly when the first row with
   * the largest key has the original first row's id, in ascending order.
   */
  lemma SortChannelSpec(rows: seq<Channel>, key: Channel -> int)
    ensures rows == [] ==> SortChannelResult(rows, key) == []
    ensures multiset(SortChannelResult(rows, key)) == multiset(rows)
    ensures rows != [] && rows[FirstMaxIndex(rows, key)].id == rows[0].id ==>
      SortChannelResult(rows, key) == JsArray.Reverse(SortDesc(rows, key)) && SortedAsc(SortChannelResult(rows, key), key)
    ensures rows != [] && rows[FirstMaxIndex(rows, key)].id != rows[0].id ==>
      SortChannelResult(rows, key) == SortDesc(rows, key) && SortedDesc(SortChannelResult(rows, key), key)
  {
    SortDescSortedPermutes(rows, key);
    if rows != [] {
      SortDescHead(rows, key);
      JsArray.ReversePermutes(SortDesc(rows, key));
      ReverseSortedDesc(SortDesc(rows, key), key);
    }
  }

  /** Sorting a list that is already in descending order turns it around: the direction toggle. */
  lemma SortChannelToggles(rows: seq<Channel>, key: Channel -> int)
    requires SortedDesc(rows, key)
    ensures SortChannelResult(rows, key) == JsArray.Reverse(rows)
  {
    SortDescOfSorted(rows, key);
  }

  /**
   * Insertion by its split point: `x` lands right after the last element
   * whose key is at least its own, when every later element has a smaller key.
   */
  lemma {:induction false} InsertSplit(t: seq<Channel>, x: Channel, key: Channel -> int, j: nat)
    requires j <= |t|
    requires j == 0 || key(t[j - 1]) >= key(x)
    requires forall m :: j <= m < |t| ==> key(t[m]) < key(x)
    ensures Insert(t, x, key) == t[..j] + [x] + t[j..]
    decreases |t|
  {
    if j < |t| {
      var init := t[..|t| - 1];
      InsertSplit(init, x, key, j);
      assert init[..j] == t[..j] && init[j..] + [t[|t| - 1]] == t[j..];
    }
  }

  /** One pass of the insertion sort: moves `a[i]` into the sorted prefix `a[..i]`. */
  method InsertAt(a: array<Channel>, i: nat, key: Channel -> int)
    requires i < a.Length
    modifies a
    ensures a[..i + 1] == Insert(old(a[..i]), old(a[i]), key)
    ensures a[i + 1..] == old(a[i + 1..])
  {
    ghost var orig := a[..];
    ghost var t := orig[..i];
    var x := a[i];
    var kx := key(x);
    var j := i;
    while j > 0 && key(a[j - 1]) < kx
      invariant 0 <= j <= i
      invariant forall m :: 0 <= m < j ==> a[m] == orig[m]
      invariant forall m :: j < m <= i ==> a[m] == orig[m - 1]
      invariant forall m :: i < m < a.Length ==> a[m] == orig[m]
      invariant forall m :: j <= m < i ==> key(orig[m]) < kx
    {
      a[j] := a[j - 1];
      j := j - 1;
    }
    a[j] := x;
    InsertSplit(t, x, key, j);
    SplicedPrefix(orig, a[..], i, j);
  }

  lemma SplicedPrefix(orig: seq<Channel>, s: seq<Channel>, i: nat, j: nat)
    requires j <= i < |s| == |orig|
    requires forall m :: 0 <= m < j ==> s[m] == orig[m]
    requires s[j] == orig[i]
    requires forall m :: j < m <= i ==> s[m] == orig[m - 1]
    requires forall m :: i < m < |s| ==> s[m] == orig[m]
    ensures s[..i + 1] == orig[..i][..j] + [orig[i]] + orig[..i][j..]
    ensures s[i + 1..] == orig[i + 1..]
  {
  }

  /** `sortedChannels.sort(comparator)`: a stable insertion sort, in place. */
  method SortInPlace(a: array<Channel>, key: Channel -> int)
    modifies a
    ensures a[..] == SortDesc(old(a[..]), key)
  {
    ghost var orig := a[..];
    var i := 0;
    while i < a.Length
      invariant 0 <= i <= a.Length
      invariant a[..i] == SortDesc(orig[..i], key)
      invariant a[i..] == orig[i..]
    {
      InsertAt(a, i, key);
      assert orig[..i + 1][..i] == orig[..i];
      i := i + 1;
    }
    assert orig[..a.Length] == orig;
  }

  /**
   * The body of `sortChannel` for a non-empty list: copy, sort in place,
   * and reverse if the first row kept its id.
   */
  method SortedCopy(rows: seq<Channel>, k: SortKey) returns (r: seq<Channel>)
    requires rows != []
    ensures r == SortChannelResult(rows, Column(k))
  {
    var sorted := new Channel[|rows|](i requires 0 <= i < |rows| => rows[i]);
    assert sorted[..] == rows;
    SortInPlace(sorted, Column(k));
    if sorted[0].id == rows[0].id {
      JsArray.ReverseInPlace(sorted);
    }
    r := sorted[..];
  }
}
