# Channel table bookkeeping, in Dafny

The admin dashboard of the LLM proxy lists its upstream "channels" in a
paginated table (`web/src/components/ChannelsTable.js`). The table renders
rows fetched from the server. Besides rendering, it keeps a small amount of
client-side state, and this project models and proves that state:

- the list of channel rows loaded so far, each with `id`, `key`, `status`,
  `priority`, `weight` and `response_time`;
- `pageSize`, `activePage` and `channelCount`, the row total given to the pager.

The project has these modules:

- `JsArray` (`js_array.dfy`): the Array built-ins the component uses.
  These are `slice`, `splice` (with ECMAScript's clamping of negative and
  out-of-range indices), `findIndex` and `reverse`, plus an in-place reversal.
- `JsNumber` (`js_number.dfy`): two number operations.
  - `'' + id` for integers, with a parser that proves the string
    determines the integer.
  - `Math.ceil(a / b)` for a row count and a positive page size.
- `ChannelModel` (`channel_model.dfy`): a row as a value, and the pure
  per-row decisions.
  - `renderStatus` and `renderResponseTime`, as tag colour and caption,
    without the seconds text.
  - `handleRow`.
  - The enable/disable button.
  - The request `manageChannel` builds.
- `ChannelSort` (`channel_sort.dfy`): `sortChannel` on a numeric column.
  - The comparator puts larger keys first.
  - `Array.prototype.sort` is stable, so the sort is a descending
    insertion sort, done in place on an array. It is proved stable: rows
    with equal keys keep their input order.
  - The array is then reversed when its first row keeps the original
    first row's id.
- `ChannelsTable` (`channels_table.dfy`): the rest.
  - The load merge, the page window, the "fetch the next page" test and
    the pager total.
  - The class `Table`, holding the component's state. Its methods are
    `removeRecord`, `setChannelFormat`, `loadChannels`, `refresh`,
    `handlePageChange`, `handlePageSizeChange`, `searchChannels`,
    `sortChannel`, `manageChannel`, `testChannel` and
    `deleteAllDisabledChannels`, plus the delete and toggle buttons.
    The methods that send a request take the server's reply as a
    parameter.
  - Every row's `key` is its id's string after a load (`KeysStamped`), but
    not after a search, which stores the server's rows as they come. So
    `Table.Valid` asks only for a positive page size, and each method that
    keeps the list's rows states that it keeps `KeysStamped` when it held
    before.

Four behaviours of the code as written are modelled as they are:

- The delete button's confirmation calls `removeRecord` after
  `manageChannel` has returned, whatever the server replied. So a refused
  delete still takes the row out of the local list (`Table.ConfirmDelete`).
- When the loaded list ends partway through a page, a fetched page is
  spliced in at the end of the list, not at its page offset. So only for a
  list of whole pages does the chosen page show the fetched rows
  (`FetchedPageShown`). `PartialPageMisplaced` shows what happens
  otherwise: with 15 rows and pages of 10, page 3 shows only the last 5
  rows fetched for it.
- `handlePageSizeChange` fetches page 0 through the `loadChannels` of the
  render before the change. So `setChannelFormat` computes the pager total
  with the previous page size (`Table.HandlePageSizeChange`). When the page
  size shrinks, the total is then just the row count, and no page the
  pager offers fetches more rows (`StaleTotalHidesNextPage`).
- A search that finds rows stores them, and moves to page 1, but leaves
  the pager total as the last load set it (`Table.SearchChannels`).

## Model

| member | source | states |
|---|---|---|
| `JsArray.Slice` | web/src/components/ChannelsTable.js:509 | definition of `slice(start, end)` with relative and clamped indices; its use is stated by `PageWindowSpec` |
| `JsArray.Splice` | web/src/components/ChannelsTable.js:276 | definition of the array `splice(start, deleteCount, ...items)` leaves; its uses are stated by `RemoveFirstSpec` and `MergedSpec` |
| `JsArray.FindIndex` | web/src/components/ChannelsTable.js:245 | finds the first index whose row satisfies the predicate; returns -1 exactly when no row does |
| `JsArray.Reverse` | web/src/components/ChannelsTable.js:503 | the reversed sequence has the same length and holds element `len-1-i` at position `i` |
| `JsArray.ReversePermutes` | web/src/components/ChannelsTable.js:503 | reversing keeps the multiset of rows |
| `JsArray.ReverseInvolutive` | web/src/components/ChannelsTable.js:503 | reversing twice restores the list |
| `JsArray.ReverseInPlace` | web/src/components/ChannelsTable.js:503 | in-place `reverse()` leaves the array equal to `Reverse` of its old contents |
| `JsNumber.ToString` | web/src/components/ChannelsTable.js:256 | definition of `'' + id` on integers, the row key; stated by `ToStringRoundTrip`, `ToStringInjective` and `FormattedSpec` |
| `JsNumber.ToStringRoundTrip` | web/src/components/ChannelsTable.js:256 | parsing `'' + id` gives `id` back |
| `JsNumber.ToStringInjective` | web/src/components/ChannelsTable.js:256 | two ids have the same string form exactly when they are equal |
| `JsNumber.CeilDiv` | web/src/components/ChannelsTable.js:513 | `Math.ceil(len / pageSize)`, the number of loaded pages, is a `c` with `(c-1)*pageSize < len <= c*pageSize`; its use is stated by `ShouldLoadSpec` and `PagerOffersNextPage` |
| `JsNumber.CeilDivUnique` | web/src/components/ChannelsTable.js:513 | no other integer satisfies those bounds |
| `ChannelModel.RenderStatus` | web/src/components/ChannelsTable.js:360-391 | definition of the status tag; stated by `StatusTagCases` and `StatusViewsAgree` |
| `ChannelModel.RenderResponseTime` | web/src/components/ChannelsTable.js:393-407 | definition of the response-time tag; stated by `UntestedOnlyAtZero`, `ResponseTimeBuckets` and `ResponseTimeMonotone` |
| `ChannelModel.HandleRow` | web/src/components/ChannelsTable.js:548-558 | definition of the row shading; stated by `StatusViewsAgree` |
| `ChannelModel.BuildRequest` | web/src/components/ChannelsTable.js:311-343 | definition of the request `manageChannel` sends; stated by `RequestShape` and `RequestValues` |
| `ChannelModel.ToggleAction` | web/src/components/ChannelsTable.js:193-213 | definition of the row's enable/disable button; stated by `ToggleFlipsShading` |
| `ChannelModel.UntestedOnlyAtZero` | web/src/components/ChannelsTable.js:396-397 | the "untested" tag is shown exactly for response time 0 |
| `ChannelModel.ResponseTimeBuckets` | web/src/components/ChannelsTable.js:393-407 | green for at most 1000 ms, lime up to 3000, yellow up to 5000, red above; each colour has exactly its interval |
| `ChannelModel.ResponseTimeMonotone` | web/src/components/ChannelsTable.js:398-406 | a larger tested response time never gets a tag for a faster channel |
| `ChannelModel.StatusTagCases` | web/src/components/ChannelsTable.js:360-391 | status 2 and 3 read as disabled (manual and automatic hint respectively); anything outside 1..3 is unknown |
| `ChannelModel.StatusViewsAgree` | web/src/components/ChannelsTable.js:548-558 | a row is greyed exactly when its status tag is not "enabled"; the tag is green exactly for status 1; the disable button shows exactly on unshaded rows |
| `ChannelModel.ToggleFlipsShading` | web/src/components/ChannelsTable.js:193-213 | the row's enable/disable button always sends a status change for that id, and the status it asks for flips whether the row is greyed |
| `ChannelModel.RequestShape` | web/src/components/ChannelsTable.js:311-343 | no request only for a priority or weight change with a cleared input; every request carries the id; a weight is never sent negative |
| `ChannelModel.RequestValues` | web/src/components/ChannelsTable.js:311-343 | delete sends the id; enable sends status 1 and disable status 2; a typed priority is sent as typed; a typed weight is sent as typed when non-negative and as 0 when negative |
| `ChannelSort.KeyOf` | web/src/components/ChannelsTable.js:496-499 | definition of `a[key]` in the comparator, the field each numeric column sorts on (`Column` wraps it as a function); stated by `SortDescSortedPermutes` |
| `ChannelSort.SortDesc` | web/src/components/ChannelsTable.js:496-500 | definition of the stable descending sort by insertion; stated by `SortDescSortedPermutes`, `SortDescStable` and `SortDescHead` |
| `ChannelSort.SortChannelResult` | web/src/components/ChannelsTable.js:487-507 | definition of the list `sortChannel` stores; stated by `SortChannelSpec` |
| `ChannelSort.SortDescSortedPermutes` | web/src/components/ChannelsTable.js:496-500 | the stable descending sort orders rows by non-increasing key and is a permutation |
| `ChannelSort.SortDescStable` | web/src/components/ChannelsTable.js:496-500 | for every key value, the rows carrying it appear in the sorted list in exactly their input order |
| `ChannelSort.InsertKeepsTies` | web/src/components/ChannelsTable.js:496-500 | inserting a row puts it after every row with its own key and leaves the order of each key's rows unchanged |
| `ChannelSort.SortDescOfSorted` | web/src/components/ChannelsTable.js:496-500 | sorting an already non-increasing list leaves it unchanged |
| `ChannelSort.FirstMaxIndex` | web/src/components/ChannelsTable.js:502 | the index returned carries the largest key, and every earlier row has a strictly smaller key |
| `ChannelSort.SortDescHead` | web/src/components/ChannelsTable.js:496-502 | the row the sort puts first is the first row of the input with the largest key (stability) |
| `ChannelSort.ReverseSortedDesc` | web/src/components/ChannelsTable.js:502-504 | reversing a non-increasing list gives a non-decreasing one |
| `ChannelSort.SortChannelSpec` | web/src/components/ChannelsTable.js:487-507 | an empty list stays empty; otherwise the result is a permutation; it is ascending and reversed exactly when the first top-key row has the original first id, otherwise descending |
| `ChannelSort.SortChannelToggles` | web/src/components/ChannelsTable.js:502-504 | sorting a list already in descending order reverses it (the direction toggle) |
| `ChannelSort.InsertSplit` | web/src/components/ChannelsTable.js:496-500 | an insertion places the row right after the last row whose key is at least its own |
| `ChannelSort.InsertAt` | web/src/components/ChannelsTable.js:496-500 | one pass of the in-place sort inserts `a[i]` into the sorted prefix and leaves the rest alone |
| `ChannelSort.SortInPlace` | web/src/components/ChannelsTable.js:496-500 | the in-place sort leaves the array equal to the stable descending sort of its old contents |
| `ChannelSort.SortedCopy` | web/src/components/ChannelsTable.js:490-504 | the copy, sort and conditional reverse of a non-empty list give `SortChannelResult` |
| `ChannelsTable.Formatted` | web/src/components/ChannelsTable.js:254-258 | definition of the key stamping; stated by `FormattedSpec` |
| `ChannelsTable.ChannelCount` | web/src/components/ChannelsTable.js:260-264 | definition of the pager total; stated by `PagerOffersNextPage` |
| `ChannelsTable.HasId` | web/src/components/ChannelsTable.js:245 | definition of the `findIndex` predicate `data.id === id`; stated by `RemoveFirstAtFindIndex` |
| `ChannelsTable.RemoveFirst` | web/src/components/ChannelsTable.js:242-252 | independent recursive definition of removing the first row with an id; tied to the `findIndex`/`splice` code by `RemoveFirstAtFindIndex` and `RemoveFirstSpec` |
| `ChannelsTable.Merged` | web/src/components/ChannelsTable.js:271-277 | definition of the list `loadChannels` stores; stated by `MergedSpec` |
| `ChannelsTable.PageWindow` | web/src/components/ChannelsTable.js:509 | definition of `pageData`; stated by `PageWindowSpec`, `PageWindowAt` and `PagesTile` |
| `ChannelsTable.ShouldLoad` | web/src/components/ChannelsTable.js:513 | definition of `handlePageChange`'s fetch test; stated by `ShouldLoadSpec` |
| `ChannelsTable.FormattedSpec` | web/src/components/ChannelsTable.js:254-258 | after stamping, every row's key is its id's string and no other field changes; two keys agree exactly when the ids do; stamping twice equals stamping once |
| `ChannelsTable.RemoveFirstAtFindIndex` | web/src/components/ChannelsTable.js:245-248 | removing the first row with the id is cutting the list at `findIndex`, or no change when it is -1 |
| `ChannelsTable.RemoveFirstSpec` | web/src/components/ChannelsTable.js:242-252 | with a row carrying the id, the splice removes exactly that first row: one row fewer, the others in order, the multiset less that row; otherwise the list is unchanged |
| `ChannelsTable.RemoveFirstKeepsKeys` | web/src/components/ChannelsTable.js:242-252 | removal keeps every remaining key stamped |
| `ChannelsTable.MergedSpec` | web/src/components/ChannelsTable.js:271-277 | page 0 replaces the list; a later page is spliced at `splice`'s start for offset `startIdx*size` (counted from the end when negative, clamped to the list), keeping the rows before it and dropping `min(data.length, len - s)` old rows |
| `ChannelsTable.MergedIdempotent` | web/src/components/ChannelsTable.js:271-277 | fetching a page that starts within the loaded list twice with the same reply gives the same list as once |
| `ChannelsTable.PageWindowSpec` | web/src/components/ChannelsTable.js:509 | for page >= 1 the window is rows `(page-1)*pageSize` to `page*pageSize`, clamped to the list, at most `pageSize` rows |
| `ChannelsTable.PageWindowAt` | web/src/components/ChannelsTable.js:509 | window position `i` is list position `(page-1)*pageSize + i`; page 0 is empty |
| `ChannelsTable.PagesTile` | web/src/components/ChannelsTable.js:509 | pages 1..n laid end to end are the first `n*pageSize` rows of the list |
| `ChannelsTable.ShouldLoadSpec` | web/src/components/ChannelsTable.js:513 | a page is fetched exactly when `(page-2)*pageSize < len <= (page-1)*pageSize` |
| `ChannelsTable.PagerOffersNextPage` | web/src/components/ChannelsTable.js:260-264 | once a full page is loaded the pager offers exactly one page past the loaded rows, and of the pages offered only that last one triggers a fetch; with less than a page loaded none does |
| `ChannelsTable.FetchStartsAtEnd` | web/src/components/ChannelsTable.js:511-518 | on a list of whole pages, the page that triggers a fetch starts at the end of the list |
| `ChannelsTable.FetchedPageShown` | web/src/components/ChannelsTable.js:511-518 | on a list of whole pages, after the triggered fetch the chosen page shows the first `pageSize` fetched rows, keys stamped |
| `ChannelsTable.PartialPageMisplaced` | web/src/components/ChannelsTable.js:271-277 | with 15 rows and pages of 10, page 3 triggers a fetch, its first 5 rows land at positions 15..19 and page 3 shows only the last 5 |
| `ChannelsTable.StaleTotalHidesNextPage` | web/src/components/ChannelsTable.js:520-528 | when `newSize <= len < oldSize`, the total computed with the old size is `len`, so no offered page triggers a fetch, while the total from the new size would offer one more page |
| `ChannelsTable.Table.constructor` | web/src/components/ChannelsTable.js:225-235 | the state starts with no rows, page 1, the configured page size and a total of one page |
| `ChannelsTable.Table.PageData` | web/src/components/ChannelsTable.js:509 | the rows shown are exactly the list rows from `(activePage-1)*pageSize` to `activePage*pageSize`, clamped to the list: at most a page, each the list row at its page offset; none for page 0 |
| `ChannelsTable.Table.RemoveRecord` | web/src/components/ChannelsTable.js:242-252 | the list loses the first row with the id when the id is present, else is unchanged; stamped keys stay stamped; nothing else changes |
| `ChannelsTable.Table.SetChannelFormat` | web/src/components/ChannelsTable.js:254-265 | the list becomes the rows with keys stamped, and the total is `len + pageSize` when `len >= pageSize`, else `len` |
| `ChannelsTable.Table.LoadChannels` | web/src/components/ChannelsTable.js:267-283 | on success the list becomes the stamped merge of the fetched rows and the total follows it; on failure nothing changes |
| `ChannelsTable.Table.Refresh` | web/src/components/ChannelsTable.js:285-287 | reloads page `activePage - 1`: on success the stamped merge and its total, on failure no change |
| `ChannelsTable.Table.HandlePageChange` | web/src/components/ChannelsTable.js:511-518 | the active page is always set; a fetch of `page - 1` happens exactly when `page == ceil(len/pageSize) + 1`; after a successful fetch the list is the stamped merge and the total follows it; otherwise list and total are unchanged |
| `ChannelsTable.Table.HandlePageSizeChange` | web/src/components/ChannelsTable.js:520-528 | the new size and page 1 are stored; on success the list is the stamped page 0 and the total is computed with the previous page size; on failure list and total are unchanged |
| `ChannelsTable.Table.SearchChannels` | web/src/components/ChannelsTable.js:409-424 | blank fields reload page 0 and go to page 1; a successful search stores the matches unstamped, goes to page 1 and keeps the total; a failed search changes nothing |
| `ChannelsTable.Table.SortChannel` | web/src/components/ChannelsTable.js:487-507 | the list becomes `SortChannelResult` of the old list; stamped keys stay stamped; nothing else changes |
| `ChannelsTable.Table.ManageChannel` | web/src/components/ChannelsTable.js:311-358 | the request sent is `BuildRequest`; only on a successful reply to a non-delete action does the record's status, and nothing else, become the server's status |
| `ChannelsTable.Table.TestChannel` | web/src/components/ChannelsTable.js:428-440 | on success only the tested row's response time changes, to the measured time; on failure nothing changes |
| `ChannelsTable.Table.DeleteAllDisabledChannels` | web/src/components/ChannelsTable.js:452-461 | on success the active page is reloaded, as `Refresh` states; otherwise nothing changes |
| `ChannelsTable.Table.ConfirmDelete` | web/src/components/ChannelsTable.js:183-189 | sends the delete for the row's id and removes the first row with that id, whatever the reply; page size, page and total are unchanged |
| `ChannelsTable.Table.ToggleStatus` | web/src/components/ChannelsTable.js:193-213 | sends status 2 for an enabled row and 1 otherwise; on success the row takes the server's status; page size, page and total are unchanged |

## Left out

- Rendering: JSX, the Semi-UI and Semantic-UI components, the column
  definitions, `EditChannel`, modals, popconfirms and toasts. They show
  things but keep no state.
- Network I/O: `API.get/put/delete` are replaced by reply parameters
  holding a success flag and the data the table reads. A rejected request,
  or a reply with no data, raises an exception in the source. That path is
  not modelled, nor is the `catch` that reports it.
- React timing: `useState` updates are applied at once. Re-renders and
  effect scheduling are not modelled. The one stale closure that changes
  the state, in `handlePageSizeChange`, is modelled. The `loading` and
  `searching` flags have no effect on the list and are left out.
- `idSort`, `localStorage` and the id-sort switch: the flag only changes
  the query string, so the server's ordering is not modelled.
- `fetchGroups`, `testAllChannels`, `updateAllChannelsBalance`: these send
  a request and show its outcome. `fetchGroups` fills the group options of
  the search form.
- `updateChannelBalance` writes a floating-point balance and `Date.now()`
  into the row object. Neither field is among the six modelled.
- `Table.TestChannel`: the measured time is an integer number of
  milliseconds. The source multiplies a floating-point number of seconds
  by 1000, and that rounding is not modelled, nor is the `test_time`
  stamp from `Date.now()`.
- `Table.HandlePageSizeChange`: requires a positive size. The pager only
  offers sizes 10, 20, 50 and 100 (line 603).
- `renderBalance`, `renderType`, `renderTimestamp`, and the `toFixed(2)`
  seconds text of `renderResponseTime`: floating-point formatting, and
  constants from a module that is not part of this model.
- The string branch of `sortChannel`, which depends on the locale through
  `localeCompare`. `SortKey` covers the numeric columns only.
- `parseInt`: an input value is an optional integer, where `None` stands
  for the cleared field. `NaN` and truncation of fractions are not
  modelled.
- JavaScript numbers: ids and times are integers. The exponent form that
  `'' + n` gives from 10^21 up is not modelled. `Math.ceil(len / pageSize)`
  is taken to be exact, which holds for integer row counts. A page size of
  0 cannot occur (`Table.Valid` requires a positive page size).
- Object identity: rows are values. The `record` that `manageChannel`
  mutates is named by its position in the list, so aliasing between the
  list and other copies is not modelled.
- Channel fields other than the six listed (name, group, type, balance,
  quota, test times).
