# YashoidListAdapter in Dafny

This project models the core of YashoidListAdapter, an Android library of list
adapters. It has three parts.

- **`YashoidListItem`** (list_item.dfy). This is the recyclable row holder. It
  has flags for attached, position, enabled and erased, plus the content it
  shows. `erase` clears the content once. `load` stores new content.
  `setNotErased` clears the flag and erases again. Calls of the abstract hooks
  `eraseContent` and `loadContent` are recorded as a trace (`hooks`).
- **`YashoidPagingListAdapter`**. It caches content in a sliding window of
  three pages: previous, current and next.
  - paging_window.dfy holds the value model. A page has a clamped first
    position, an array of slots (each still loading or loaded), the callbacks
    pending by position, a load direction and a worker. The worker fills the
    slots one by one and hands each pending callback its content.
  - `getPagedContent(position, callback)` makes a current page if there is
    none. If the position is outside the current page, the window moves one
    page towards it and the page at the far end is destroyed. Missing
    neighbour pages are created when the position is within a quarter page of
    an edge. Finally the current page is asked for the slot.
  - paging_adapter.dfy holds the classes `Page` and `Adapter`. Their fields are
    updated in place. Each method is proved to follow the value model: either
    `(Window(), r) == F(old(Window()), …)` or the page's `View()`.
- **`YashoidListAdapter`** (list_adapter.dfy). It binds a row to a position in
  `getView`. The row is then loaded at once, or by a per-row background task
  that replaces the row's earlier task. While the list flings, rows are not
  loaded at all. When a fling ends, every row still erased is loaded.

Java exceptions become `Err` values of `Result`:

- `NegativeArraySizeException` when a page would get a negative length;
- `ArrayIndexOutOfBoundsException` when a slot outside the current page is read;
- `NullPointerException` from `getItem` when there is no current page.

State changed before an exception is kept, as in Java.

Java's `null` for "no content" in the two `getPagedContent`/`getItem` readers
is `None`. The private sentinel `NULL` is the slot value `Unloaded`. A
content object is `Content`, where `Null` stands for Java `null` returned by
`getContent`.

The abstract `getContent(int)` and `isEnabled(int)` become the functions
`source` and `enabledAt` of the adapter. `getCount()`, which `reset` re-reads,
becomes the parameter `newCount`.

Background work is modelled as explicit steps:

- a page worker step (`Page.Advance`, `Adapter.WorkerStep`) is `load(i)`
  followed by `onProgressUpdate(i)`;
- an async row task finishes by `ListAdapter.Adapter.OnPostExecute`.

The main results:

- Pages stay consistent: a loaded slot holds the source's content of its
  position, and callbacks are pending only at slots still loading. So
  `getPagedContent` only ever returns the source's content.
- A worker run loads every slot. It delivers each pending callback exactly
  once, in load order, with the right content. A cancelled page delivers
  nothing.
- Asking again for a slot that is still loading replaces its callback, so
  only the latest callback is delivered.
- Scrolling row by row from an empty window never raises and keeps the pages
  arranged around the current one.
- The lemma `UnalignedJumpFails` proves that a window anchored at row 5 and
  then made to jump six rows raises `ArrayIndexOutOfBoundsException`.

## Model

| member | source | states |
|---|---|---|
| ListItem.AfterErase | yashoidlistadapter/src/main/java/com/yashoid/list/yashoidlistadapter/YashoidListItem.java:94-102 | the item ends erased; erasing an erased item changes nothing; otherwise one `eraseContent` hook runs and the content is dropped; attached, position and enabled are unchanged |
| ListItem.AfterLoad | yashoidlistadapter/src/main/java/com/yashoid/list/yashoidlistadapter/YashoidListItem.java:117-127 | the item holds exactly the given content, is not erased and has run one `loadContent` hook with it; the other flags are unchanged |
| ListItem.AfterSetNotErased | yashoidlistadapter/src/main/java/com/yashoid/list/yashoidlistadapter/YashoidListItem.java:110-115 | an erased item stays erased with no content and runs `eraseContent` once more; a non-erased item is unchanged |
| ListItem.ReachableClosed | yashoidlistadapter/src/main/java/com/yashoid/list/yashoidlistadapter/YashoidListItem.java:12-127 | the initial item and every operation keep the invariant that an erased item holds no content |
| ListItem.EraseIdempotent | yashoidlistadapter/src/main/java/com/yashoid/list/yashoidlistadapter/YashoidListItem.java:94-102 | a second `erase` changes no field and runs no further hook |
| ListItem.LoadAfterErase | yashoidlistadapter/src/main/java/com/yashoid/list/yashoidlistadapter/YashoidListItem.java:94-127 | after erase then load, the item shows exactly the new content and is not erased |
| ListItem.Bind | yashoidlistadapter/src/main/java/com/yashoid/list/yashoidlistadapter/YashoidListAdapter.java:93-98 | a rebound item is attached, has the new position and enabled flag, is erased, holds no content if it was reachable, and ran `eraseContent` only if it was not erased before |
| ListItem.Item.constructor | yashoidlistadapter/src/main/java/com/yashoid/list/yashoidlistadapter/YashoidListItem.java:12-25 | a new item has Java's default field values: detached, position 0, disabled, no content, not erased, no hook run |
| ListItem.Item.SetAttached | yashoidlistadapter/src/main/java/com/yashoid/list/yashoidlistadapter/YashoidListItem.java:48-50 | only the attached flag changes, to true |
| ListItem.Item.SetDetached | yashoidlistadapter/src/main/java/com/yashoid/list/yashoidlistadapter/YashoidListItem.java:52-54 | only the attached flag changes, to false |
| ListItem.Item.SetPosition | yashoidlistadapter/src/main/java/com/yashoid/list/yashoidlistadapter/YashoidListItem.java:78-80 | only the position changes |
| ListItem.Item.SetEnabled | yashoidlistadapter/src/main/java/com/yashoid/list/yashoidlistadapter/YashoidListItem.java:86-88 | only the enabled flag changes |
| ListItem.Item.Erase | yashoidlistadapter/src/main/java/com/yashoid/list/yashoidlistadapter/YashoidListItem.java:94-102 | the new state is `AfterErase` of the old one |
| ListItem.Item.Rebind | yashoidlistadapter/src/main/java/com/yashoid/list/yashoidlistadapter/YashoidPagingListAdapter.java:157-162 | the four rebinding calls of `getView` leave the item in state `Bind(old, position, enabled)` |
| ListItem.Item.SetNotErased | yashoidlistadapter/src/main/java/com/yashoid/list/yashoidlistadapter/YashoidListItem.java:110-115 | the new state is `AfterSetNotErased` of the old one |
| ListItem.Item.Load | yashoidlistadapter/src/main/java/com/yashoid/list/yashoidlistadapter/YashoidListItem.java:117-127 | the new state is `AfterLoad` of the old one, and the item's root view is returned |
| PagingWindow.PageState.Contains | yashoidlistadapter/src/main/java/com/yashoid/list/yashoidlistadapter/YashoidPagingListAdapter.java:371-381 | gives -1, 0 or 1, each if and only if the position is before, inside or after the page |
| PagingWindow.PageState.NeedPreviousPage | yashoidlistadapter/src/main/java/com/yashoid/list/yashoidlistadapter/YashoidPagingListAdapter.java:383-385 | true exactly when the position minus a quarter page lies before the page's first position |
| PagingWindow.PageState.NeedNextPage | yashoidlistadapter/src/main/java/com/yashoid/list/yashoidlistadapter/YashoidPagingListAdapter.java:387-389 | true exactly when data follows the page and the position plus a quarter page lies at or after its end |
| PagingWindow.PageState.GetContent | yashoidlistadapter/src/main/java/com/yashoid/list/yashoidlistadapter/YashoidPagingListAdapter.java:359-369 | succeeds if and only if the position is in the page; out of range it raises and changes nothing; otherwise it returns the slot and only a still-loading slot with a callback changes the page, by registering that callback at the position |
| PagingWindow.PageState.NextIndex | yashoidlistadapter/src/main/java/com/yashoid/list/yashoidlistadapter/YashoidPagingListAdapter.java:322-331 | the worker's next slot lies in the page and is not yet processed |
| PagingWindow.PageState.Advance | yashoidlistadapter/src/main/java/com/yashoid/list/yashoidlistadapter/YashoidPagingListAdapter.java:336-353 | one worker step fills the next slot with the source's content and leaves the other slots alone; on a live page it removes the callback pending there and delivers it with that content; it touches no other request, and a destroyed page keeps all its requests |
| PagingWindow.NewPage | yashoidlistadapter/src/main/java/com/yashoid/list/yashoidlistadapter/YashoidPagingListAdapter.java:307-317 | fails with negative array size if and only if the clamped page length is negative; otherwise the page starts at max(first, 0), has `min(count, first + pageSize) - first` slots, all loading, no requests and a live worker at step 0 |
| PagingWindow.NewPageConsistent | yashoidlistadapter/src/main/java/com/yashoid/list/yashoidlistadapter/YashoidPagingListAdapter.java:307-317 | a new page is consistent with any content source and has its constructed extent |
| PagingWindow.GetContentConsistent | yashoidlistadapter/src/main/java/com/yashoid/list/yashoidlistadapter/YashoidPagingListAdapter.java:359-369 | registering a callback keeps the page consistent: callbacks are pending only at unprocessed slots of the page |
| PagingWindow.GetContentIsSource | yashoidlistadapter/src/main/java/com/yashoid/list/yashoidlistadapter/YashoidPagingListAdapter.java:336-369 | content a consistent page returns is the source's content of that position |
| PagingWindow.AdvanceConsistent | yashoidlistadapter/src/main/java/com/yashoid/list/yashoidlistadapter/YashoidPagingListAdapter.java:336-353 | a worker step keeps the page consistent |
| PagingWindow.RunWorkerLoads | yashoidlistadapter/src/main/java/com/yashoid/list/yashoidlistadapter/YashoidPagingListAdapter.java:321-334 | the whole worker run fills every slot with the source's content of its position |
| PagingWindow.RunWorkerDeliversPending | yashoidlistadapter/src/main/java/com/yashoid/list/yashoidlistadapter/YashoidPagingListAdapter.java:336-353 | every delivery is a callback pending at the start, at an unprocessed slot, with the source's content of its position; a destroyed page delivers nothing |
| PagingWindow.RunWorkerInLoadOrder | yashoidlistadapter/src/main/java/com/yashoid/list/yashoidlistadapter/YashoidPagingListAdapter.java:321-334 | deliveries come in strictly ascending position order for ABOVE and strictly descending for BELOW, so no position is delivered twice |
| PagingWindow.RunWorkerDeliversAll | yashoidlistadapter/src/main/java/com/yashoid/list/yashoidlistadapter/YashoidPagingListAdapter.java:343-353 | a live page delivers a callback for every pending position and ends with no request left |
| PagingWindow.AdvanceAt | yashoidlistadapter/src/main/java/com/yashoid/list/yashoidlistadapter/YashoidPagingListAdapter.java:318-353 | a worker step of one window page changes that page as `Advance` says and leaves the two other pages, the count and the page size alone |
| PagingWindow.AdvanceAtKeepsValid | yashoidlistadapter/src/main/java/com/yashoid/list/yashoidlistadapter/YashoidPagingListAdapter.java:318-353 | a worker step keeps every page of the window consistent and of its extent |
| PagingWindow.Reset | yashoidlistadapter/src/main/java/com/yashoid/list/yashoidlistadapter/YashoidPagingListAdapter.java:63-79 | after `reset` the window holds no page and the newly read count; the page size is kept |
| PagingWindow.Resolve | yashoidlistadapter/src/main/java/com/yashoid/list/yashoidlistadapter/YashoidPagingListAdapter.java:224-272 | a successful `getPagedContent` leaves a current page that contains the position and returns that page's slot there; count and page size never change |
| PagingWindow.FillCurrent | yashoidlistadapter/src/main/java/com/yashoid/list/yashoidlistadapter/YashoidPagingListAdapter.java:225-227 | an existing current page is kept; otherwise the current page becomes the constructor's page for `position` when the constructor succeeds, and when it fails the constructor's exception is raised and nothing changes; the neighbours are untouched |
| PagingWindow.Shift | yashoidlistadapter/src/main/java/com/yashoid/list/yashoidlistadapter/YashoidPagingListAdapter.java:229-261 | a position in the current page changes nothing; a position before it makes the old current page the next page and the cached previous page current, and when none is cached the current page is the constructor's page one page size lower loading BELOW, or its exception; a position after it mirrors that with the next page, one page size higher, loading ABOVE |
| PagingWindow.NeighbourPagesFit | yashoidlistadapter/src/main/java/com/yashoid/list/yashoidlistadapter/YashoidPagingListAdapter.java:263-269 | next to a page of its constructed extent, the previous page and (when data follows) the next page can always be constructed, and a page followed by data is full-size |
| PagingWindow.AddPrevious | yashoidlistadapter/src/main/java/com/yashoid/list/yashoidlistadapter/YashoidPagingListAdapter.java:263-265 | a previous page is added if and only if none exists and the quarter-page rule asks for it; it is then the constructor's page one page size below, loading BELOW, or the constructor's exception with nothing changed |
| PagingWindow.AddNext | yashoidlistadapter/src/main/java/com/yashoid/list/yashoidlistadapter/YashoidPagingListAdapter.java:267-269 | a next page is added if and only if none exists and the quarter-page rule asks for it; it is then the constructor's page starting at the current page's end, loading ABOVE, or the constructor's exception with nothing changed |
| PagingWindow.Lookup | yashoidlistadapter/src/main/java/com/yashoid/list/yashoidlistadapter/YashoidPagingListAdapter.java:271 | only the current page changes, as its `getContent` says, and its result is returned |
| PagingWindow.Peek | yashoidlistadapter/src/main/java/com/yashoid/list/yashoidlistadapter/YashoidPagingListAdapter.java:196-222 | with no current page the answer is null; inside the current page it is that page's slot; before it, the previous page's slot if that page holds the position and null otherwise; after it, the same with the next page |
| PagingWindow.ItemAt | yashoidlistadapter/src/main/java/com/yashoid/list/yashoidlistadapter/YashoidPagingListAdapter.java:114-132 | `getItem` raises a null pointer exception if and only if there is no current page |
| PagingWindow.LookupKeepsValid | yashoidlistadapter/src/main/java/com/yashoid/list/yashoidlistadapter/YashoidPagingListAdapter.java:271 | the final lookup keeps every page consistent and of its extent |
| PagingWindow.FillCurrentKeepsValid | yashoidlistadapter/src/main/java/com/yashoid/list/yashoidlistadapter/YashoidPagingListAdapter.java:225-227 | making a current page keeps the window valid |
| PagingWindow.ShiftKeepsValid | yashoidlistadapter/src/main/java/com/yashoid/list/yashoidlistadapter/YashoidPagingListAdapter.java:229-261 | moving the window keeps it valid |
| PagingWindow.AddPreviousKeepsValid | yashoidlistadapter/src/main/java/com/yashoid/list/yashoidlistadapter/YashoidPagingListAdapter.java:263-265 | adding a previous page keeps the window valid |
| PagingWindow.AddNextKeepsValid | yashoidlistadapter/src/main/java/com/yashoid/list/yashoidlistadapter/YashoidPagingListAdapter.java:267-269 | adding a next page keeps the window valid |
| PagingWindow.ResolveKeepsValid | yashoidlistadapter/src/main/java/com/yashoid/list/yashoidlistadapter/YashoidPagingListAdapter.java:224-272 | `getPagedContent` keeps every page consistent and of its extent, whether it returns or raises |
| PagingWindow.ResolveReturnsSource | yashoidlistadapter/src/main/java/com/yashoid/list/yashoidlistadapter/YashoidPagingListAdapter.java:224-272 | any content `getPagedContent` returns is the source's content of the requested position |
| PagingWindow.PeekAfterResolve | yashoidlistadapter/src/main/java/com/yashoid/list/yashoidlistadapter/YashoidPagingListAdapter.java:196-272 | a peek right after a successful `getPagedContent` sees the slot it returned |
| PagingWindow.PeekInCurrent | yashoidlistadapter/src/main/java/com/yashoid/list/yashoidlistadapter/YashoidPagingListAdapter.java:221 | a peek inside the current page reads the current page's slot |
| PagingWindow.ItemAtIsPeek | yashoidlistadapter/src/main/java/com/yashoid/list/yashoidlistadapter/YashoidPagingListAdapter.java:114-132 | with a current page, `getItem` answers exactly what the peek `getPagedContent(position)` answers |
| PagingWindow.EmptyCoherent | yashoidlistadapter/src/main/java/com/yashoid/list/yashoidlistadapter/YashoidPagingListAdapter.java:63-79 | the empty window left by `reset` is arranged coherently |
| PagingWindow.AddPreviousSafe | yashoidlistadapter/src/main/java/com/yashoid/list/yashoidlistadapter/YashoidPagingListAdapter.java:263-265 | in a coherent window, adding the previous page never raises and keeps coherence |
| PagingWindow.AddNextSafe | yashoidlistadapter/src/main/java/com/yashoid/list/yashoidlistadapter/YashoidPagingListAdapter.java:267-269 | in a coherent window, adding the next page never raises and keeps coherence |
| PagingWindow.DownShiftSafe | yashoidlistadapter/src/main/java/com/yashoid/list/yashoidlistadapter/YashoidPagingListAdapter.java:231-245 | asking for the row just above the current page shifts down without raising, stays coherent and the new current page holds the row |
| PagingWindow.UpShiftSafe | yashoidlistadapter/src/main/java/com/yashoid/list/yashoidlistadapter/YashoidPagingListAdapter.java:247-261 | asking for the row just below the current page shifts up without raising, stays coherent and the new current page holds the row |
| PagingWindow.ShiftSafe | yashoidlistadapter/src/main/java/com/yashoid/list/yashoidlistadapter/YashoidPagingListAdapter.java:229-261 | at most one row outside a coherent current page, the shift never raises, keeps coherence and leaves the row in the current page |
| PagingWindow.CompleteSafe | yashoidlistadapter/src/main/java/com/yashoid/list/yashoidlistadapter/YashoidPagingListAdapter.java:263-271 | once the current page holds the row, adding neighbours and the lookup never raise, keep the current page and keep coherence |
| PagingWindow.StepSafe | yashoidlistadapter/src/main/java/com/yashoid/list/yashoidlistadapter/YashoidPagingListAdapter.java:224-272 | one `getPagedContent` for a row of the data at most one row off the current page, or on an empty window, succeeds and keeps the window coherent |
| PagingWindow.ResolveAll | yashoidlistadapter/src/main/java/com/yashoid/list/yashoidlistadapter/YashoidPagingListAdapter.java:224-272 | a run of `getPagedContent` calls yields one result per request |
| PagingWindow.ScrollingNeverFails | yashoidlistadapter/src/main/java/com/yashoid/list/yashoidlistadapter/YashoidPagingListAdapter.java:224-272 | scrolling row by row through the data from a coherent window, such as the empty one, never raises and keeps the window coherent |
| PagingWindow.ReRequestDeliversLatestOnce | yashoidlistadapter/src/main/java/com/yashoid/list/yashoidlistadapter/YashoidPagingListAdapter.java:343-366 | asking twice for a loading slot keeps only the second callback: the worker delivers exactly one callback at that position, the latest one, with the source's content |
| PagingWindow.OverlapNearZero | yashoidlistadapter/src/main/java/com/yashoid/list/yashoidlistadapter/YashoidPagingListAdapter.java:225-265 | the first request at row 5 of 100 anchors the current page at [5, 25) and clamps the previous page to [0, 20), so the two overlap |
| PagingWindow.JumpStep1 | yashoidlistadapter/src/main/java/com/yashoid/list/yashoidlistadapter/YashoidPagingListAdapter.java:225-271 | the exact window and result of a first request at row 5 |
| PagingWindow.JumpStep2 | yashoidlistadapter/src/main/java/com/yashoid/list/yashoidlistadapter/YashoidPagingListAdapter.java:231-271 | row 4 then shifts down onto the clamped previous page [0, 20) and makes [0, 20) the previous page again |
| PagingWindow.JumpStep3 | yashoidlistadapter/src/main/java/com/yashoid/list/yashoidlistadapter/YashoidPagingListAdapter.java:229-271 | row 19 then changes nothing |
| PagingWindow.JumpStep4 | yashoidlistadapter/src/main/java/com/yashoid/list/yashoidlistadapter/YashoidPagingListAdapter.java:247-271 | row 25 then shifts onto the cached page [5, 25), which does not hold row 25, and raises index out of bounds |
| PagingWindow.UnalignedJumpFails | yashoidlistadapter/src/main/java/com/yashoid/list/yashoidlistadapter/YashoidPagingListAdapter.java:229-271 | requests at rows 5, 4, 19 and 25 of a fresh 100-row window end in an index-out-of-bounds exception |
| PagingListAdapter.Page.constructor | yashoidlistadapter/src/main/java/com/yashoid/list/yashoidlistadapter/YashoidPagingListAdapter.java:307-317 | the page built in place with its array is exactly `NewPage`'s page, consistent, with no requests and of its extent |
| PagingListAdapter.Page.GetContent | yashoidlistadapter/src/main/java/com/yashoid/list/yashoidlistadapter/YashoidPagingListAdapter.java:359-369 | the page and result follow `PageState.GetContent`, and the page stays valid |
| PagingListAdapter.Page.Read | yashoidlistadapter/src/main/java/com/yashoid/list/yashoidlistadapter/YashoidPagingListAdapter.java:359-369 | `getContent(position, null)` returns what `PageState.GetContent` returns and changes nothing |
| PagingListAdapter.Page.Advance | yashoidlistadapter/src/main/java/com/yashoid/list/yashoidlistadapter/YashoidPagingListAdapter.java:336-353 | the in-place step follows `PageState.Advance` and keeps the page valid; requests only shrink, and a delivered callback was pending at its position |
| PagingListAdapter.Page.Destroy | yashoidlistadapter/src/main/java/com/yashoid/list/yashoidlistadapter/YashoidPagingListAdapter.java:391-393 | only the destroyed flag changes, to true |
| PagingListAdapter.Adapter.WindowValid | yashoidlistadapter/src/main/java/com/yashoid/list/yashoidlistadapter/YashoidPagingListAdapter.java:40-42 | the object invariant on the three page pointers gives the value model's window invariant |
| PagingListAdapter.Adapter.constructor | yashoidlistadapter/src/main/java/com/yashoid/list/yashoidlistadapter/YashoidPagingListAdapter.java:44-55 | a new adapter with a non-negative page size has no item, no page and the count read by `reset` |
| PagingListAdapter.Adapter.CreatePage | yashoidlistadapter/src/main/java/com/yashoid/list/yashoidlistadapter/YashoidPagingListAdapter.java:307-317 | raises exactly the error `NewPage` gives; otherwise a fresh page whose view is `NewPage`'s page |
| PagingListAdapter.Adapter.MakeCurrent | yashoidlistadapter/src/main/java/com/yashoid/list/yashoidlistadapter/YashoidPagingListAdapter.java:225-227 | follows `FillCurrent`, keeps the invariant, and a current page exists if and only if nothing was raised; no page is dropped |
| PagingListAdapter.Adapter.ShiftBack | yashoidlistadapter/src/main/java/com/yashoid/list/yashoidlistadapter/YashoidPagingListAdapter.java:232-240 | the old next page is destroyed and the pointers move one place on |
| PagingListAdapter.Adapter.ShiftOn | yashoidlistadapter/src/main/java/com/yashoid/list/yashoidlistadapter/YashoidPagingListAdapter.java:248-256 | the old previous page is destroyed and the pointers move one place back |
| PagingListAdapter.Adapter.ShiftTo | yashoidlistadapter/src/main/java/com/yashoid/list/yashoidlistadapter/YashoidPagingListAdapter.java:229-261 | the window and error follow `Shift`, and the invariant is kept; a previous or next page the window no longer holds has been destroyed |
| PagingListAdapter.Adapter.MakePrevious | yashoidlistadapter/src/main/java/com/yashoid/list/yashoidlistadapter/YashoidPagingListAdapter.java:263-265 | follows `AddPrevious`, which here never raises; no page is dropped |
| PagingListAdapter.Adapter.MakeNext | yashoidlistadapter/src/main/java/com/yashoid/list/yashoidlistadapter/YashoidPagingListAdapter.java:267-269 | follows `AddNext`, which here never raises; no page is dropped |
| PagingListAdapter.Adapter.LookupCurrent | yashoidlistadapter/src/main/java/com/yashoid/list/yashoidlistadapter/YashoidPagingListAdapter.java:271 | follows `Lookup` and keeps the invariant |
| PagingListAdapter.Adapter.Realign | yashoidlistadapter/src/main/java/com/yashoid/list/yashoidlistadapter/YashoidPagingListAdapter.java:225-261 | follows `FillCurrent` and then `Shift`, stopping at the first exception; a previous or next page the window no longer holds has been destroyed |
| PagingListAdapter.Adapter.Complete | yashoidlistadapter/src/main/java/com/yashoid/list/yashoidlistadapter/YashoidPagingListAdapter.java:263-271 | follows `AddPrevious`, `AddNext` and `Lookup`; the neighbour pages never raise; the current page and any existing neighbour stay in place |
| PagingListAdapter.Adapter.GetPagedContent | yashoidlistadapter/src/main/java/com/yashoid/list/yashoidlistadapter/YashoidPagingListAdapter.java:224-272 | the new window and result are exactly `Resolve` of the old window, and the invariant is kept; a previous or next page the window no longer holds has been destroyed |
| PagingListAdapter.Adapter.PeekPagedContent | yashoidlistadapter/src/main/java/com/yashoid/list/yashoidlistadapter/YashoidPagingListAdapter.java:196-222 | returns `Peek` of the window |
| PagingListAdapter.Adapter.GetItem | yashoidlistadapter/src/main/java/com/yashoid/list/yashoidlistadapter/YashoidPagingListAdapter.java:114-132 | returns `ItemAt` of the window |
| PagingListAdapter.Adapter.DropPages | yashoidlistadapter/src/main/java/com/yashoid/list/yashoidlistadapter/YashoidPagingListAdapter.java:64-79 | every page of the old window is destroyed and the window becomes `Reset` with the new count |
| PagingListAdapter.Adapter.DetachAll | yashoidlistadapter/src/main/java/com/yashoid/list/yashoidlistadapter/YashoidPagingListAdapter.java:81-83 | every item is detached and otherwise unchanged |
| PagingListAdapter.Adapter.Reset | yashoidlistadapter/src/main/java/com/yashoid/list/yashoidlistadapter/YashoidPagingListAdapter.java:63-84 | pages destroyed, window emptied with the new count, every item detached |
| PagingListAdapter.Adapter.LoadIfPresent | yashoidlistadapter/src/main/java/com/yashoid/list/yashoidlistadapter/YashoidPagingListAdapter.java:182-185 | the item is loaded if and only if the slot returned was loaded; the window is unchanged |
| PagingListAdapter.Adapter.LoadItem | yashoidlistadapter/src/main/java/com/yashoid/list/yashoidlistadapter/YashoidPagingListAdapter.java:169-186 | the window follows `Resolve` with a callback into the item, and the item is loaded at once exactly when the content was there |
| PagingListAdapter.Adapter.Prepare | yashoidlistadapter/src/main/java/com/yashoid/list/yashoidlistadapter/YashoidPagingListAdapter.java:157-162 | the item becomes `Bind` of its old state with the position and `isEnabled(position)`; the window is unchanged |
| PagingListAdapter.Adapter.ItemFor | yashoidlistadapter/src/main/java/com/yashoid/list/yashoidlistadapter/YashoidPagingListAdapter.java:141-155 | the recycled item is reused; otherwise a fresh initial item is appended to the items |
| PagingListAdapter.Adapter.BindItem | yashoidlistadapter/src/main/java/com/yashoid/list/yashoidlistadapter/YashoidPagingListAdapter.java:141-162 | the item chosen as in `ItemFor` is bound to the position |
| PagingListAdapter.Adapter.GetView | yashoidlistadapter/src/main/java/com/yashoid/list/yashoidlistadapter/YashoidPagingListAdapter.java:137-167 | the item is reused or made, bound, and asked for through `Resolve` with a callback into it; it is loaded at once when the content was there; the root view is returned, or the exception raised |
| PagingListAdapter.Adapter.ShowItem | yashoidlistadapter/src/main/java/com/yashoid/list/yashoidlistadapter/YashoidPagingListAdapter.java:164-166 | `loadItem` as above, then the root view, or the exception raised |
| PagingListAdapter.Adapter.AdvancePrevious | yashoidlistadapter/src/main/java/com/yashoid/list/yashoidlistadapter/YashoidPagingListAdapter.java:336-353 | a worker step of the previous page follows `AdvanceAt`; a delivery goes to one of the adapter's items |
| PagingListAdapter.Adapter.AdvanceCurrent | yashoidlistadapter/src/main/java/com/yashoid/list/yashoidlistadapter/YashoidPagingListAdapter.java:336-353 | a worker step of the current page follows `AdvanceAt`; a delivery goes to one of the adapter's items |
| PagingListAdapter.Adapter.AdvanceNext | yashoidlistadapter/src/main/java/com/yashoid/list/yashoidlistadapter/YashoidPagingListAdapter.java:336-353 | a worker step of the next page follows `AdvanceAt`; a delivery goes to one of the adapter's items |
| PagingListAdapter.Adapter.AdvancePage | yashoidlistadapter/src/main/java/com/yashoid/list/yashoidlistadapter/YashoidPagingListAdapter.java:336-353 | a worker step of the chosen page follows `AdvanceAt` and keeps the invariant |
| PagingListAdapter.Adapter.Deliver | yashoidlistadapter/src/main/java/com/yashoid/list/yashoidlistadapter/YashoidPagingListAdapter.java:173-178 | the callback loads its item only if the item still shows the delivered position |
| PagingListAdapter.Adapter.WorkerStep | yashoidlistadapter/src/main/java/com/yashoid/list/yashoidlistadapter/YashoidPagingListAdapter.java:318-353 | a worker step follows `AdvanceAt`; exactly the delivered item, if it still shows that position, is loaded with the content, and every other item is unchanged |
| ListAdapter.AddRow | yashoidlistadapter/src/main/java/com/yashoid/list/yashoidlistadapter/YashoidListAdapter.java:195-203 | a new row has no pending task, and the other rows' tasks are kept |
| ListAdapter.Start | yashoidlistadapter/src/main/java/com/yashoid/list/yashoidlistadapter/YashoidListAdapter.java:117-140 | row `k`'s pending task is replaced by a new task for the position, with an identity never used before; other rows are unchanged |
| ListAdapter.Finish | yashoidlistadapter/src/main/java/com/yashoid/list/yashoidlistadapter/YashoidListAdapter.java:131-137 | row `k` has no pending task any more; other rows are unchanged |
| ListAdapter.AddRowKeepsValid | yashoidlistadapter/src/main/java/com/yashoid/list/yashoidlistadapter/YashoidListAdapter.java:79-84 | adding a row keeps the task identities distinct |
| ListAdapter.StartKeepsValid | yashoidlistadapter/src/main/java/com/yashoid/list/yashoidlistadapter/YashoidListAdapter.java:117-140 | starting a task keeps the identities distinct, and the cancelled task is pending in no row |
| ListAdapter.FinishKeepsValid | yashoidlistadapter/src/main/java/com/yashoid/list/yashoidlistadapter/YashoidListAdapter.java:131-137 | finishing a task keeps the identities distinct |
| ListAdapter.ApplyResult | yashoidlistadapter/src/main/java/com/yashoid/list/yashoidlistadapter/YashoidListAdapter.java:131-137 | the fetched content is loaded if and only if the row still shows the task's position; otherwise nothing changes |
| ListAdapter.Resumed | yashoidlistadapter/src/main/java/com/yashoid/list/yashoidlistadapter/YashoidListAdapter.java:184-189 | in synchronous mode no row stays erased, and an erased row gets its own position's content; asynchronous mode and non-erased rows leave the row as it is |
| ListAdapter.GetItem | yashoidlistadapter/src/main/java/com/yashoid/list/yashoidlistadapter/YashoidListAdapter.java:66-68 | a row's item is its position |
| ListAdapter.Adapter.constructor | yashoidlistadapter/src/main/java/com/yashoid/list/yashoidlistadapter/YashoidListAdapter.java:29-41 | no rows, no tasks, synchronous, not flinging |
| ListAdapter.Adapter.SetLoadsAsync | yashoidlistadapter/src/main/java/com/yashoid/list/yashoidlistadapter/YashoidListAdapter.java:43-45 | sets the loading mode |
| ListAdapter.Adapter.Reset | yashoidlistadapter/src/main/java/com/yashoid/list/yashoidlistadapter/YashoidListAdapter.java:49-53 | every row is detached and otherwise unchanged |
| ListAdapter.Adapter.RowFor | yashoidlistadapter/src/main/java/com/yashoid/list/yashoidlistadapter/YashoidListAdapter.java:77-91 | the recycled row is reused; otherwise a fresh initial item is appended with a row that has no task |
| ListAdapter.Adapter.LoadItem | yashoidlistadapter/src/main/java/com/yashoid/list/yashoidlistadapter/YashoidListAdapter.java:109-142 | synchronous mode loads the source's content at once and starts no task; asynchronous mode leaves the item alone and replaces the row's task with a new one for the position |
| ListAdapter.Adapter.GetView | yashoidlistadapter/src/main/java/com/yashoid/list/yashoidlistadapter/YashoidListAdapter.java:72-107 | the row is reused or made and bound; while flinging nothing more happens; otherwise it is loaded at once or gets a new task, depending on the mode |
| ListAdapter.Adapter.OnPostExecute | yashoidlistadapter/src/main/java/com/yashoid/list/yashoidlistadapter/YashoidListAdapter.java:131-137 | the task finishes, and its content is loaded only if the row still shows the task's position |
| ListAdapter.Adapter.ResumeRow | yashoidlistadapter/src/main/java/com/yashoid/list/yashoidlistadapter/YashoidListAdapter.java:185-188 | an erased row is reloaded at its own position, and only its own task can change |
| ListAdapter.Adapter.ResumeRows | yashoidlistadapter/src/main/java/com/yashoid/list/yashoidlistadapter/YashoidListAdapter.java:184-189 | every row becomes `Resumed`: synchronous mode leaves no row erased and starts no task; asynchronous mode gives each erased row a new task for its own position and keeps the others' tasks |
| ListAdapter.Adapter.OnScrollStateChanged | yashoidlistadapter/src/main/java/com/yashoid/list/yashoidlistadapter/YashoidListAdapter.java:179-193 | rows are resumed if and only if the list was flinging and the new state is not a fling: then synchronous mode loads every erased row at its own position and asynchronous mode gives each erased row a new task for its position, keeping the other rows' tasks; otherwise no row and no task changes; the fling flag becomes "the new state is a fling" |

## Left out

- Android views, the layout inflater, view tags, data-set observers and `getItemClass` reflection are left out: the model works on item objects, and their root view is an opaque number.
- `notifyDataSetChanged`, `notifyDataSetInvalidated`, `onDestroy` and `onScroll` are left out: they only call `reset` or notify observers.
- The `onItemCreated` and `onItemLoaded` hooks are left out. Both are empty by default. The item hooks `loadContent` and `eraseContent` are recorded in a trace instead of being run.
- `getItemViewType` and the view-type choice are left out. Every item is built the same way.
- Threads are modelled as interleaving steps. Page workers, and the `synchronized` blocks around item updates and the row tasks' `getContent`, are modelled as explicit step methods that callers run between other calls. Real concurrency is not modelled.
- PagingListAdapter.Adapter.constructor: requires a non-negative page size. With a negative one, `new ArrayList(mPageSize)` throws `IllegalArgumentException`, and the model does not build that adapter.
- Java `int` overflow is not modelled: positions, counts and page sizes are unbounded integers.
- `SparseArray` is modelled as a map.
- PagingListAdapter.Adapter.WorkerStep: only steps pages the adapter still points to. A destroyed page dropped from the window keeps filling its array in Java. Its steps change nothing the adapter can see and deliver nothing, as `PagingWindow.RunWorkerDeliversPending` shows for destroyed pages.
- PagingListAdapter.Page.Destroy: `cancel(true)` is modelled as stopping progress delivery only. The interrupt of a worker blocked in `getContent` is not modelled. A cancelled page's worker may still fill slots.
- PagingWindow.PageState.NeedPreviousPage: the source tests `mCurrentPage.contains` rather than the page's own `contains`. Its only call is on the current page, so the two coincide.
- ListAdapter.Finish: drops the task from the row. In Java, `ItemTask.task` keeps pointing at the finished task. The only later use is `cancel`, which has no effect on a finished task.
- ListAdapter.Adapter.Reset: `reset` does not cancel pending row tasks. In the model they stay pending, as in the source.
- The getters `getPosition`, `isEnabled`, `isErased`, `getContent` and `getRoot` of the item are read directly as fields of `Item`.
