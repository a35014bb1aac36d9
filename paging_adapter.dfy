/** `YashoidPagingListAdapter` and its inner `Page` as classes whose methods are
    proved to follow the value model of paging_window.dfy. */
module PagingListAdapter {
  import opened Common
  import opened ListItem
  import opened PagingWindow

  /** A content page: its slot array is filled in place by its worker. */
  class Page {
    const first: int
    const dir: Direction
    const slots: array<Slot>
    /** The adapter's `getContent(int)`, which the inner class calls. */
    const source: int -> Content
    var requests: map<int, Callback>
    /** How many slots the worker has completed. */
    var done: nat
    /** Set by `onDestroy`, which cancels the worker. */
    var destroyed: bool

    function View(): PageState
      reads this, slots
    {
      PageState(first, slots[..], requests, dir, done, destroyed)
    }

    /** The page agrees with its source and its worker has not been cancelled. */
    ghost predicate Valid()
      reads this, slots
    {
      View().Consistent(source) && !destroyed
    }

    /** The page has the extent its constructor gives it for `count` and `pageSize`. */
    predicate FitsIn(count: int, pageSize: int)
    {
      first >= 0 && slots.Length == PageLength(count, pageSize, first)
    }

    /** `Page(firstPosition, loadingDirection)` when its slot array can be made. */
    constructor (firstPosition: int, dir: Direction, count: int, pageSize: int, source: int -> Content)
      requires PageLength(count, pageSize, Max(firstPosition, 0)) >= 0
      ensures fresh(slots) && this.source == source && requests == map[]
      ensures NewPage(count, pageSize, firstPosition, dir) == Ok(View())
      ensures Valid() && FitsIn(count, pageSize)
    {
      var f := Max(firstPosition, 0);
      var len := PageLength(count, pageSize, f);
      var a := new Slot[len];
      for i := 0 to len
        invariant forall j :: 0 <= j < i ==> a[j] == Unloaded
      {
        a[i] := Unloaded;
      }
      assert a[..] == seq(len, _ => Unloaded);
      first, this.dir, slots, this.source := f, dir, a, source;
      requests, done, destroyed := map[], 0, false;
      NewPageConsistent(count, pageSize, firstPosition, dir, source);
    }

    method GetContent(position: int, cb: Option<Callback>) returns (r: Result<Slot>)
      requires Valid()
      modifies this`requests
      ensures Valid()
      ensures (View(), r) == old(View()).GetContent(position, cb)
    {
      GetContentConsistent(View(), position, cb, source);
      var i := position - first;
      if i < 0 || i >= slots.Length {
        return Err(IndexOutOfBounds);
      }
      if slots[i] != Unloaded {
        return Ok(slots[i]);
      }
      if cb.Some? {
        requests := requests[position := cb.value];
      }
      return Ok(Unloaded);
    }

    /** `getContent(position, null)`: reads a slot and registers nothing. */
    method Read(position: int) returns (r: Result<Slot>)
      ensures r == View().GetContent(position, None).1
    {
      var i := position - first;
      if i < 0 || i >= slots.Length {
        return Err(IndexOutOfBounds);
      }
      return Ok(slots[i]);
    }

    /** One step of the worker: `load(i)` followed by `onProgressUpdate(i)`. */
    method Advance() returns (d: Option<Delivery>)
      requires Valid() && done < slots.Length
      modifies this`done, this`requests, slots
      ensures Valid()
      ensures (View(), d) == old(View()).Advance(source)
      ensures forall q | q in requests :: q in old(requests) && requests[q] == old(requests)[q]
      ensures d.Some? ==> d.value.position in old(requests) && d.value.callback == old(requests)[d.value.position]
    {
      ghost var before := View();
      AdvanceConsistent(before, source);
      ghost var after := before.Advance(source);
      var i := if dir == Above then done else slots.Length - 1 - done;
      assert i == before.NextIndex();
      var position := first + i;
      slots[i] := Loaded(source(position));
      done := done + 1;
      assert slots[..] == before.slots[i := Loaded(source(position))];
      if !destroyed && position in requests {
        d := Some(Delivery(requests[position], source(position), position));
        requests := requests - {position};
      } else {
        d := None;
      }
      assert View() == after.0;
    }

    /** `onDestroy`: cancels the worker. */
    method Destroy()
      modifies this`destroyed
      ensures View() == old(View()).(destroyed := true)
    {
      destroyed := true;
    }
  }

  class Adapter {
    const pageSize: int
    /** The abstract `getContent(int)`. */
    const source: int -> Content
    /** The abstract `isEnabled(int)`. */
    const enabledAt: int -> bool
    var count: int
    var prev: Page?
    var cur: Page?
    var next: Page?
    /** `mItems`: every item view this adapter created. */
    var items: seq<Item>

    function Pages(): set<Page>
      reads this`prev, this`cur, this`next
    {
      (if prev != null then {prev} else {}) + (if cur != null then {cur} else {}) + (if next != null then {next} else {})
    }

    static function Footprint(p: Page?): set<object>
    {
      if p == null then {} else {p, p.slots}
    }

    function ItemSet(): set<Item>
      reads this
    {
      set it | it in items
    }

    function PointerAt(which: Which): Page?
      reads this`prev, this`cur, this`next
    {
      match which
      case PreviousPage => prev
      case CurrentPage => cur
      case NextPage => next
    }

    static function ViewOf(p: Page?): Option<PageState>
      reads if p != null then {p, p.slots} else {}
    {
      if p == null then None else Some(p.View())
    }

    ghost function Window(): WindowState
      reads this`count, this`prev, this`cur, this`next, Footprint(prev), Footprint(cur), Footprint(next)
    {
      WindowState(count, pageSize, ViewOf(prev), ViewOf(cur), ViewOf(next))
    }

    /** A page pointer is null, or points to a valid page of the adapter's
        source with the extent the current count gives it. */
    ghost predicate PageValid(p: Page?)
      reads this`count, Footprint(p)
    {
      p != null ==> p.Valid() && p.FitsIn(count, pageSize) && p.source == source
    }

    /** The invariant: the window's pages are valid and separate, and call back
        only into the adapter's own items, which are distinct. */
    ghost predicate Valid()
      reads this`count, this`prev, this`cur, this`next, this`items, Footprint(prev), Footprint(cur), Footprint(next)
    {
      PagesValid() && CallbacksValid() && ItemsDistinct()
    }

    ghost predicate PagesValid()
      reads this`count, this`prev, this`cur, this`next, Footprint(prev), Footprint(cur), Footprint(next)
    {
      && PageValid(prev) && PageValid(cur) && PageValid(next)
      && (prev != null && cur != null ==> prev != cur && prev.slots != cur.slots)
      && (prev != null && next != null ==> prev != next && prev.slots != next.slots)
      && (cur != null && next != null ==> cur != next && cur.slots != next.slots)
    }

    ghost predicate CallbacksValid()
      reads this`count, this`prev, this`cur, this`next, this`items, Footprint(prev), Footprint(cur), Footprint(next)
    {
      CallbacksIn(prev) && CallbacksIn(cur) && CallbacksIn(next)
    }

    /** Every callback pending on page `p` loads one of the adapter's items. */
    ghost predicate CallbacksIn(p: Page?)
      reads this`items, Footprint(p)
    {
      p != null ==> forall pos | pos in p.requests :: p.requests[pos].item in items
    }

    /** `p` is a page the window no longer points to. */
    ghost predicate Dropped(p: Page?)
      reads this`prev, this`cur, this`next
    {
      p != null && p != prev && p != cur && p != next
    }

    ghost predicate ItemsDistinct()
      reads this`items
    {
      forall i, j :: 0 <= i < j < |items| ==> items[i] != items[j]
    }

    /** The invariant gives the value model's invariant of the window. */
    lemma WindowValid()
      requires PagesValid()
      ensures Window().Valid(source)
    {
    }

    /** The constructor; it ends with `reset()`, which reads `getCount()`. A
        negative page size makes `new ArrayList(mPageSize)` throw. */
    constructor (pageSize: int, source: int -> Content, enabledAt: int -> bool, initialCount: int)
      requires pageSize >= 0
      ensures Valid() && items == []
      ensures Window() == WindowState(initialCount, pageSize, None, None, None)
      ensures this.source == source && this.enabledAt == enabledAt
    {
      this.pageSize, this.source, this.enabledAt := pageSize, source, enabledAt;
      count := initialCount;
      prev, cur, next := null, null, null;
      items := [];
    }

    /** `new Page(firstPosition, direction)`, which raises when the slot array
        would have a negative length. */
    method CreatePage(firstPosition: int, dir: Direction) returns (r: Result<Page>)
      ensures r.Err? ==> NewPage(count, pageSize, firstPosition, dir) == Err(r.error)
      ensures r.Ok? ==> && fresh(r.value) && fresh(r.value.slots) && r.value.source == source && r.value.requests == map[]
                        && NewPage(count, pageSize, firstPosition, dir) == Ok(r.value.View())
                        && r.value.Valid() && r.value.FitsIn(count, pageSize)
    {
      if PageLength(count, pageSize, Max(firstPosition, 0)) < 0 {
        return Err(NegativeArraySize);
      }
      var p := new Page(firstPosition, dir, count, pageSize, source);
      return Ok(p);
    }

    /** `mCurrentPage = new Page(firstPosition, dir)` when there is no current
        page; `Some(e)` is the exception raised. */
    method MakeCurrent(firstPosition: int, dir: Direction) returns (err: Option<Error>)
      requires Valid()
      modifies this`cur
      ensures Valid()
      ensures (Window(), err) == FillCurrent(old(Window()), firstPosition, dir)
      ensures err.None? <==> cur != null
      ensures cur != old(cur) ==> fresh(cur)
      ensures old(Pages()) <= Pages()
    {
      if cur != null {
        return None;
      }
      var made := CreatePage(firstPosition, dir);
      if made.Err? {
        return Some(made.error);
      }
      cur := made.value;
      assert PagesValid();
      return None;
    }

    /** Lines 233-240: drop the next page and move every pointer one place on. */
    method ShiftBack()
      requires Valid() && cur != null
      modifies this`prev, this`cur, this`next, next
      ensures Valid()
      ensures prev == null && cur == old(prev) && next == old(cur)
      ensures old(next) != null ==> old(next).destroyed
      ensures Window() == old(Window()).(prev := None, cur := old(Window()).prev, next := old(Window()).cur)
    {
      if next != null {
        next.Destroy();
      }
      next, cur, prev := cur, prev, null;
    }

    /** Lines 250-256: drop the previous page and move every pointer one place back. */
    method ShiftOn()
      requires Valid() && cur != null
      modifies this`prev, this`cur, this`next, prev
      ensures Valid()
      ensures next == null && cur == old(next) && prev == old(cur)
      ensures old(prev) != null ==> old(prev).destroyed
      ensures Window() == old(Window()).(prev := old(Window()).cur, cur := old(Window()).next, next := None)
    {
      if prev != null {
        prev.Destroy();
      }
      prev, cur, next := cur, next, null;
    }

    /** Lines 229-261 of `getPagedContent`: move the window one page towards a
        position outside the current page. `Some(e)` is the exception raised. */
    method ShiftTo(position: int) returns (err: Option<Error>)
      requires Valid() && cur != null
      modifies this`prev, this`cur, this`next, Pages()
      ensures Valid()
      ensures (Window(), err) == Shift(old(Window()), position)
      ensures err.None? ==> cur != null
      ensures cur != null ==> cur in old(Pages()) || fresh(cur)
      ensures Dropped(old(prev)) ==> old(prev).destroyed
      ensures Dropped(old(next)) ==> old(next).destroyed
    {
      var contains := cur.View().Contains(position);
      if contains < 0 {
        var firstPosition := cur.first - pageSize;
        ShiftBack();
        err := MakeCurrent(firstPosition, Below);
      } else if contains > 0 {
        var firstPosition := cur.first + pageSize;
        ShiftOn();
        err := MakeCurrent(firstPosition, Above);
      } else {
        err := None;
      }
    }

    /** Lines 263-265 of `getPagedContent`: create a missing previous page
        under the quarter-page rule. Its length is always valid. */
    method MakePrevious(position: int)
      requires Valid() && cur != null
      modifies this`prev
      ensures Valid() && cur == old(cur) && next == old(next)
      ensures (Window(), None) == AddPrevious(old(Window()), position)
      ensures prev != old(prev) ==> fresh(prev)
      ensures old(Pages()) <= Pages()
    {
      ghost var w := Window();
      if prev == null && cur.View().NeedPreviousPage(position) {
        NeighbourPagesFit(cur.View(), count, pageSize, Below);
        var made := CreatePage(cur.first - pageSize, Below);
        assert made.Ok?;
        prev := made.value;
        assert Window() == w.(prev := Some(made.value.View()));
      }
    }

    /** Lines 267-269 of `getPagedContent`: create a missing next page under
        the quarter-page rule. Its length is always valid. */
    method MakeNext(position: int)
      requires Valid() && cur != null
      modifies this`next
      ensures Valid() && cur == old(cur) && prev == old(prev)
      ensures (Window(), None) == AddNext(old(Window()), position)
      ensures next != old(next) ==> fresh(next)
      ensures old(Pages()) <= Pages()
    {
      ghost var w := Window();
      if next == null && cur.View().NeedNextPage(position, count) {
        NeighbourPagesFit(cur.View(), count, pageSize, Above);
        var made := CreatePage(cur.first + cur.slots.Length, Above);
        assert made.Ok?;
        next := made.value;
        assert Window() == w.(next := Some(made.value.View()));
      }
    }

    /** Line 271 of `getPagedContent`: ask the current page. */
    method LookupCurrent(position: int, cb: Option<Callback>) returns (r: Result<Slot>)
      requires Valid() && cur != null
      requires cb.Some? ==> cb.value.item in items
      modifies cur`requests
      ensures Valid()
      ensures (Window(), r) == Lookup(old(Window()), position, cb)
    {
      ghost var w := Window();
      r := cur.GetContent(position, cb);
      assert ViewOf(prev) == w.prev && ViewOf(next) == w.next;
    }

    /** Lines 225-261 of `getPagedContent`: a current page holding `position`. */
    method Realign(position: int) returns (err: Option<Error>)
      requires Valid()
      modifies this`prev, this`cur, this`next, Pages()
      ensures Valid()
      ensures var (w0, e0) := FillCurrent(old(Window()), position, Above);
        (Window(), err) == if e0.Some? then (w0, e0) else Shift(w0, position)
      ensures err.None? ==> cur != null
      ensures cur != null ==> cur in old(Pages()) || fresh(cur)
      ensures Dropped(old(prev)) ==> old(prev).destroyed
      ensures Dropped(old(next)) ==> old(next).destroyed
    {
      err := MakeCurrent(position, Above);
      if err.None? {
        err := ShiftTo(position);
      }
    }

    /** Lines 263-271 of `getPagedContent`: the neighbour pages, then the slot. */
    method Complete(position: int, cb: Option<Callback>) returns (r: Result<Slot>)
      requires Valid() && cur != null
      requires cb.Some? ==> cb.value.item in items
      modifies this`prev, this`next, cur`requests
      ensures Valid()
      ensures var (w2, e2) := AddPrevious(old(Window()), position);
        var (w3, e3) := AddNext(w2, position);
        && e2.None? && e3.None?
        && (Window(), r) == Lookup(w3, position, cb)
      ensures cur == old(cur)
      ensures old(prev) != null ==> prev == old(prev)
      ensures old(next) != null ==> next == old(next)
    {
      MakePrevious(position);
      MakeNext(position);
      r := LookupCurrent(position, cb);
    }

    /** `getPagedContent(position, callback)`. */
    method GetPagedContent(position: int, cb: Option<Callback>) returns (r: Result<Slot>)
      requires Valid()
      requires cb.Some? ==> cb.value.item in items
      modifies this`prev, this`cur, this`next, Pages()
      ensures Valid()
      ensures (Window(), r) == Resolve(old(Window()), position, cb)
      ensures Dropped(old(prev)) ==> old(prev).destroyed
      ensures Dropped(old(next)) ==> old(next).destroyed
    {
      var err := Realign(position);
      if err.Some? {
        return Err(err.value);
      }
      r := Complete(position, cb);
    }

    /** The peek `getPagedContent(position)`: `None` stands for Java `null`. */
    method PeekPagedContent(position: int) returns (r: Option<Slot>)
      ensures r == Peek(Window(), position)
    {
      if cur == null {
        return None;
      }
      var contains := cur.View().Contains(position);
      if contains < 0 {
        if prev != null && prev.View().Contains(position) == 0 {
          var s := prev.Read(position);
          return Some(s.value);
        }
        return None;
      }
      if contains > 0 {
        if next != null && next.View().Contains(position) == 0 {
          var s := next.Read(position);
          return Some(s.value);
        }
        return None;
      }
      var s := cur.Read(position);
      return Some(s.value);
    }

    /** `getItem(position)`: `Err(NullPointer)` when there is no current page. */
    method GetItem(position: int) returns (r: Result<Option<Slot>>)
      ensures r == ItemAt(Window(), position)
    {
      var page := cur;
      if page == null {
        return Err(NullPointer);
      }
      var contains := page.View().Contains(position);
      if contains == -1 {
        page := prev;
      } else if contains == 1 {
        page := next;
      }
      if page != null && page.View().Contains(position) == 0 {
        var s := page.Read(position);
        return Ok(Some(s.value));
      }
      return Ok(None);
    }

    /** Lines 64-77 of `reset()`: destroy the three pages and re-read the count. */
    method DropPages(newCount: int)
      requires Valid()
      modifies this`prev, this`cur, this`next, this`count, Pages()
      ensures Valid()
      ensures Window() == PagingWindow.Reset(old(Window()), newCount)
      ensures forall p | p in old(Pages()) :: p.destroyed
    {
      if cur != null {
        cur.Destroy();
        cur := null;
      }
      if next != null {
        next.Destroy();
        next := null;
      }
      if prev != null {
        prev.Destroy();
        prev := null;
      }
      count := newCount;
    }

    /** Lines 81-83 of `reset()`: detach every item. */
    method DetachAll()
      requires Valid()
      modifies ItemSet()
      ensures Valid()
      ensures forall i | 0 <= i < |items| :: items[i].State() == old(items[i].State()).(attached := false)
    {
      for i := 0 to |items|
        invariant forall j | 0 <= j < i :: items[j].State() == old(items[j].State()).(attached := false)
        invariant forall j | i <= j < |items| :: items[j].State() == old(items[j].State())
      {
        items[i].SetDetached();
      }
    }

    /** `reset()`: destroys the three pages, re-reads the count and detaches
        every item. */
    method Reset(newCount: int)
      requires Valid()
      modifies this`prev, this`cur, this`next, this`count, Pages(), ItemSet()
      ensures Valid()
      ensures Window() == PagingWindow.Reset(old(Window()), newCount)
      ensures forall p | p in old(Pages()) :: p.destroyed
      ensures forall i | 0 <= i < |items| :: items[i].State() == old(items[i].State()).(attached := false)
    {
      DropPages(newCount);
      DetachAll();
    }

    /** Lines 182-185 of `loadItem`: content that is already there is loaded at once. */
    method LoadIfPresent(item: Item, r: Result<Slot>)
      requires Valid()
      modifies item
      ensures Valid() && Window() == old(Window())
      ensures item.State() == LoadIfReady(old(item.State()), r)
    {
      if r.Ok? && r.value.Loaded? {
        var _ := item.Load(r.value.content);
      }
    }

    /** `loadItem(position, item, view)`: asks for the content with a callback
        that loads `item`, and loads it at once when the content is there. */
    method LoadItem(position: int, item: Item) returns (r: Result<Slot>)
      requires Valid() && item in items
      modifies this`prev, this`cur, this`next, Pages(), item
      ensures Valid()
      ensures (Window(), r) == Resolve(old(Window()), position, Some(LoadInto(item)))
      ensures item.State() == LoadIfReady(old(item.State()), r)
    {
      r := GetPagedContent(position, Some(LoadInto(item)));
      LoadIfPresent(item, r);
    }

    /** Lines 157-162 of `getView`: attach the item, give it its position and
        enabled flag, and erase it. */
    method Prepare(item: Item, position: int)
      requires Valid()
      modifies item
      ensures Valid() && Window() == old(Window())
      ensures item.State() == Bind(old(item.State()), position, enabledAt(position))
    {
      item.Rebind(position, enabledAt(position));
    }

    /** Lines 141-155 of `getView`: a new item when there is no view to reuse. */
    method ItemFor(recycled: Option<Item>) returns (item: Item)
      requires Valid()
      requires recycled.Some? ==> recycled.value in items
      modifies this`items
      ensures Valid() && Window() == old(Window()) && item in items
      ensures recycled.Some? ==> item == recycled.value && items == old(items)
      ensures recycled.None? ==> && fresh(item) && items == old(items) + [item]
                                 && item.root == |old(items)| && item.State() == Initial
    {
      if recycled.None? {
        item := new Item(|items|);
        ghost var before := items;
        assert PagesValid() && CallbacksValid();
        items := items + [item];
        assert forall it | it in before :: it in items;
        assert forall i | 0 <= i < |before| :: items[i] == before[i] != item;
      } else {
        item := recycled.value;
      }
    }

    /** The item `getView` shows: the recycled one, or a new one appended to
        the items that were `before`. */
    ghost predicate Chosen(recycled: Option<Item>, item: Item, before: seq<Item>)
      reads this`items
    {
      if recycled.Some? then item == recycled.value && items == before
      else items == before + [item] && item.root == |before|
    }

    /** Lines 141-162 of `getView`: the item to show, reused or made, bound to
        `position`. */
    method BindItem(position: int, recycled: Option<Item>) returns (item: Item)
      requires Valid()
      requires recycled.Some? ==> recycled.value in items
      modifies this`items, if recycled.Some? then {recycled.value} else {}
      ensures Valid() && Window() == old(Window()) && item in items
      ensures Chosen(recycled, item, old(items)) && (recycled.None? ==> fresh(item))
      ensures item.State() == Bind(if recycled.Some? then old(item.State()) else Initial, position, enabledAt(position))
    {
      item := ItemFor(recycled);
      Prepare(item, position);
    }

    /** From the window `w0` and the item state `s0`, `getView` reached this
        window and item state and returned `r`: the content was asked for with
        a callback loading `item`, and loaded at once when it was there. */
    ghost predicate Shown(w0: WindowState, s0: ItemState, position: int, item: Item, r: Result<nat>)
      reads this`count, this`prev, this`cur, this`next, Footprint(prev), Footprint(cur), Footprint(next), item
    {
      var (w, slot) := Resolve(w0, position, Some(LoadInto(item)));
      && Window() == w
      && r == (if slot.Ok? then Ok(item.root) else Err(slot.error))
      && item.State() == LoadIfReady(s0, slot)
    }

    /** `getView(position, convertView, parent)`: `recycled` is the item behind
        `convertView`; the result is the root view, or the exception raised. */
    method GetView(position: int, recycled: Option<Item>) returns (r: Result<nat>, item: Item)
      requires Valid()
      requires recycled.Some? ==> recycled.value in items
      modifies this`prev, this`cur, this`next, this`items, Pages(), if recycled.Some? then {recycled.value} else {}
      ensures Valid()
      ensures Chosen(recycled, item, old(items)) && (recycled.None? ==> fresh(item))
      ensures Shown(old(Window()), Bind(if recycled.Some? then old(item.State()) else Initial, position, enabledAt(position)),
                    position, item, r)
    {
      item := BindItem(position, recycled);
      r := ShowItem(position, item);
    }

    /** Lines 164-166 of `getView`: `loadItem`, then the item's root view. */
    method ShowItem(position: int, item: Item) returns (r: Result<nat>)
      requires Valid() && item in items
      modifies this`prev, this`cur, this`next, Pages(), item
      ensures Valid()
      ensures Shown(old(Window()), old(item.State()), position, item, r)
    {
      var slot := LoadItem(position, item);
      r := if slot.Ok? then Ok(item.root) else Err(slot.error);
    }

    /** One worker step of the previous page. */
    method AdvancePrevious() returns (d: Option<Delivery>)
      requires Valid() && prev != null && prev.done < prev.slots.Length
      modifies prev, prev.slots
      ensures Valid()
      ensures (Window(), d) == AdvanceAt(old(Window()), PreviousPage, source)
      ensures d.Some? ==> d.value.callback.item in items
    {
      ghost var w := Window();
      d := prev.Advance();
      assert ViewOf(cur) == w.cur && ViewOf(next) == w.next;
    }

    /** One worker step of the current page. */
    method AdvanceCurrent() returns (d: Option<Delivery>)
      requires Valid() && cur != null && cur.done < cur.slots.Length
      modifies cur, cur.slots
      ensures Valid()
      ensures (Window(), d) == AdvanceAt(old(Window()), CurrentPage, source)
      ensures d.Some? ==> d.value.callback.item in items
    {
      ghost var w := Window();
      d := cur.Advance();
      assert ViewOf(prev) == w.prev && ViewOf(next) == w.next;
    }

    /** One worker step of the next page. */
    method AdvanceNext() returns (d: Option<Delivery>)
      requires Valid() && next != null && next.done < next.slots.Length
      modifies next, next.slots
      ensures Valid()
      ensures (Window(), d) == AdvanceAt(old(Window()), NextPage, source)
      ensures d.Some? ==> d.value.callback.item in items
    {
      ghost var w := Window();
      d := next.Advance();
      assert ViewOf(prev) == w.prev && ViewOf(cur) == w.cur;
    }

    /** Lines 336-341: the worker of the page `which` points to loads its next
        slot; then lines 344-352 take the request for that position. */
    method AdvancePage(which: Which) returns (d: Option<Delivery>)
      requires Valid() && PointerAt(which) != null
      requires PointerAt(which).done < PointerAt(which).slots.Length
      modifies PointerAt(which), PointerAt(which).slots
      ensures Valid()
      ensures (Window(), d) == AdvanceAt(old(Window()), which, source)
      ensures d.Some? ==> d.value.callback.item in items
    {
      match which
      case PreviousPage => d := AdvancePrevious();
      case CurrentPage => d := AdvanceCurrent();
      case NextPage => d := AdvanceNext();
    }

    /** Line 350: the callback of `loadItem`, which loads its item only if the
        item still shows the delivered position. */
    method Deliver(d: Delivery)
      requires Valid() && d.callback.item in items
      modifies d.callback.item
      ensures Valid() && Window() == old(Window())
      ensures d.callback.item.State() ==
        (if old(d.callback.item.position) == d.position
         then AfterLoad(old(d.callback.item.State()), d.content) else old(d.callback.item.State()))
    {
      var item := d.callback.item;
      if item.position == d.position {
        var _ := item.Load(d.content);
      }
    }

    /** One step of a page's worker seen from the adapter: `load(i)` on the
        background thread, then `onProgressUpdate(i)`. */
    method WorkerStep(which: Which) returns (d: Option<Delivery>)
      requires Valid() && PointerAt(which) != null
      requires PointerAt(which).done < PointerAt(which).slots.Length
      modifies PointerAt(which), PointerAt(which).slots, ItemSet()
      ensures Valid()
      ensures (Window(), d) == AdvanceAt(old(Window()), which, source)
      ensures d.Some? ==> d.value.callback.item in items
      ensures forall it | it in items ::
        it.State() == (if d.Some? && it == d.value.callback.item && old(it.position) == d.value.position
                       then AfterLoad(old(it.State()), d.value.content) else old(it.State()))
    {
      d := AdvancePage(which);
      if d.Some? {
        Deliver(d.value);
      }
    }
  }

  /** The item after `loadItem` when the content was already there. */
  function LoadIfReady(s: ItemState, r: Result<Slot>): ItemState
  {
    if r.Ok? && r.value.Loaded? then AfterLoad(s, r.value.content) else s
  }
}
