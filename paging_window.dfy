/** The three-page sliding content window of `YashoidPagingListAdapter`, as values.
    The classes in paging_adapter.dfy are proved to follow these functions. */
module PagingWindow {
  import opened Common
  import opened ListItem

  const DefaultPageSize := 20

  /** The order in which a page's worker fills its slots. */
  datatype Direction = Above | Below

  /** The callback `loadItem` registers: it loads the content into `item`. */
  datatype Callback = LoadInto(item: Item)

  /** One callback invocation made when a slot completes. */
  datatype Delivery = Delivery(callback: Callback, content: Content, position: int)

  /** Number of slots of a page starting at `first`; negative when `first > count`. */
  function PageLength(count: int, pageSize: int, first: int): int {
    Min(count, first + pageSize) - first
  }

  /** A page: its clamped first position, its slots, the pending callbacks by
      position, its load direction, how many slots its worker has completed
      (`done`) and whether it was destroyed. */
  datatype PageState = PageState(
    first: int,
    slots: seq<Slot>,
    requests: map<int, Callback>,
    dir: Direction,
    done: nat,
    destroyed: bool)
  {
    /** End of the page, exclusive. */
    function End(): int { first + |slots| }

    /** `contains`: -1 before the page, 0 inside, 1 after. */
    function Contains(position: int): (r: int)
      ensures r == -1 || r == 0 || r == 1
      ensures r == -1 <==> position < first
      ensures r == 0 <==> first <= position < End()
      ensures r == 1 <==> End() <= position
    {
      if position < first then -1
      else if position < first + |slots| then 0
      else 1
    }

    /** `needPreviousPage`: the position is within a quarter page of the top edge. */
    function NeedPreviousPage(position: int): (r: bool)
      ensures first >= 0 ==> (r <==> position - |slots| / 4 < first)
      ensures first < 0 ==> !r
    {
      first >= 0 && Contains(position - |slots| / 4) == -1
    }

    /** `needNextPage`: more data follows and the position is within a quarter
        page of the bottom edge. */
    function NeedNextPage(position: int, count: int): (r: bool)
      ensures r <==> End() < count && End() <= position + |slots| / 4
    {
      first + |slots| < count && Contains(position + |slots| / 4) == 1
    }

    /** Whether the worker has already completed slot `i`. */
    predicate Processed(i: int) {
      if dir == Above then i < done else i >= |slots| - done
    }

    /** The shape every page keeps: `done` within bounds, exactly the processed
        slots loaded with the source's content, and pending callbacks only at
        positions of the page (unprocessed ones while the worker is live). */
    ghost predicate Consistent(source: int -> Content) {
      && done <= |slots|
      && (forall i :: 0 <= i < |slots| ==>
            slots[i] == if Processed(i) then Loaded(source(first + i)) else Unloaded)
      && (forall pos :: pos in requests ==>
            first <= pos < End() && (!destroyed ==> !Processed(pos - first)))
    }

    /** The page has the extent the constructor gives it for `count` and `pageSize`. */
    ghost predicate Fits(count: int, pageSize: int) {
      first >= 0 && |slots| == PageLength(count, pageSize, first)
    }

    /** `getContent(position, callback)`: the slot's content if loaded; otherwise
        the sentinel, registering the callback (if any) at that position. */
    function GetContent(position: int, cb: Option<Callback>): (r: (PageState, Result<Slot>))
      ensures r.1.Ok? <==> Contains(position) == 0
      ensures r.1.Err? ==> r == (this, Err(IndexOutOfBounds))
      ensures r.1.Ok? ==> r.1.value == slots[position - first]
      ensures r.1.Ok? && slots[position - first].Loaded? ==> r.0 == this
      ensures r.0.(requests := requests) == this
      ensures r.1 == Ok(Unloaded) && cb.Some? ==> r.0.requests == requests[position := cb.value]
      ensures cb.None? ==> r.0 == this
    {
      var i := position - first;
      if i < 0 || i >= |slots| then (this, Err(IndexOutOfBounds))
      else if slots[i] != Unloaded then (this, Ok(slots[i]))
      else if cb.Some? then (this.(requests := requests[position := cb.value]), Ok(Unloaded))
      else (this, Ok(Unloaded))
    }

    /** The slot the worker completes next: ascending for ABOVE, descending for BELOW. */
    function NextIndex(): (i: nat)
      requires done < |slots|
      ensures i < |slots|
      ensures !Processed(i)
    {
      if dir == Above then done else |slots| - 1 - done
    }

    /** One worker step (`load(i)` then `onProgressUpdate(i)`): writes the source's
        content into the next slot and, unless the page is destroyed, delivers
        and removes the callback pending at that position. */
    function Advance(source: int -> Content): (r: (PageState, Option<Delivery>))
      requires done < |slots|
      ensures var i, pos := NextIndex(), first + NextIndex();
        && r.0.first == first && r.0.dir == dir && r.0.destroyed == destroyed
        && r.0.done == done + 1
        && |r.0.slots| == |slots|
        && r.0.slots[i] == Loaded(source(pos))
        && (forall j :: 0 <= j < |slots| && j != i ==> r.0.slots[j] == slots[j])
        && (forall q :: q != pos ==> (q in r.0.requests <==> q in requests))
        && (forall q :: q != pos && q in requests ==> r.0.requests[q] == requests[q])
        && (pos in r.0.requests <==> destroyed && pos in requests)
        && (destroyed ==> r.0.requests == requests)
        && r.1 == if !destroyed && pos in requests
                  then Some(Delivery(requests[pos], source(pos), pos)) else None
    {
      var i := NextIndex();
      var pos := first + i;
      var page := this.(slots := slots[i := Loaded(source(pos))], done := done + 1);
      if destroyed || pos !in requests then (page, None)
      else (page.(requests := requests - {pos}), Some(Delivery(requests[pos], source(pos), pos)))
    }
  }

  /** The constructor `Page(firstPosition, direction)`. */
  function NewPage(count: int, pageSize: int, firstPosition: int, dir: Direction): (r: Result<PageState>)
    ensures r.Ok? <==> PageLength(count, pageSize, Max(firstPosition, 0)) >= 0
    ensures r.Err? ==> r.error == NegativeArraySize
    ensures r.Ok? ==>
      && r.value.first == Max(firstPosition, 0)
      && |r.value.slots| == PageLength(count, pageSize, r.value.first)
      && (forall i :: 0 <= i < |r.value.slots| ==> r.value.slots[i] == Unloaded)
      && r.value.requests == map[]
      && r.value.dir == dir && r.value.done == 0 && !r.value.destroyed
  {
    var first := Max(firstPosition, 0);
    var len := PageLength(count, pageSize, first);
    if len < 0 then Err(NegativeArraySize)
    else Ok(PageState(first, seq(len, _ => Unloaded), map[], dir, 0, false))
  }

  /** A new page is consistent, whatever the content source, and has its extent. */
  lemma NewPageConsistent(count: int, pageSize: int, firstPosition: int, dir: Direction, source: int -> Content)
    requires NewPage(count, pageSize, firstPosition, dir).Ok?
    ensures NewPage(count, pageSize, firstPosition, dir).value.Consistent(source)
    ensures NewPage(count, pageSize, firstPosition, dir).value.Fits(count, pageSize)
  {
  }

  /** Registering a callback keeps a page consistent. */
  lemma GetContentConsistent(p: PageState, position: int, cb: Option<Callback>, source: int -> Content)
    requires p.Consistent(source)
    ensures p.GetContent(position, cb).0.Consistent(source)
  {
  }

  /** Cached content is always the source's content of that position. */
  lemma GetContentIsSource(p: PageState, position: int, cb: Option<Callback>, source: int -> Content, c: Content)
    requires p.Consistent(source)
    requires p.GetContent(position, cb).1 == Ok(Loaded(c))
    ensures c == source(position)
  {
  }

  /** A worker step keeps a page consistent. */
  lemma AdvanceConsistent(p: PageState, source: int -> Content)
    requires p.Consistent(source) && p.done < |p.slots|
    ensures p.Advance(source).0.Consistent(source)
  {
    var q := p.Advance(source).0;
    var i := p.NextIndex();
    forall j | 0 <= j < |q.slots|
      ensures q.slots[j] == if q.Processed(j) then Loaded(source(q.first + j)) else Unloaded
    {
      assert q.Processed(j) <==> p.Processed(j) || j == i;
    }
  }

  /** The worker run to completion: the page afterwards and the deliveries made. */
  function RunWorker(p: PageState, source: int -> Content): (r: (PageState, seq<Delivery>))
    requires p.done <= |p.slots|
    decreases |p.slots| - p.done
  {
    if p.done == |p.slots| then (p, [])
    else
      var (q, d) := p.Advance(source);
      var (q', ds) := RunWorker(q, source);
      (q', (if d.Some? then [d.value] else []) + ds)
  }

  /** Position `a` is loaded before position `b` by a worker loading in `dir`. */
  predicate LoadsBefore(dir: Direction, a: int, b: int) {
    if dir == Above then a < b else a > b
  }

  /** Deliveries in strictly ascending (ABOVE) or descending (BELOW) position order. */
  ghost predicate InLoadOrder(ds: seq<Delivery>, dir: Direction) {
    forall j, k :: 0 <= j < k < |ds| ==> LoadsBefore(dir, ds[j].position, ds[k].position)
  }

  /** Running a worker to the end completes every slot with the source's content. */
  lemma {:induction false} RunWorkerLoads(p: PageState, source: int -> Content)
    requires p.Consistent(source)
    ensures var q := RunWorker(p, source).0;
      && q.first == p.first && q.dir == p.dir && q.destroyed == p.destroyed
      && q.done == |q.slots| == |p.slots|
      && (forall i :: 0 <= i < |q.slots| ==> q.slots[i] == Loaded(source(p.first + i)))
    decreases |p.slots| - p.done
  {
    if p.done < |p.slots| {
      AdvanceConsistent(p, source);
      RunWorkerLoads(p.Advance(source).0, source);
    } else {
      assert forall i :: 0 <= i < |p.slots| ==> p.Processed(i);
    }
  }

  /** `d` delivers a callback pending on `p` at a slot `p` has not processed,
      with the source's content at that position. */
  ghost predicate PendingDelivery(p: PageState, d: Delivery, source: int -> Content) {
    && d.position in p.requests
    && d == Delivery(p.requests[d.position], source(d.position), d.position)
    && !p.Processed(d.position - p.first)
  }

  /** Every delivery the worker makes is of a callback pending at the start, at
      its own position, with the source's content, at a slot not yet processed;
      a destroyed page makes none. */
  lemma {:induction false} RunWorkerDeliversPending(p: PageState, source: int -> Content)
    requires p.Consistent(source)
    ensures forall d | d in RunWorker(p, source).1 :: PendingDelivery(p, d, source)
    ensures p.destroyed ==> RunWorker(p, source).1 == []
    decreases |p.slots| - p.done
  {
    if p.done < |p.slots| {
      var (q, d) := p.Advance(source);
      AdvanceConsistent(p, source);
      RunWorkerDeliversPending(q, source);
      var ds := RunWorker(q, source).1;
      assert RunWorker(p, source).1 == (if d.Some? then [d.value] else []) + ds;
      forall e | e in RunWorker(p, source).1
        ensures PendingDelivery(p, e, source)
      {
        if e in ds {
          assert PendingDelivery(q, e, source);
          assert !q.Processed(e.position - p.first);
        }
      }
    }
  }

  /** The worker's deliveries come in load order: ascending positions for a page
      loading ABOVE, descending for BELOW. */
  lemma {:induction false} RunWorkerInLoadOrder(p: PageState, source: int -> Content)
    requires p.Consistent(source)
    ensures InLoadOrder(RunWorker(p, source).1, p.dir)
    decreases |p.slots| - p.done
  {
    if p.done < |p.slots| {
      var (q, d) := p.Advance(source);
      AdvanceConsistent(p, source);
      RunWorkerInLoadOrder(q, source);
      RunWorkerDeliversPending(q, source);
      var ds := RunWorker(q, source).1;
      var all := RunWorker(p, source).1;
      assert all == (if d.Some? then [d.value] else []) + ds;
      if d.Some? {
        var pos := p.first + p.NextIndex();
        assert d.value.position == pos;
        forall k | 0 <= k < |ds|
          ensures LoadsBefore(p.dir, pos, ds[k].position)
        {
          assert PendingDelivery(q, ds[k], source);
        }
        forall j, k | 0 <= j < k < |all|
          ensures LoadsBefore(p.dir, all[j].position, all[k].position)
        {
          assert all[k] == ds[k - 1];
          if j > 0 {
            assert all[j] == ds[j - 1];
          }
        }
      }
    }
  }

  /** A live page's worker delivers every pending callback and leaves none pending. */
  lemma {:induction false} RunWorkerDeliversAll(p: PageState, source: int -> Content)
    requires p.Consistent(source) && !p.destroyed
    ensures var (q, ds) := RunWorker(p, source);
      && q.requests == map[]
      && (forall pos :: pos in p.requests ==> exists d :: d in ds && d.position == pos)
    decreases |p.slots| - p.done
  {
    if p.done < |p.slots| {
      var (q, d) := p.Advance(source);
      AdvanceConsistent(p, source);
      RunWorkerDeliversAll(q, source);
      var ds := RunWorker(q, source).1;
      var pos := p.first + p.NextIndex();
      forall k | k in p.requests
        ensures exists e :: e in RunWorker(p, source).1 && e.position == k
      {
        if k == pos {
          assert d.Some? && d.value in RunWorker(p, source).1;
        } else {
          assert k in q.requests;
          var e :| e in ds && e.position == k;
          assert e in RunWorker(p, source).1;
        }
      }
    } else {
      // every slot is processed, so no position can still be pending
      assert forall pos :: pos in p.requests ==> p.Processed(pos - p.first);
      assert p.requests.Keys == {};
    }
  }

  /** The adapter's window state: `mCount`, `mPageSize` and the three optional pages. */
  datatype WindowState = WindowState(
    count: int,
    pageSize: int,
    prev: Option<PageState>,
    cur: Option<PageState>,
    next: Option<PageState>)
  {
    /** Every present page has the extent its constructor gave it and is consistent. */
    ghost predicate Valid(source: int -> Content) {
      && (prev.Some? ==> prev.value.Fits(count, pageSize) && prev.value.Consistent(source) && !prev.value.destroyed)
      && (cur.Some? ==> cur.value.Fits(count, pageSize) && cur.value.Consistent(source) && !cur.value.destroyed)
      && (next.Some? ==> next.value.Fits(count, pageSize) && next.value.Consistent(source) && !next.value.destroyed)
    }
  }

  /** One of the three page pointers. */
  datatype Which = PreviousPage | CurrentPage | NextPage

  function PageAt(w: WindowState, which: Which): Option<PageState> {
    match which
    case PreviousPage => w.prev
    case CurrentPage => w.cur
    case NextPage => w.next
  }

  /** A worker step of the page `which` points to, seen from the window: only
      that page changes, as `Advance` says. */
  function AdvanceAt(w: WindowState, which: Which, source: int -> Content): (r: (WindowState, Option<Delivery>))
    requires PageAt(w, which).Some? && PageAt(w, which).value.done < |PageAt(w, which).value.slots|
    ensures PageAt(r.0, which) == Some(PageAt(w, which).value.Advance(source).0)
    ensures r.1 == PageAt(w, which).value.Advance(source).1
    ensures forall o :: o != which ==> PageAt(r.0, o) == PageAt(w, o)
    ensures r.0.count == w.count && r.0.pageSize == w.pageSize
  {
    var (p, d) := PageAt(w, which).value.Advance(source);
    match which
    case PreviousPage => (w.(prev := Some(p)), d)
    case CurrentPage => (w.(cur := Some(p)), d)
    case NextPage => (w.(next := Some(p)), d)
  }

  /** A worker step keeps the window's pages consistent. */
  lemma AdvanceAtKeepsValid(w: WindowState, which: Which, source: int -> Content)
    requires w.Valid(source)
    requires PageAt(w, which).Some? && PageAt(w, which).value.done < |PageAt(w, which).value.slots|
    ensures AdvanceAt(w, which, source).0.Valid(source)
  {
    AdvanceConsistent(PageAt(w, which).value, source);
  }

  /** The state `reset` leaves: no page, `count` re-read. */
  function Reset(w: WindowState, newCount: int): (r: WindowState)
    ensures r.prev.None? && r.cur.None? && r.next.None?
    ensures r.count == newCount && r.pageSize == w.pageSize
  {
    WindowState(newCount, w.pageSize, None, None, None)
  }

  /** `getPagedContent(position, callback)`: the window afterwards and the
      result (a slot, or the exception raised part way, with the changes made
      before it kept). Each stage returns the window and the exception it
      raised, if any. */
  function Resolve(w: WindowState, position: int, cb: Option<Callback>): (r: (WindowState, Result<Slot>))
    ensures r.0.count == w.count && r.0.pageSize == w.pageSize
    ensures r.1.Ok? ==> r.0.cur.Some? && r.0.cur.value.Contains(position) == 0
    ensures r.1.Ok? ==> r.1.value == r.0.cur.value.slots[position - r.0.cur.value.first]
  {
    var (w0, e0) := FillCurrent(w, position, Above);
    if e0.Some? then (w0, Err(e0.value)) else
    var (w1, e1) := Shift(w0, position);
    if e1.Some? then (w1, Err(e1.value)) else
    var (w2, e2) := AddPrevious(w1, position);
    if e2.Some? then (w2, Err(e2.value)) else
    var (w3, e3) := AddNext(w2, position);
    if e3.Some? then (w3, Err(e3.value)) else
    Lookup(w3, position, cb)
  }

  /** `mCurrentPage = new Page(firstPosition, dir)` when there is no current
      page (lines 225-227, 242-244 and 258-260). */
  function FillCurrent(w: WindowState, firstPosition: int, dir: Direction): (r: (WindowState, Option<Error>))
    ensures r.0.count == w.count && r.0.pageSize == w.pageSize && r.0.prev == w.prev && r.0.next == w.next
    ensures r.1.None? <==> r.0.cur.Some?
    ensures w.cur.Some? ==> r.0 == w
    ensures w.cur.None? && r.0.cur.Some? ==> NewPage(w.count, w.pageSize, firstPosition, dir) == Ok(r.0.cur.value)
    ensures w.cur.None? ==>
      var np := NewPage(w.count, w.pageSize, firstPosition, dir);
      r == if np.Ok? then (w.(cur := Some(np.value)), None) else (w, Some(np.error))
  {
    if w.cur.Some? then (w, None)
    else
      match NewPage(w.count, w.pageSize, firstPosition, dir)
      case Err(e) => (w, Some(e))
      case Ok(p) => (w.(cur := Some(p)), None)
  }

  /** Lines 229-261: when the position lies outside the current page, the
      window moves one page towards it; the page at the far end leaves it, and
      a current page is made if none was cached on that side. */
  function Shift(w: WindowState, position: int): (r: (WindowState, Option<Error>))
    requires w.cur.Some?
    ensures r.0.count == w.count && r.0.pageSize == w.pageSize
    ensures r.1.None? ==> r.0.cur.Some?
    ensures w.cur.value.Contains(position) == 0 ==> r == (w, None)
    ensures w.cur.value.Contains(position) < 0 ==>
      && r.0.prev.None? && r.0.next == w.cur
      && (w.prev.Some? ==> r == (r.0, None) && r.0.cur == w.prev)
    ensures w.cur.value.Contains(position) > 0 ==>
      && r.0.prev == w.cur && r.0.next.None?
      && (w.next.Some? ==> r == (r.0, None) && r.0.cur == w.next)
    ensures w.cur.value.Contains(position) < 0 && w.prev.None? ==>
      var np := NewPage(w.count, w.pageSize, w.cur.value.first - w.pageSize, Below);
      if np.Ok? then r.1.None? && r.0.cur == Some(np.value) else r.1 == Some(np.error) && r.0.cur.None?
    ensures w.cur.value.Contains(position) > 0 && w.next.None? ==>
      var np := NewPage(w.count, w.pageSize, w.cur.value.first + w.pageSize, Above);
      if np.Ok? then r.1.None? && r.0.cur == Some(np.value) else r.1 == Some(np.error) && r.0.cur.None?
  {
    var c := w.cur.value;
    var k := c.Contains(position);
    if k < 0 then FillCurrent(w.(prev := None, cur := w.prev, next := w.cur), c.first - w.pageSize, Below)
    else if k > 0 then FillCurrent(w.(prev := w.cur, cur := w.next, next := None), c.first + w.pageSize, Above)
    else (w, None)
  }

  /** A page below a page of its constructed extent, and a page just after one
      that ends before `count`, can always be made: lines 243, 264 and 268
      never raise. */
  lemma NeighbourPagesFit(c: PageState, count: int, pageSize: int, dir: Direction)
    requires c.Fits(count, pageSize)
    ensures NewPage(count, pageSize, c.first - pageSize, dir).Ok?
    ensures c.End() < count ==> NewPage(count, pageSize, c.End(), dir).Ok?
    ensures c.End() < count ==> |c.slots| == pageSize
  {
  }

  /** Lines 263-265: create a missing previous page under the quarter-page rule. */
  function AddPrevious(w: WindowState, position: int): (r: (WindowState, Option<Error>))
    requires w.cur.Some?
    ensures r.0.count == w.count && r.0.pageSize == w.pageSize && r.0.cur == w.cur && r.0.next == w.next
    ensures r.1.Some? ==> r.0 == w
    ensures w.prev.Some? ==> r == (w, None)
    ensures w.prev.None? && !w.cur.value.NeedPreviousPage(position) ==> r == (w, None)
    ensures w.prev.None? && r.0.prev.Some? ==>
      && w.cur.value.NeedPreviousPage(position)
      && Ok(r.0.prev.value) == NewPage(w.count, w.pageSize, w.cur.value.first - w.pageSize, Below)
    ensures w.prev.None? && w.cur.value.NeedPreviousPage(position) ==>
      var np := NewPage(w.count, w.pageSize, w.cur.value.first - w.pageSize, Below);
      r == if np.Ok? then (w.(prev := Some(np.value)), None) else (w, Some(np.error))
  {
    var c := w.cur.value;
    if w.prev.None? && c.NeedPreviousPage(position) then
      match NewPage(w.count, w.pageSize, c.first - w.pageSize, Below)
      case Err(e) => (w, Some(e))
      case Ok(p) => (w.(prev := Some(p)), None)
    else (w, None)
  }

  /** Lines 267-269: create a missing next page under the quarter-page rule. */
  function AddNext(w: WindowState, position: int): (r: (WindowState, Option<Error>))
    requires w.cur.Some?
    ensures r.0.count == w.count && r.0.pageSize == w.pageSize && r.0.cur == w.cur && r.0.prev == w.prev
    ensures r.1.Some? ==> r.0 == w
    ensures w.next.Some? ==> r == (w, None)
    ensures w.next.None? && !w.cur.value.NeedNextPage(position, w.count) ==> r == (w, None)
    ensures w.next.None? && r.0.next.Some? ==>
      && w.cur.value.NeedNextPage(position, w.count)
      && Ok(r.0.next.value) == NewPage(w.count, w.pageSize, w.cur.value.End(), Above)
    ensures w.next.None? && w.cur.value.NeedNextPage(position, w.count) ==>
      var np := NewPage(w.count, w.pageSize, w.cur.value.End(), Above);
      r == if np.Ok? then (w.(next := Some(np.value)), None) else (w, Some(np.error))
  {
    var c := w.cur.value;
    if w.next.None? && c.NeedNextPage(position, w.count) then
      match NewPage(w.count, w.pageSize, c.first + |c.slots|, Above)
      case Err(e) => (w, Some(e))
      case Ok(p) => (w.(next := Some(p)), None)
    else (w, None)
  }

  /** Line 271: `mCurrentPage.getContent(position, callback)`. */
  function Lookup(w: WindowState, position: int, cb: Option<Callback>): (r: (WindowState, Result<Slot>))
    requires w.cur.Some?
    ensures r.0 == w.(cur := Some(w.cur.value.GetContent(position, cb).0))
    ensures r.1 == w.cur.value.GetContent(position, cb).1
  {
    var (p, s) := w.cur.value.GetContent(position, cb);
    (w.(cur := Some(p)), s)
  }

  /** The peek `getPagedContent(position)`: `None` stands for Java `null`. */
  function Peek(w: WindowState, position: int): (r: Option<Slot>)
    ensures w.cur.None? ==> r.None?
    ensures r.Some? ==> (exists p :: p in [w.prev, w.cur, w.next] && p.Some? &&
                           p.value.Contains(position) == 0 && r.value == p.value.slots[position - p.value.first])
    ensures w.cur.Some? && w.cur.value.Contains(position) == 0 ==>
      r == Some(w.cur.value.slots[position - w.cur.value.first])
    ensures w.cur.Some? && w.cur.value.Contains(position) < 0 ==>
      r == if w.prev.Some? && w.prev.value.Contains(position) == 0
           then Some(w.prev.value.slots[position - w.prev.value.first]) else None
    ensures w.cur.Some? && w.cur.value.Contains(position) > 0 ==>
      r == if w.next.Some? && w.next.value.Contains(position) == 0
           then Some(w.next.value.slots[position - w.next.value.first]) else None
  {
    if w.cur.None? then None
    else
      var c := w.cur.value;
      var k := c.Contains(position);
      if k < 0 then
        if w.prev.Some? && w.prev.value.Contains(position) == 0
        then Some(w.prev.value.GetContent(position, None).1.value) else None
      else if k > 0 then
        if w.next.Some? && w.next.value.Contains(position) == 0
        then Some(w.next.value.GetContent(position, None).1.value) else None
      else Some(c.GetContent(position, None).1.value)
  }

  /** `getItem(position)`: like the peek, but it dereferences the current page. */
  function ItemAt(w: WindowState, position: int): (r: Result<Option<Slot>>)
    ensures r.Err? <==> w.cur.None?
    ensures r.Err? ==> r.error == NullPointer
  {
    if w.cur.None? then Err(NullPointer)
    else
      var c := w.cur.value;
      var page := match c.Contains(position) case -1 => w.prev case 1 => w.next case _ => w.cur;
      if page.Some? && page.value.Contains(position) == 0
      then Ok(Some(page.value.GetContent(position, None).1.value))
      else Ok(None)
  }

  // ---------------------------------------------------------------------------
  // Properties of the window

  /** Line 271 keeps every page consistent and of its constructed extent. */
  lemma LookupKeepsValid(w: WindowState, position: int, cb: Option<Callback>, source: int -> Content)
    requires w.Valid(source) && w.cur.Some?
    ensures Lookup(w, position, cb).0.Valid(source)
  {
    GetContentConsistent(w.cur.value, position, cb, source);
  }

  /** A page made for an empty current slot is consistent and of its extent. */
  lemma FillCurrentKeepsValid(w: WindowState, firstPosition: int, dir: Direction, source: int -> Content)
    requires w.Valid(source)
    ensures FillCurrent(w, firstPosition, dir).0.Valid(source)
  {
    if w.cur.None? && NewPage(w.count, w.pageSize, firstPosition, dir).Ok? {
      NewPageConsistent(w.count, w.pageSize, firstPosition, dir, source);
    }
  }

  lemma ShiftKeepsValid(w: WindowState, position: int, source: int -> Content)
    requires w.Valid(source) && w.cur.Some?
    ensures Shift(w, position).0.Valid(source)
  {
    var c := w.cur.value;
    var k := c.Contains(position);
    if k < 0 {
      FillCurrentKeepsValid(w.(prev := None, cur := w.prev, next := w.cur), c.first - w.pageSize, Below, source);
    } else if k > 0 {
      FillCurrentKeepsValid(w.(prev := w.cur, cur := w.next, next := None), c.first + w.pageSize, Above, source);
    }
  }

  lemma AddPreviousKeepsValid(w: WindowState, position: int, source: int -> Content)
    requires w.Valid(source) && w.cur.Some?
    ensures AddPrevious(w, position).0.Valid(source)
  {
    var c := w.cur.value;
    if NewPage(w.count, w.pageSize, c.first - w.pageSize, Below).Ok? {
      NewPageConsistent(w.count, w.pageSize, c.first - w.pageSize, Below, source);
    }
  }

  lemma AddNextKeepsValid(w: WindowState, position: int, source: int -> Content)
    requires w.Valid(source) && w.cur.Some?
    ensures AddNext(w, position).0.Valid(source)
  {
    var c := w.cur.value;
    if NewPage(w.count, w.pageSize, c.End(), Above).Ok? {
      NewPageConsistent(w.count, w.pageSize, c.End(), Above, source);
    }
  }

  /** `getPagedContent` keeps every page consistent and of its constructed
      extent, whether it returns or raises. */
  lemma ResolveKeepsValid(w: WindowState, position: int, cb: Option<Callback>, source: int -> Content)
    requires w.Valid(source)
    ensures Resolve(w, position, cb).0.Valid(source)
  {
    var (w0, e0) := FillCurrent(w, position, Above);
    FillCurrentKeepsValid(w, position, Above, source);
    if e0.None? {
      var (w1, e1) := Shift(w0, position);
      ShiftKeepsValid(w0, position, source);
      if e1.None? {
        var (w2, e2) := AddPrevious(w1, position);
        AddPreviousKeepsValid(w1, position, source);
        if e2.None? {
          var (w3, e3) := AddNext(w2, position);
          AddNextKeepsValid(w2, position, source);
          if e3.None? {
            LookupKeepsValid(w3, position, cb, source);
          }
        }
      }
    }
  }

  /** Whatever content `getPagedContent` returns is the source's content of that position. */
  lemma ResolveReturnsSource(w: WindowState, position: int, cb: Option<Callback>, source: int -> Content, c: Content)
    requires w.Valid(source)
    requires Resolve(w, position, cb).1 == Ok(Loaded(c))
    ensures c == source(position)
  {
    ResolveKeepsValid(w, position, cb, source);
    var p := Resolve(w, position, cb).0.cur.value;
    assert p.slots[position - p.first] == Loaded(c);
  }

  /** A peek right after `getPagedContent` sees the slot it returned. */
  lemma PeekAfterResolve(w: WindowState, position: int, cb: Option<Callback>)
    requires Resolve(w, position, cb).1.Ok?
    ensures Peek(Resolve(w, position, cb).0, position) == Some(Resolve(w, position, cb).1.value)
  {
    var r := Resolve(w, position, cb);
    PeekInCurrent(r.0, position);
  }

  /** The peek of a position inside the current page reads the current page. */
  lemma PeekInCurrent(w: WindowState, position: int)
    requires w.cur.Some? && w.cur.value.Contains(position) == 0
    ensures Peek(w, position) == Some(w.cur.value.slots[position - w.cur.value.first])
  {
  }

  /** With a current page, `getItem` answers exactly what the peek answers. */
  lemma ItemAtIsPeek(w: WindowState, position: int)
    requires w.cur.Some?
    ensures ItemAt(w, position) == Ok(Peek(w, position))
  {
  }

  /** The arrangement the window keeps while it is used one row at a time: the
      previous page starts one page before the current one (clamped at 0), and
      the current page starts one page before the next one (clamped at 0) and
      ends at or after the next page's start. Pages may overlap near position 0. */
  ghost predicate Coherent(w: WindowState) {
    && w.pageSize > 0
    && (w.prev.Some? ==> w.prev.value.Fits(w.count, w.pageSize))
    && (w.cur.Some? ==> w.cur.value.Fits(w.count, w.pageSize))
    && (w.next.Some? ==> w.next.value.Fits(w.count, w.pageSize))
    && (w.prev.Some? ==> w.cur.Some? && w.prev.value.first == Max(w.cur.value.first - w.pageSize, 0))
    && (w.next.Some? ==>
          && w.cur.Some?
          && w.cur.value.first == Max(w.next.value.first - w.pageSize, 0)
          && w.cur.value.first < w.next.value.first <= w.cur.value.End())
  }

  /** The empty window is coherent. */
  lemma EmptyCoherent(count: int, pageSize: int)
    requires pageSize > 0
    ensures Coherent(WindowState(count, pageSize, None, None, None))
  {
  }

  /** Making a missing previous page never raises and keeps coherence. */
  lemma AddPreviousSafe(w: WindowState, position: int)
    requires Coherent(w) && w.cur.Some?
    ensures AddPrevious(w, position).1.None?
    ensures Coherent(AddPrevious(w, position).0)
  {
    NeighbourPagesFit(w.cur.value, w.count, w.pageSize, Below);
  }

  /** Making a missing next page never raises and keeps coherence. */
  lemma AddNextSafe(w: WindowState, position: int)
    requires Coherent(w) && w.cur.Some?
    ensures AddNext(w, position).1.None?
    ensures Coherent(AddNext(w, position).0)
  {
    NeighbourPagesFit(w.cur.value, w.count, w.pageSize, Above);
  }

  /** Moving one row above a coherent current page: the window shifts down
      without raising, stays coherent and then holds the row. */
  lemma DownShiftSafe(w: WindowState, position: int)
    requires Coherent(w) && w.cur.Some? && 0 <= position < w.count
    requires position == w.cur.value.first - 1
    ensures Shift(w, position).1.None?
    ensures Coherent(Shift(w, position).0)
    ensures Shift(w, position).0.cur.value.Contains(position) == 0
  {
    var c := w.cur.value;
    if w.prev.None? {
      var np := NewPage(w.count, w.pageSize, c.first - w.pageSize, Below);
      assert np.Ok?;
    }
  }

  /** Moving one row below a coherent current page: the window shifts up
      without raising, stays coherent and then holds the row. */
  lemma UpShiftSafe(w: WindowState, position: int)
    requires Coherent(w) && w.cur.Some? && 0 <= position < w.count
    requires position == w.cur.value.End()
    ensures Shift(w, position).1.None?
    ensures Coherent(Shift(w, position).0)
    ensures Shift(w, position).0.cur.value.Contains(position) == 0
  {
    var c := w.cur.value;
    assert |c.slots| == w.pageSize;
    if w.next.None? {
      var np := NewPage(w.count, w.pageSize, c.first + w.pageSize, Above);
      assert np.Ok?;
    }
  }

  /** At most one row outside a coherent current page, the shift never raises,
      keeps coherence and leaves the row in the current page. */
  lemma ShiftSafe(w: WindowState, position: int)
    requires Coherent(w) && w.cur.Some? && 0 <= position < w.count
    requires w.cur.value.first - 1 <= position <= w.cur.value.End()
    ensures Shift(w, position).1.None?
    ensures Coherent(Shift(w, position).0)
    ensures Shift(w, position).0.cur.value.Contains(position) == 0
  {
    var k := w.cur.value.Contains(position);
    if k < 0 {
      DownShiftSafe(w, position);
    } else if k > 0 {
      UpShiftSafe(w, position);
    }
  }

  /** Once the current page holds the row, lines 263-271 never raise and keep
      coherence. */
  lemma CompleteSafe(w: WindowState, position: int, cb: Option<Callback>)
    requires Coherent(w) && w.cur.Some? && w.cur.value.Contains(position) == 0
    ensures var (w2, e2) := AddPrevious(w, position);
      var (w3, e3) := AddNext(w2, position);
      && e2.None? && e3.None? && w3.cur == w.cur
      && Lookup(w3, position, cb).1.Ok? && Coherent(Lookup(w3, position, cb).0)
  {
    AddPreviousSafe(w, position);
    var (w2, e2) := AddPrevious(w, position);
    AddNextSafe(w2, position);
  }

  /** Asking for a position inside the data that is at most one row outside the
      current page (or asking anything of an empty window) never raises, keeps
      the window coherent and leaves that position in the current page. */
  lemma StepSafe(w: WindowState, position: int, cb: Option<Callback>)
    requires Coherent(w)
    requires 0 <= position < w.count
    requires w.cur.Some? ==> w.cur.value.first - 1 <= position <= w.cur.value.End()
    ensures Resolve(w, position, cb).1.Ok?
    ensures Coherent(Resolve(w, position, cb).0)
  {
    var (w0, e0) := FillCurrent(w, position, Above);
    if w.cur.None? {
      var np := NewPage(w.count, w.pageSize, position, Above);
      assert np.Ok?;
    }
    assert e0.None? && Coherent(w0);
    ShiftSafe(w0, position);
    var (w1, e1) := Shift(w0, position);
    CompleteSafe(w1, position, cb);
  }

  /** A run of `getPagedContent` calls: the final window and every result. */
  function ResolveAll(w: WindowState, reqs: seq<(int, Option<Callback>)>): (r: (WindowState, seq<Result<Slot>>))
    ensures |r.1| == |reqs|
    decreases |reqs|
  {
    if reqs == [] then (w, [])
    else
      var (w1, res) := Resolve(w, reqs[0].0, reqs[0].1);
      var (w2, rest) := ResolveAll(w1, reqs[1..]);
      (w2, [res] + rest)
  }

  /** Scrolling row by row through the data, starting from an empty window (as
      after `reset`), never raises and keeps the window coherent. */
  lemma {:induction false} ScrollingNeverFails(w: WindowState, reqs: seq<(int, Option<Callback>)>)
    requires Coherent(w)
    requires forall k :: 0 <= k < |reqs| ==> 0 <= reqs[k].0 < w.count
    requires forall k :: 0 < k < |reqs| ==> reqs[k - 1].0 - 1 <= reqs[k].0 <= reqs[k - 1].0 + 1
    requires reqs != [] && w.cur.Some? ==> w.cur.value.first - 1 <= reqs[0].0 <= w.cur.value.End()
    ensures forall k :: 0 <= k < |reqs| ==> ResolveAll(w, reqs).1[k].Ok?
    ensures Coherent(ResolveAll(w, reqs).0)
    decreases |reqs|
  {
    if reqs != [] {
      var p := reqs[0].0;
      StepSafe(w, p, reqs[0].1);
      var w1 := Resolve(w, p, reqs[0].1).0;
      assert w1.cur.value.Contains(p) == 0;
      assert forall k :: 0 < k < |reqs| - 1 ==> reqs[1..][k - 1].0 == reqs[k].0 && reqs[1..][k].0 == reqs[k + 1].0;
      ScrollingNeverFails(w1, reqs[1..]);
      var rest := ResolveAll(w1, reqs[1..]).1;
      assert ResolveAll(w, reqs).1 == [Resolve(w, p, reqs[0].1).1] + rest;
    }
  }

  /** Asking again for a position that is still loading replaces its callback:
      when the worker completes, exactly one callback is delivered at that
      position, the latest one. */
  lemma ReRequestDeliversLatestOnce(p: PageState, position: int, cb1: Callback, cb2: Callback, source: int -> Content)
    requires p.Consistent(source) && !p.destroyed
    requires p.Contains(position) == 0 && p.slots[position - p.first] == Unloaded
    ensures var p1 := p.GetContent(position, Some(cb1)).0;
      var p2 := p1.GetContent(position, Some(cb2)).0;
      var ds := RunWorker(p2, source).1;
      && (exists k :: 0 <= k < |ds| && ds[k] == Delivery(cb2, source(position), position))
      && (forall j, k :: 0 <= j < |ds| && 0 <= k < |ds| && ds[j].position == position && ds[k].position == position ==> j == k)
  {
    var p1 := p.GetContent(position, Some(cb1)).0;
    GetContentConsistent(p, position, Some(cb1), source);
    var p2 := p1.GetContent(position, Some(cb2)).0;
    GetContentConsistent(p1, position, Some(cb2), source);
    assert p2.requests == p.requests[position := cb1][position := cb2];
    RunWorkerDeliversPending(p2, source);
    RunWorkerInLoadOrder(p2, source);
    RunWorkerDeliversAll(p2, source);
    var ds := RunWorker(p2, source).1;
    assert position in p2.requests;
    var d :| d in ds && d.position == position;
    var k :| 0 <= k < |ds| && ds[k] == d;
    assert ds[k] == Delivery(cb2, source(position), position);
  }

  // ---------------------------------------------------------------------------
  // Concrete windows showing the quirks of the arrangement

  const Fresh100 := WindowState(100, DefaultPageSize, None, None, None)

  /** The first page is anchored at the requested row, and the previous page
      created at once is clamped to 0, so it overlaps the current page. */
  lemma OverlapNearZero()
    ensures var w := Resolve(Fresh100, 5, None).0;
      && w.cur.Some? && w.cur.value.first == 5 && w.cur.value.End() == 25
      && w.prev.Some? && w.prev.value.first == 0 && w.prev.value.End() == 20
      && w.next.None?
  {
    assert Fresh100.pageSize == 20;
  }

  /** An untouched page of the 100-row, 20-row-page example. */
  function Blank(first: int, dir: Direction): PageState {
    PageState(first, seq(20, _ => Unloaded), map[], dir, 0, false)
  }

  lemma JumpStep1()
    ensures Resolve(Fresh100, 5, None)
            == (WindowState(100, 20, Some(Blank(0, Below)), Some(Blank(5, Above)), None), Ok(Unloaded))
  {
    assert NewPage(100, 20, 5, Above) == Ok(Blank(5, Above));
    assert NewPage(100, 20, 5 - 20, Below) == Ok(Blank(0, Below));
  }

  lemma JumpStep2()
    ensures Resolve(WindowState(100, 20, Some(Blank(0, Below)), Some(Blank(5, Above)), None), 4, None)
            == (WindowState(100, 20, Some(Blank(0, Below)), Some(Blank(0, Below)), Some(Blank(5, Above))), Ok(Unloaded))
  {
    assert NewPage(100, 20, 0 - 20, Below) == Ok(Blank(0, Below));
  }

  lemma JumpStep3()
    ensures Resolve(WindowState(100, 20, Some(Blank(0, Below)), Some(Blank(0, Below)), Some(Blank(5, Above))), 19, None)
            == (WindowState(100, 20, Some(Blank(0, Below)), Some(Blank(0, Below)), Some(Blank(5, Above))), Ok(Unloaded))
  {
  }

  lemma JumpStep4()
    ensures Resolve(WindowState(100, 20, Some(Blank(0, Below)), Some(Blank(0, Below)), Some(Blank(5, Above))), 25, None).1
            == Err(IndexOutOfBounds)
  {
    assert NewPage(100, 20, 25, Above) == Ok(Blank(25, Above));
  }

  /** After the unaligned window above, moving to row 4 and then to row 19 is
      fine, but a jump of six rows from 19 to 25 slides the current page to
      the old page [5, 25), which does not hold row 25: index out of bounds. */
  lemma UnalignedJumpFails()
    ensures var w1 := Resolve(Fresh100, 5, None).0;
      var w2 := Resolve(w1, 4, None).0;
      var w3 := Resolve(w2, 19, None).0;
      Resolve(w3, 25, None).1 == Err(IndexOutOfBounds)
  {
    JumpStep1();
    JumpStep2();
    JumpStep3();
    JumpStep4();
  }
}
