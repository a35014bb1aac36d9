/** `YashoidListAdapter`: rows are bound to positions in `getView`, loaded at
    once or by a per-row background task, and not loaded at all while the
    list flings; the rows left erased by a fling are loaded when it ends. */
module ListAdapter {
  import opened Common
  import opened ListItem

  /** `OnScrollListener.SCROLL_STATE_FLING`. */
  const ScrollStateFling := 2

  /** An `AsyncTask` started by `loadItem`: its identity and the position it
      fetches the content of. */
  datatype Task = Task(id: nat, position: int)

  /** The pending task of every row (`ItemTask.task` while it runs), in the
      order of `mItems`, and the identity the next task gets. A task that was
      cancelled or has delivered is no longer pending. */
  datatype TaskBook = TaskBook(pending: seq<Option<Task>>, nextId: nat)
  {
    /** Every task was started before `nextId` and no two rows share one. */
    ghost predicate Valid() {
      && (forall k | 0 <= k < |pending| && pending[k].Some? :: pending[k].value.id < nextId)
      && (forall j, k | 0 <= j < k < |pending| && pending[j].Some? && pending[k].Some? ::
            pending[j].value.id != pending[k].value.id)
    }
  }

  /** A new row (`new ItemTask(item)`) has no task. */
  function AddRow(b: TaskBook): (r: TaskBook)
    ensures |r.pending| == |b.pending| + 1 && r.pending[|b.pending|] == None
    ensures forall k | 0 <= k < |b.pending| :: r.pending[k] == b.pending[k]
    ensures r.nextId == b.nextId
  {
    TaskBook(b.pending + [None], b.nextId)
  }

  /** Lines 117-121 and 140 of `loadItem`: cancel row `k`'s task, if any, and
      start a new one for `position`. */
  function Start(b: TaskBook, k: nat, position: int): (r: TaskBook)
    requires k < |b.pending|
    ensures |r.pending| == |b.pending| && r.nextId == b.nextId + 1
    ensures r.pending[k] == Some(Task(b.nextId, position))
    ensures forall j | 0 <= j < |b.pending| && j != k :: r.pending[j] == b.pending[j]
  {
    TaskBook(b.pending[k := Some(Task(b.nextId, position))], b.nextId + 1)
  }

  /** Row `k`'s task has delivered its result: it is no longer pending. */
  function Finish(b: TaskBook, k: nat): (r: TaskBook)
    requires k < |b.pending|
    ensures |r.pending| == |b.pending| && r.nextId == b.nextId && r.pending[k] == None
    ensures forall j | 0 <= j < |b.pending| && j != k :: r.pending[j] == b.pending[j]
  {
    b.(pending := b.pending[k := None])
  }

  /** A new row keeps the book valid. */
  lemma AddRowKeepsValid(b: TaskBook)
    requires b.Valid()
    ensures AddRow(b).Valid()
  {
  }

  /** Starting a task keeps the book valid: the new task is unlike every
      other, and the one it replaces is pending nowhere any more, so each row
      has at most one task pending. */
  lemma StartKeepsValid(b: TaskBook, k: nat, position: int)
    requires b.Valid() && k < |b.pending|
    ensures Start(b, k, position).Valid()
    ensures b.pending[k].Some? ==> forall j | 0 <= j < |b.pending| :: Start(b, k, position).pending[j] != b.pending[k]
  {
  }

  /** Finishing a task keeps the book valid. */
  lemma FinishKeepsValid(b: TaskBook, k: nat)
    requires b.Valid() && k < |b.pending|
    ensures Finish(b, k).Valid()
  {
  }

  /** Lines 131-137 (`onPostExecute`): the fetched content is loaded only if the
      row still shows the position the task was started for. */
  function ApplyResult(s: ItemState, t: Task, c: Content): (r: ItemState)
    ensures s.position == t.position ==> r.content == c && !r.erased && r.hooks == s.hooks + [LoadContent(c)]
    ensures s.position != t.position ==> r == s
    ensures r.position == s.position && r.attached == s.attached && r.enabled == s.enabled
  {
    if s.position == t.position then AfterLoad(s, c) else s
  }

  /** Lines 184-189, for one row: an erased row is reloaded at its own position
      when loading is synchronous; any other row is left as it is. */
  function Resumed(s: ItemState, loadsAsync: bool, source: int -> Content): (r: ItemState)
    ensures !loadsAsync ==> !r.erased
    ensures !loadsAsync && s.erased ==> r.content == source(s.position) && r.hooks == s.hooks + [LoadContent(source(s.position))]
    ensures loadsAsync || !s.erased ==> r == s
    ensures r.position == s.position && r.attached == s.attached && r.enabled == s.enabled
  {
    if s.erased && !loadsAsync then AfterLoad(s, source(s.position)) else s
  }

  /** Lines 181-183: the list was flinging and the new state is not a fling. */
  predicate FlingEnds(isFling: bool, scrollState: int) {
    isFling && scrollState != ScrollStateFling
  }

  /** After the fling-end loop, row `j` (in state `s0` before it) has a new
      pending task for its position if it was erased and loading is
      asynchronous, and the pending task it had otherwise. */
  ghost predicate RowTaskResumed(b: TaskBook, b0: TaskBook, j: nat, s0: ItemState, loadsAsync: bool) {
    j < |b.pending| && j < |b0.pending| &&
    if s0.erased && loadsAsync
    then b.pending[j].Some? && b.pending[j].value.position == s0.position && b.pending[j].value.id >= b0.nextId
    else b.pending[j] == b0.pending[j]
  }

  /** `getItem(position)`: the item of a row is its position. */
  function GetItem(position: int): (r: int)
    ensures r == position
  {
    position
  }

  class Adapter {
    /** The abstract `getContent(int)`. */
    const source: int -> Content
    /** The abstract `isEnabled(int)`. */
    const enabledAt: int -> bool
    var loadsAsync: bool
    var isFling: bool
    /** The items of `mItems`. */
    var items: seq<Item>
    /** The tasks of `mItems`. */
    var book: TaskBook

    function ItemSet(): set<Item>
      reads this
    {
      set it | it in items
    }

    /** One task slot per row, a valid book, and distinct rows. */
    ghost predicate Valid()
      reads this
    {
      && |book.pending| == |items|
      && book.Valid()
      && (forall j, k :: 0 <= j < k < |items| ==> items[j] != items[k])
    }

    /** The constructor; its final `reset()` has no row to detach. */
    constructor (source: int -> Content, enabledAt: int -> bool)
      ensures Valid() && items == [] && book == TaskBook([], 0)
      ensures !loadsAsync && !isFling
      ensures this.source == source && this.enabledAt == enabledAt
    {
      this.source, this.enabledAt := source, enabledAt;
      loadsAsync, isFling := false, false;
      items, book := [], TaskBook([], 0);
    }

    method SetLoadsAsync(loadsAsync: bool)
      modifies this`loadsAsync
      ensures this.loadsAsync == loadsAsync
    {
      this.loadsAsync := loadsAsync;
    }

    /** `reset()`: detaches every row and changes nothing else. */
    method Reset()
      requires Valid()
      modifies ItemSet()
      ensures Valid()
      ensures forall k | 0 <= k < |items| :: items[k].State() == old(items[k].State()).(attached := false)
    {
      for i := 0 to |items|
        invariant forall j | 0 <= j < i :: items[j].State() == old(items[j].State()).(attached := false)
        invariant forall j | i <= j < |items| :: items[j].State() == old(items[j].State())
      {
        items[i].SetDetached();
      }
    }

    /** Lines 77-91 of `getView`: the row behind `convertView`, or a new one
        appended to `mItems`. */
    method RowFor(recycled: Option<nat>) returns (k: nat)
      requires Valid()
      requires recycled.Some? ==> recycled.value < |items|
      modifies this`items, this`book
      ensures Valid() && k < |items|
      ensures recycled.Some? ==> k == recycled.value && items == old(items) && book == old(book)
      ensures recycled.None? ==> && k == |old(items)| && items[..k] == old(items) && fresh(items[k])
                                 && items[k].State() == Initial && items[k].root == k
                                 && book == AddRow(old(book))
    {
      if recycled.Some? {
        return recycled.value;
      }
      var item := new Item(|items|);
      AddRowKeepsValid(book);
      k, items, book := |items|, items + [item], AddRow(book);
      assert items[..k] == old(items);
    }

    /** `loadItem(position, itemTask, view)`: loads `getContent(position)` at
        once, or cancels the row's task and starts a new one. */
    method LoadItem(k: nat, position: int)
      requires Valid() && k < |items|
      modifies items[k], this`book
      ensures Valid()
      ensures !loadsAsync ==> items[k].State() == AfterLoad(old(items[k].State()), source(position)) && book == old(book)
      ensures loadsAsync ==> items[k].State() == old(items[k].State()) && book == Start(old(book), k, position)
    {
      if !loadsAsync {
        var _ := items[k].Load(source(position));
      } else {
        StartKeepsValid(book, k, position);
        book := Start(book, k, position);
      }
    }

    /** `getView(position, convertView, parent)`: `recycled` is the row behind
        `convertView`; returns the row and its root view. While flinging the
        row is bound and erased but not loaded. */
    method GetView(position: int, recycled: Option<nat>) returns (view: nat, k: nat)
      requires Valid()
      requires recycled.Some? ==> recycled.value < |items|
      modifies this`items, this`book, if recycled.Some? then {items[recycled.value]} else {}
      ensures Valid() && k < |items| && view == items[k].root
      ensures recycled.Some? ==> k == recycled.value && items == old(items)
      ensures recycled.None? ==> k == |old(items)| && items[..k] == old(items) && fresh(items[k])
      ensures var bound := Bind(if recycled.Some? then old(items[k].State()) else Initial, position, enabledAt(position));
        var added := if recycled.Some? then old(book) else AddRow(old(book));
        if isFling then items[k].State() == bound && book == added
        else if loadsAsync then items[k].State() == bound && book == Start(added, k, position)
        else items[k].State() == AfterLoad(bound, source(position)) && book == added
    {
      k := RowFor(recycled);
      items[k].Rebind(position, enabledAt(position));
      if !isFling {
        LoadItem(k, position);
      }
      view := items[k].root;
    }

    /** `onPostExecute` of row `k`'s pending task: the task finishes and its
        content is loaded if the row still shows the task's position. */
    method OnPostExecute(k: nat)
      requires Valid() && k < |items| && book.pending[k].Some?
      modifies items[k], this`book
      ensures Valid()
      ensures var t := old(book.pending[k].value);
        && items[k].State() == ApplyResult(old(items[k].State()), t, source(t.position))
        && book == Finish(old(book), k)
    {
      var t := book.pending[k].value;
      if items[k].position == t.position {
        var _ := items[k].Load(source(t.position));
      }
      FinishKeepsValid(book, k);
      book := Finish(book, k);
    }

    /** Lines 186-188 for row `k`: reload it when it is erased. */
    method ResumeRow(k: nat)
      requires Valid() && k < |items|
      modifies items[k], this`book
      ensures Valid()
      ensures items[k].State() == Resumed(old(items[k].State()), loadsAsync, source)
      ensures book == if old(items[k].erased) && loadsAsync
                      then Start(old(book), k, old(items[k].position)) else old(book)
      ensures RowTaskResumed(book, old(book), k, old(items[k].State()), loadsAsync)
      ensures forall j | 0 <= j < |items| && j != k :: book.pending[j] == old(book.pending[j])
    {
      if items[k].erased {
        LoadItem(k, items[k].position);
      }
    }

    /** Lines 184-189: every erased row is loaded at its own position; loading
        synchronously leaves no row erased, loading asynchronously gives each
        erased row a new pending task for its position. */
    method ResumeRows()
      requires Valid()
      modifies ItemSet(), this`book
      ensures Valid()
      ensures forall k | 0 <= k < |items| :: items[k].State() == Resumed(old(items[k].State()), loadsAsync, source)
      ensures !loadsAsync ==> book == old(book)
      ensures forall k | 0 <= k < |items| :: RowTaskResumed(book, old(book), k, old(items[k].State()), loadsAsync)
    {
      for i := 0 to |items|
        invariant Valid()
        invariant forall j | 0 <= j < i :: items[j].State() == Resumed(old(items[j].State()), loadsAsync, source)
        invariant forall j | i <= j < |items| :: items[j].State() == old(items[j].State())
        invariant !loadsAsync ==> book == old(book)
        invariant book.nextId >= old(book.nextId)
        invariant forall j | 0 <= j < i :: RowTaskResumed(book, old(book), j, old(items[j].State()), loadsAsync)
        invariant forall j | i <= j < |items| :: book.pending[j] == old(book.pending[j])
      {
        ghost var before := book;
        ResumeRow(i);
        forall j | 0 <= j <= i
          ensures RowTaskResumed(book, old(book), j, old(items[j].State()), loadsAsync)
        {
          if j < i {
            assert RowTaskResumed(before, old(book), j, old(items[j].State()), loadsAsync);
            assert book.pending[j] == before.pending[j];
          } else {
            assert RowTaskResumed(book, before, i, old(items[i].State()), loadsAsync);
          }
        }
      }
    }

    /** `onScrollStateChanged(view, scrollState)`: the rows are resumed when a
        fling ends, and the fling flag follows the new state. */
    method OnScrollStateChanged(scrollState: int)
      requires Valid()
      modifies this`isFling, this`book, ItemSet()
      ensures Valid() && isFling == (scrollState == ScrollStateFling)
      ensures forall k | 0 <= k < |items| ::
        items[k].State() == if FlingEnds(old(isFling), scrollState)
                            then Resumed(old(items[k].State()), loadsAsync, source) else old(items[k].State())
      ensures !FlingEnds(old(isFling), scrollState) || !loadsAsync ==> book == old(book)
      ensures FlingEnds(old(isFling), scrollState) ==>
        forall k | 0 <= k < |items| :: RowTaskResumed(book, old(book), k, old(items[k].State()), loadsAsync)
    {
      if FlingEnds(isFling, scrollState) {
        ResumeRows();
      }
      isFling := scrollState == ScrollStateFling;
    }
  }
}
