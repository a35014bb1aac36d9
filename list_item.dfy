/** The recyclable row view holder (`YashoidListItem`). */
module ListItem {
  import opened Common

  /** Calls of the two abstract hooks, in the order they happen. */
  datatype Hook = EraseContent | LoadContent(content: Content)

  /** The fields of an item, as a value. */
  datatype ItemState = ItemState(
    attached: bool,
    position: int,
    enabled: bool,
    content: Content,
    erased: bool,
    hooks: seq<Hook>)

  /** A freshly constructed item: Java's default field values. */
  const Initial := ItemState(false, 0, false, Null, false, [])

  /** Every state the operations below reach: an erased item holds no content. */
  predicate Reachable(s: ItemState) {
    s.erased ==> s.content == Null
  }

  /** `erase`: clears the content once; erasing an erased item does nothing. */
  function AfterErase(s: ItemState): (r: ItemState)
    ensures r.erased
    ensures s.erased ==> r == s
    ensures Reachable(s) ==> r.content == Null
    ensures r.hooks == s.hooks + (if s.erased then [] else [EraseContent])
    ensures r.attached == s.attached && r.position == s.position && r.enabled == s.enabled
  {
    if s.erased then s else s.(content := Null, erased := true, hooks := s.hooks + [EraseContent])
  }

  /** `load(c)`: stores the content, runs the hook and marks the item not erased. */
  function AfterLoad(s: ItemState, c: Content): (r: ItemState)
    ensures r.content == c && !r.erased
    ensures r.hooks == s.hooks + [LoadContent(c)]
    ensures r.attached == s.attached && r.position == s.position && r.enabled == s.enabled
  {
    s.(content := c, hooks := s.hooks + [LoadContent(c)], erased := false)
  }

  /** `setNotErased`: on an erased item, clears the flag and erases again. */
  function AfterSetNotErased(s: ItemState): (r: ItemState)
    ensures s.erased ==> r.erased && r.content == Null && r.hooks == s.hooks + [EraseContent]
    ensures !s.erased ==> r == s
    ensures r.attached == s.attached && r.position == s.position && r.enabled == s.enabled
  {
    if s.erased then AfterErase(s.(erased := false)) else s
  }

  /** The initial state is reachable and every operation keeps it so. */
  lemma ReachableClosed(s: ItemState, c: Content, b: bool, p: int)
    requires Reachable(s)
    ensures Reachable(Initial)
    ensures Reachable(AfterErase(s)) && Reachable(AfterLoad(s, c)) && Reachable(AfterSetNotErased(s))
    ensures Reachable(s.(attached := b)) && Reachable(s.(position := p)) && Reachable(s.(enabled := b))
  {
  }

  /** A second `erase` changes no field and runs no hook. */
  lemma EraseIdempotent(s: ItemState)
    ensures AfterErase(AfterErase(s)) == AfterErase(s)
    ensures AfterErase(AfterErase(s)).hooks == AfterErase(s).hooks
  {
  }

  /** Loading after an erase leaves exactly the new content, whatever was there. */
  lemma LoadAfterErase(s: ItemState, c: Content)
    ensures AfterLoad(AfterErase(s), c).content == c
    ensures !AfterLoad(AfterErase(s), c).erased
  {
  }

  /** What both adapters' `getView` does to an item before loading it: attach
      it, give it its position and enabled flag, and erase it. */
  function Bind(s: ItemState, position: int, enabled: bool): (r: ItemState)
    ensures r.attached && r.position == position && r.enabled == enabled && r.erased
    ensures Reachable(s) ==> r.content == Null
    ensures r.hooks == s.hooks + (if s.erased then [] else [EraseContent])
  {
    AfterErase(s.(attached := true, position := position, enabled := enabled))
  }

  class Item {
    /** The root view made by `onCreate`, as an opaque handle. */
    const root: nat
    var attached: bool
    var position: int
    var enabled: bool
    var content: Content
    var erased: bool
    var hooks: seq<Hook>

    function State(): ItemState
      reads this
    {
      ItemState(attached, position, enabled, content, erased, hooks)
    }

    constructor (root: nat)
      ensures this.root == root && State() == Initial
    {
      this.root := root;
      attached, position, enabled := false, 0, false;
      content, erased, hooks := Null, false, [];
    }

    method SetAttached()
      modifies this
      ensures State() == old(State()).(attached := true)
    {
      attached := true;
    }

    method SetDetached()
      modifies this
      ensures State() == old(State()).(attached := false)
    {
      attached := false;
    }

    method SetPosition(p: int)
      modifies this
      ensures State() == old(State()).(position := p)
    {
      position := p;
    }

    method SetEnabled(e: bool)
      modifies this
      ensures State() == old(State()).(enabled := e)
    {
      enabled := e;
    }

    method Erase()
      modifies this
      ensures State() == AfterErase(old(State()))
    {
      if !erased {
        content := Null;
        hooks := hooks + [EraseContent];
        erased := true;
      }
    }

    /** The rebinding steps of `getView`: attach, set the position and the
        enabled flag, then erase. */
    method Rebind(p: int, e: bool)
      modifies this
      ensures State() == Bind(old(State()), p, e)
    {
      SetAttached();
      SetPosition(p);
      SetEnabled(e);
      Erase();
    }

    method SetNotErased()
      modifies this
      ensures State() == AfterSetNotErased(old(State()))
    {
      if erased {
        erased := false;
        Erase();
      }
    }

    /** `load(c)`; returns the root view, which it does not change. */
    method Load(c: Content) returns (view: nat)
      modifies this
      ensures State() == AfterLoad(old(State()), c)
      ensures view == root
    {
      content := c;
      hooks := hooks + [LoadContent(c)];
      erased := false;
      view := root;
    }
  }
}
