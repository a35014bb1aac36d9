/** Values shared by the item, the paging adapter and the simple adapter. */
module Common {

  datatype Option<T> = None | Some(value: T)

  /** The Java exceptions the modelled code can raise. */
  datatype Error =
    | NegativeArraySize   // `new Object[n]` with n < 0
    | IndexOutOfBounds    // an array index outside the array
    | NullPointer         // a method called on a null page

  datatype Result<T> = Ok(value: T) | Err(error: Error)

  /** The content object of one position: an opaque handle, or a Java `null`
      that the content source may return on purpose. */
  datatype Content = Null | Obj(id: int)

  /** One cache slot of a page: the "unloaded" sentinel, or loaded content. */
  datatype Slot = Unloaded | Loaded(content: Content)

  function Min(a: int, b: int): int { if a < b then a else b }

  function Max(a: int, b: int): int { if a < b then b else a }
}
