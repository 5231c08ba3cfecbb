/** The `{content, Valid}` record behind every Null* wrapper (NullBytea,
    NullInt64Slice, ...): a value of the content type and whether it is
    present. `Zero` is Go's nil of the content type, which a NULL stores. */
module Nullable {
  import opened Base

  class Nullable<T> {
    var Content: T
    var Valid: bool
    const Zero: T

    /** A declared but unset wrapper: NULL, holding nil. */
    constructor (zero: T)
      ensures Content == zero && !Valid && Zero == zero
    {
      Content := zero;
      Valid := false;
      Zero := zero;
    }

    /** `GetValue`: the content when Valid, nothing otherwise. */
    function GetValue(): (r: Option<T>)
      reads this
      ensures r.Some? <==> Valid
      ensures r.Some? ==> r.value == Content
    {
      if Valid then Some(Content) else None
    }

    /** `SetValue`: nothing makes the wrapper NULL (and clears the content);
        a value makes it Valid with that content. */
    method SetValue(v: Option<T>)
      modifies this
      ensures Valid == v.Some?
      ensures Content == if v.Some? then v.value else Zero
      ensures GetValue() == v
    {
      if v.None? {
        Valid := false;
        Content := Zero;
      } else {
        Valid := true;
        Content := v.value;
      }
    }
  }
}
