/** The values stored in the list: owned, nullable C strings.
    A `char *` that may be NULL is modelled as an `Option<string>`:
    `None` is the NULL pointer, `Some(s)` a string with contents `s`
    (possibly empty, which is distinct from NULL). */
module Values {

  datatype Option<+T> = None | Some(value: T)

  /** The payload of one list node. */
  type Value = Option<string>

  /** The null-preserving copy made when a value is stored in a node
      (`strdup_safe`): NULL stays NULL, a string is copied character by
      character. Allocation is total here. */
  function StrDupSafe(src: Value): (r: Value)
    ensures r == src
  {
    match src
    case None => None
    case Some(chars) => Some(chars)
  }

  /** The three-way, null-aware matching rule of `dlist_find_first`:
      two present strings match when `strcmp` reports them equal, two
      NULLs match, and NULL never matches a present string (not even the
      empty one). The rule is exactly equality of optional strings. */
  predicate Matches(stored: Value, wanted: Value)
    ensures Matches(stored, wanted) <==> stored == wanted
  {
    (stored.Some? && wanted.Some? && stored.value == wanted.value) ||
    (stored.None? && wanted.None?)
  }
}
