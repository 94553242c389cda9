/** The few pieces of page state the script reads and writes, as plain values. */
module Dom {
  /** An element of the page, by identity. */
  type Element = nat

  /** The value of a link's `aria-current` attribute; `NoCurrent` when the attribute is absent. */
  datatype AriaCurrent = NoCurrent | Page | Location

  /** What the script sets on a navigation link: the `active` class and `aria-current`. */
  datatype LinkMark = LinkMark(active: bool, current: AriaCurrent)

  /** A link with neither the `active` class nor an `aria-current` attribute. */
  const Unmarked := LinkMark(false, NoCurrent)
}
