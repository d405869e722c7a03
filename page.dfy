/** Values and objects shared by every feature of the page script. */
module Page {

  /** An attribute or child element that may be absent (JavaScript `null`). */
  datatype Option<T> = None | Some(value: T)

  /** The `overflow` value that locks page scrolling. */
  const OverflowHidden: string := "hidden"

  /** The `document.body` element: only its inline `overflow` style is modelled.
      Both the mobile menu and the lightbox write it. */
  class Body {
    var overflow: string

    constructor (overflow0: string)
      ensures overflow == overflow0
    {
      overflow := overflow0;
    }
  }
}
