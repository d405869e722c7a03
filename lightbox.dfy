/** The gallery lightbox (`initGalleryLightbox`): one shared overlay whose image `src`,
    `alt`, caption text and `active` class are overwritten by every successful open. */
module Lightbox {
  import opened Page

  /** An `<img>`: its `src` property and its `alt`. */
  datatype Img = Img(src: string, alt: string)

  /** A clicked gallery element. `caption` is the text of the `.gallery-caption` that the
      handler finds (for an image, inside its closest `.gallery-item`), `None` when there
      is no such element. A container's `inner` is its first `<img>`, if any. */
  datatype GalleryItem =
    | ImageItem(img: Img, caption: Option<string>)
    | ContainerItem(inner: Option<Img>, caption: Option<string>)

  /** The source, alt text and caption an item resolves to. */
  datatype Resolved = Resolved(src: string, alt: string, caption: string)

  /** The overlay and the body's scroll lock. */
  datatype View = View(active: bool, src: string, alt: string, caption: string, overflow: string)

  /** JavaScript `a || b` on strings. */
  function Or(a: string, b: string): string
  {
    if a != "" then a else b
  }

  /** `caption?.textContent || alt || ''`: an absent caption element gives `undefined`,
      which is falsy like the empty text. */
  function CaptionOf(caption: Option<string>, alt: string): string
  {
    Or(Or(if caption.Some? then caption.value else "", alt), "")
  }

  /** The caption is the non-empty caption text, else the non-empty alt, else empty. */
  lemma CaptionFallback(caption: Option<string>, alt: string)
    ensures caption.Some? && caption.value != "" ==> CaptionOf(caption, alt) == caption.value
    ensures (caption.None? || caption.value == "") && alt != "" ==> CaptionOf(caption, alt) == alt
    ensures (caption.None? || caption.value == "") && alt == "" ==> CaptionOf(caption, alt) == ""
  {
  }

  /** What the click handler reads from an item. */
  function Resolve(item: GalleryItem): (r: Resolved)
    ensures item.ContainerItem? && item.inner.None? ==> r == Resolved("", "", CaptionOf(item.caption, ""))
  {
    match item
    case ImageItem(img, cap) =>
      Resolved(img.src, img.alt, CaptionOf(cap, img.alt))
    case ContainerItem(inner, cap) =>
      var src := Or(if inner.Some? then inner.value.src else "", "");
      var alt := Or(if inner.Some? then inner.value.alt else "", "");
      Resolved(src, alt, CaptionOf(cap, alt))
  }

  /** The click handler of a gallery item: the slot is overwritten, made active and the
      page scroll locked only when the resolved source is non-empty. */
  function Open(v: View, item: GalleryItem): (r: View)
    ensures Resolve(item).src == "" ==> r == v
    ensures Resolve(item).src != "" ==>
      r.active && r.overflow == OverflowHidden &&
      r.src == Resolve(item).src && r.alt == Resolve(item).alt && r.caption == Resolve(item).caption
  {
    var res := Resolve(item);
    if res.src != "" then View(true, res.src, res.alt, res.caption, OverflowHidden) else v
  }

  /** `closeLightbox`. */
  function Close(v: View): (r: View)
    ensures !r.active && r.overflow == ""
    ensures r.src == v.src && r.alt == v.alt && r.caption == v.caption
  {
    v.(active := false, overflow := "")
  }

  /** Single slot: once an item with a source is opened, nothing of the earlier content
      survives, however many items were opened before. */
  lemma OpenOverwrites(v: View, w: View, item: GalleryItem)
    requires Resolve(item).src != ""
    ensures Open(v, item) == Open(w, item)
  {
  }

  /** Closing is idempotent and keeps the displayed content. */
  lemma CloseIdempotent(v: View)
    ensures Close(Close(v)) == Close(v)
  {
  }

  /** A container without an image never opens the lightbox. */
  lemma EmptyContainerNeverOpens(v: View, caption: Option<string>)
    ensures Open(v, ContainerItem(None, caption)) == v
  {
  }

  /** A successful open followed by a close keeps exactly the resolved content. */
  lemma OpenThenClose(v: View, item: GalleryItem)
    requires Resolve(item).src != ""
    ensures var r := Resolve(item);
            Close(Open(v, item)) == View(false, r.src, r.alt, r.caption, "")
  {
  }

  /** Enter and Space on a gallery item act as a click on it. */
  predicate ActivatesItem(key: string)
  {
    key == "Enter" || key == " "
  }

  /** A keydown on an `<img>` that sits in a `.gallery-item`. Both elements have a
      keydown listener and the image's does not stop propagation, so Enter or Space opens
      the image and then, bubbling, opens its container, which looks up its own first
      `<img>` and caption. `container` is `None` for an image outside any gallery item. */
  function ImageKeyDown(v: View, image: GalleryItem, container: Option<GalleryItem>, key: string): (r: View)
    ensures !ActivatesItem(key) ==> r == v
    ensures ActivatesItem(key) && container.None? ==> r == Open(v, image)
  {
    if !ActivatesItem(key) then v
    else if container.None? then Open(v, image)
    else Open(Open(v, image), container.value)
  }

  /** Whenever the container resolves to a source, the pressed image is replaced by the
      container's own first image before the handlers return. */
  lemma ContainerOpenWins(v: View, image: GalleryItem, c: GalleryItem, key: string)
    requires ActivatesItem(key) && Resolve(c).src != ""
    ensures ImageKeyDown(v, image, Some(c), key) == Open(v, c)
  {
    OpenOverwrites(Open(v, image), v, c);
  }

  /** In a gallery item holding two images, Enter on the second shows the first. */
  lemma SecondImageKeyShowsFirst()
    ensures var first := Img("a.jpg", "A");
            var second := Img("b.jpg", "B");
            var start := View(false, "", "", "", "");
            Open(start, ImageItem(second, None)).src == "b.jpg" &&
            ImageKeyDown(start, ImageItem(second, None), Some(ContainerItem(Some(first), None)), "Enter").src == "a.jpg"
  {
  }

  /** The evidently intended keydown on a gallery image: the event stops at the image, so
      the image that has focus is the one shown. */
  function ImageKeyDownIsolated(v: View, image: GalleryItem, container: Option<GalleryItem>, key: string): (r: View)
    ensures !ActivatesItem(key) ==> r == v
    ensures ActivatesItem(key) && Resolve(image).src != "" ==>
      r.active && r.src == Resolve(image).src && r.alt == Resolve(image).alt && r.caption == Resolve(image).caption
    ensures ActivatesItem(key) && Resolve(image).src == "" ==> r == v
  {
    if ActivatesItem(key) then Open(v, image) else v
  }

  /** The overlay's image, caption and class, and the page body. */
  class LightboxSlot {
    var active: bool
    var src: string
    var alt: string
    var caption: string
    const body: Body

    function State(): View
      reads this, body
    {
      View(active, src, alt, caption, body.overflow)
    }

    /** The overlay created by the script when the page has none: an empty image, an
        empty caption, no `active` class. */
    constructor (pageBody: Body)
      ensures body == pageBody
      ensures State() == View(false, "", "", "", pageBody.overflow)
    {
      active, src, alt, caption := false, "", "", "";
      body := pageBody;
    }

    /** An overlay already in the markup, reused with whatever class, image and caption
        it has. */
    constructor Existing(pageBody: Body, activeClass: bool, src0: string, alt0: string, caption0: string)
      ensures body == pageBody
      ensures State() == View(activeClass, src0, alt0, caption0, pageBody.overflow)
    {
      active, src, alt, caption := activeClass, src0, alt0, caption0;
      body := pageBody;
    }

    method ItemClick(item: GalleryItem)
      modifies this, body
      ensures State() == Open(old(State()), item)
    {
      var res := Resolve(item);
      if res.src != "" {
        src := res.src;
        alt := res.alt;
        caption := res.caption;
        active := true;
        body.overflow := OverflowHidden;
      }
    }

    method ItemKeyDown(item: GalleryItem, key: string)
      modifies this, body
      ensures State() == if ActivatesItem(key) then Open(old(State()), item) else old(State())
    {
      if ActivatesItem(key) {
        ItemClick(item);
      }
    }

    /** A keydown on a gallery image, followed by its container's listener as the event
        bubbles. */
    method ImageKeyDownBubbling(image: GalleryItem, container: Option<GalleryItem>, key: string)
      modifies this, body
      ensures State() == ImageKeyDown(old(State()), image, container, key)
    {
      ItemKeyDown(image, key);
      if container.Some? {
        ItemKeyDown(container.value, key);
      }
    }

    method CloseLightbox()
      modifies this, body
      ensures State() == Close(old(State()))
    {
      active := false;
      body.overflow := "";
    }

    /** A click inside the overlay: only one whose target is the backdrop itself closes. */
    method OverlayClick(onBackdrop: bool)
      modifies this, body
      ensures State() == if onBackdrop then Close(old(State())) else old(State())
    {
      if onBackdrop {
        CloseLightbox();
      }
    }

    /** Escape closes the lightbox whether or not it is open. */
    method KeyDown(key: string)
      modifies this, body
      ensures State() == if key == "Escape" then Close(old(State())) else old(State())
    {
      if key == "Escape" {
        CloseLightbox();
      }
    }
  }
}
