/**
 * The header that hides while the page scrolls down: each `scroll` event
 * compares the new offset with the one remembered from the previous event.
 */
module Scroll {
  const HiddenClass: string := "header-hidden"
  const VisibleClass: string := "header-visible"
  /** The offset below which the header is never hidden. */
  const Threshold: int := 100

  /** `window.pageYOffset || document.documentElement.scrollTop`: the second
      reading is used only when the first is zero. */
  function ScrollOffset(pageYOffset: int, documentTop: int): (top: int)
    ensures pageYOffset != 0 ==> top == pageYOffset
    ensures pageYOffset == 0 ==> top == documentTop
  {
    if pageYOffset != 0 then pageYOffset else documentTop
  }

  /** The event hides the header exactly when it scrolled down past the
      threshold. */
  predicate Hides(lastTop: int, top: int) {
    top > lastTop && top > Threshold
  }

  /** The header's classes after the event: one of the two state classes
      removed, the other added. */
  function HeaderAfter(classes: set<string>, hidden: bool): (r: set<string>)
    ensures HiddenClass in r <==> hidden
    ensures VisibleClass in r <==> !hidden
    ensures r - {HiddenClass, VisibleClass} == classes - {HiddenClass, VisibleClass}
  {
    if hidden then classes - {VisibleClass} + {HiddenClass}
    else classes - {HiddenClass} + {VisibleClass}
  }

  /** The remembered offset: negative readings count as zero. */
  function Remembered(top: int): (r: int)
    ensures r >= 0 && r >= top
    ensures r == top || r == 0
  {
    if top <= 0 then 0 else top
  }

  /** The header element and the offset remembered across events. */
  class Header {
    var classes: set<string>
    var lastScrollTop: int

    ghost predicate Valid()
      reads this
    {
      lastScrollTop >= 0
    }

    constructor (classes: set<string>)
      ensures Valid()
      ensures this.classes == classes && lastScrollTop == 0
    {
      this.classes := classes;
      lastScrollTop := 0;
    }

    /** The `scroll` handler. */
    method OnScroll(pageYOffset: int, documentTop: int)
      requires Valid()
      modifies this
      ensures Valid()
      ensures classes == HeaderAfter(old(classes), Hides(old(lastScrollTop), ScrollOffset(pageYOffset, documentTop)))
      ensures lastScrollTop == Remembered(ScrollOffset(pageYOffset, documentTop))
    {
      var scrollTop := if pageYOffset != 0 then pageYOffset else documentTop;
      if scrollTop > lastScrollTop && scrollTop > Threshold {
        classes := classes - {VisibleClass};
        classes := classes + {HiddenClass};
      } else {
        classes := classes - {HiddenClass};
        classes := classes + {VisibleClass};
      }
      lastScrollTop := if scrollTop <= 0 then 0 else scrollTop;
    }
  }

  /** Scrolling down past the threshold hides the header; any scroll back up
      from there shows it again. */
  lemma DownThenUp(lastTop: int, down: int, up: int)
    requires lastTop >= 0 && down > lastTop && down > Threshold && up < down
    ensures Hides(lastTop, down)
    ensures !Hides(Remembered(down), up)
  {
  }

  /** Within the threshold the header is always shown, whatever the
      remembered offset. */
  lemma NearTopShows(lastTop: int, top: int)
    requires top <= Threshold
    ensures !Hides(lastTop, top)
  {
  }

  /** Two events in a row: the header ends hidden exactly when the second
      reading is past the threshold and past the first reading clamped at
      zero. */
  method TwoEvents(header: Header, first: int, second: int)
    requires header.Valid()
    modifies header
    ensures header.Valid()
    ensures HiddenClass in header.classes <==> second > Remembered(first) && second > Threshold
    ensures VisibleClass in header.classes <==> !(HiddenClass in header.classes)
  {
    header.OnScroll(first, first);
    header.OnScroll(second, second);
  }
}
