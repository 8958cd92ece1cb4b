/**
  The browser as plain input data.  Everything the harvester learns from the
  live browser (tab titles, measured page heights, query results, bounding
  boxes, `src` attributes and what a fetch-and-decode of a URL yields) is
  given up front, so that the harvester's decisions become functions of it.
 */
module Browser {
  import opened Wrappers

  /** A rendered bounding box, in CSS pixels (the source reads floats). */
  datatype Box = Box(width: real, height: real)

  /** What reading an element's bounding box gives: a box, no box (the
      element is not laid out), or an exception. */
  datatype BoxRead = HasBox(box: Box) | NoBox | ReadError

  /** An image element found by a selector: its bounding-box read and its
      `src` attribute (None when the attribute is absent). */
  datatype Element = Element(boxRead: BoxRead, src: Option<string>)

  /** One pass of the scroll loop: the height read before scrolling and the
      height read after scrolling and waiting. */
  datatype ScrollProbe = ScrollProbe(before: int, after: int)

  /** One open tab: its title, the heights the scroll loop would measure on
      it, what each selector query returns on its (fully scrolled) page, and
      what fetching a URL through its request context and decoding the body
      yields (None when the request or the decode fails). */
  datatype Tab<Img> = Tab(
    title: string,
    probes: seq<ScrollProbe>,
    dom: string -> seq<Element>,
    fetch: string -> Option<Img>)

  /** The remote-debugging connection: refused, or a browser with its
      contexts, each a list of tabs. */
  datatype Connection<Img> = Refused | Connected(contexts: seq<seq<Tab<Img>>>)
}
