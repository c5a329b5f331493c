/**
 * An abstract view of a parsed HTML page. Parsing and CSS selector
 * matching are done by a foreign library; the model keeps only what the
 * scrapers read from it: for each selector they use, the matched elements
 * in document order, and for each element its tag name, attributes, inner
 * HTML, concatenated text, the inner HTML of its parent element, whether
 * it contains a `.reg_path` element, and the sibling nodes that follow it.
 */
module Html {
  import opened Wrappers
  import opened Text

  /** The CSS selectors the scrapers use. */
  datatype Selector =
    | GeneratorMeta     // meta[name="generator"]
    | MoneyIcon         // .fa-money
    | PhotoLinks        // .item-photos .thumbs a
    | PhotoImages       // .item-photos img
    | PubProfileLink    // a[href*="action=pub_profile"]
    | ItemLocation      // #item_location
    | OsclassName       // li.name
    | OsclassAddress    // li.address
    | OsclassLocation   // li.location
    | OsclassWebsite    // li.website
    | DjProfileName     // .djc-profile-box h3.el-title
    | DjSectionHeader   // h2.uk-h4

  datatype Element = Element(
    name: Bytes,
    attrs: map<Bytes, Bytes>,
    innerHtml: Bytes,
    text: Bytes,
    parentHtml: Option<Bytes>,
    hasRegPath: bool,
    following: seq<Node>)

  /** A sibling node: an element, or anything else (text, comment). */
  datatype Node = ElementNode(element: Element) | OtherNode

  datatype Document = Document(matches: map<Selector, seq<Element>>)

  /** `html.select(&selector)`: the matching elements in document order. */
  function Select(doc: Document, sel: Selector): (r: seq<Element>)
  {
    if sel in doc.matches then doc.matches[sel] else []
  }

  /** `html.select(&selector).next()` */
  function First(doc: Document, sel: Selector): (r: Option<Element>)
    ensures r.Some? <==> |Select(doc, sel)| > 0
    ensures r.Some? ==> r.value == Select(doc, sel)[0]
  {
    var all := Select(doc, sel);
    if |all| == 0 then None else Some(all[0])
  }

  /** `element.value().attr(name)` */
  function Attr(e: Element, name: Bytes): (r: Option<Bytes>)
  {
    if name in e.attrs then Some(e.attrs[name]) else None
  }

  /** The given attribute of the first match of a selector, if both exist. */
  function FirstAttr(doc: Document, sel: Selector, name: Bytes): (r: Option<Bytes>)
  {
    match First(doc, sel)
    case None => None
    case Some(e) => Attr(e, name)
  }
}
