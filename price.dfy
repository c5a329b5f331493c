/**
 * The price shown for a listing: the text of the element that holds the
 * first `.fa-money` icon, with "Euro €" shortened to "€" and trimmed.
 * The same chain is used by `ClassifiedsApi::load_details`, by both
 * revisions of `ClassifiedsDetails::from` and by `get_price`.
 */
module Price {
  import opened Wrappers
  import opened Text
  import opened Html
  import opened Descriptions

  /** "€" (U+20AC) in UTF-8. */
  const EURO_SIGN: Bytes := [0xE2, 0x82, 0xAC]

  const EURO_WORD: Bytes := Ascii("Euro ") + EURO_SIGN

  /** `replace("Euro €", "€")` followed by `trim()`. */
  function NormalisePrice(text: Bytes): (r: Bytes)
    ensures IsTrimmed(r)
    ensures exists i :: TrimmedAt(ReplaceAll(text, EURO_WORD, EURO_SIGN), r, i)
  {
    Trim(ReplaceAll(text, EURO_WORD, EURO_SIGN))
  }

  /**
   * Present exactly when the page has a `.fa-money` element whose parent
   * is an element; then it is the normalised stripped text of that parent,
   * which never starts or ends with whitespace.
   */
  function PriceText(doc: Document, strip: Stripper): (r: Option<Bytes>)
    ensures r.Some? <==> First(doc, MoneyIcon).Some? && First(doc, MoneyIcon).value.parentHtml.Some?
    ensures r.Some? ==> r.value == NormalisePrice(strip(First(doc, MoneyIcon).value.parentHtml.value))
    ensures r.Some? ==> IsTrimmed(r.value)
  {
    match First(doc, MoneyIcon)
    case None => None
    case Some(icon) =>
      match icon.parentHtml
      case None => None
      case Some(html) => Some(NormalisePrice(strip(html)))
  }

  /** Only the first icon counts: pages that agree on it agree on the price. */
  lemma PriceUsesFirstIconOnly(doc1: Document, doc2: Document, strip: Stripper)
    requires |Select(doc1, MoneyIcon)| > 0 && |Select(doc2, MoneyIcon)| > 0
    requires Select(doc1, MoneyIcon)[0] == Select(doc2, MoneyIcon)[0]
    ensures PriceText(doc1, strip) == PriceText(doc2, strip)
  {
  }

  /** A price text without "Euro €" is only trimmed. */
  lemma PlainPriceIsTrimmed(text: Bytes)
    requires !Contains(text, EURO_WORD)
    ensures NormalisePrice(text) == Trim(text)
  {
    ReplaceAllIdentity(text, EURO_WORD, EURO_SIGN);
  }

  /**
   * An amount written with the currency word, "<amount> Euro €", comes out
   * as "<amount> €" with the whitespace around it gone.
   */
  lemma PriceWithCurrencyWord(lead: Bytes, amount: Bytes, trail: Bytes)
    requires AllWhitespace(lead) && AllWhitespace(trail)
    requires amount != [] && IsTrimmed(amount) && EURO_WORD[0] !in amount
    ensures NormalisePrice(lead + amount + SPACE + EURO_WORD + trail) == amount + SPACE + EURO_SIGN
  {
    var a := lead + amount + SPACE;
    assert EURO_WORD[0] !in a;
    assert lead + amount + SPACE + EURO_WORD + trail == a + (EURO_WORD + trail);
    ReplaceAllSkips(a, EURO_WORD + trail, EURO_WORD, EURO_SIGN);
    assert (EURO_WORD + trail)[..|EURO_WORD|] == EURO_WORD;
    assert (EURO_WORD + trail)[|EURO_WORD|..] == trail;
    assert EURO_WORD[0] !in trail;
    ReplaceAllSkips(trail, [], EURO_WORD, EURO_SIGN);
    assert trail + [] == trail;
    assert a + (EURO_SIGN + trail) == lead + (amount + SPACE + EURO_SIGN) + trail;
    TrimSurrounded(lead, amount + SPACE + EURO_SIGN, trail);
  }

  datatype PriceError = FetchFailed(reason: Bytes) | NotFound(url: Bytes)

  /** The error text; a missing price reads "Failed to find price on {url}". */
  function Message(e: PriceError): (r: Bytes)
    ensures e.FetchFailed? ==> r == e.reason
    ensures e.NotFound? ==> StartsWith(r, Ascii("Failed to find price on ")) && EndsWith(r, e.url)
    ensures e.NotFound? ==> |r| == |Ascii("Failed to find price on ")| + |e.url|
  {
    match e
    case FetchFailed(reason) => reason
    case NotFound(url) => Ascii("Failed to find price on ") + url
  }

  /**
   * `get_price` once the page at `url` has been downloaded (or has failed
   * to download): a download error is passed on; otherwise the price if
   * the page has one, else the error naming the URL.
   */
  function GetPrice(url: Bytes, page: Result<Document, Bytes>, strip: Stripper): (r: Result<Bytes, PriceError>)
    ensures page.Err? ==> r == Err(FetchFailed(page.error))
    ensures page.Ok? ==> (r.Ok? <==> PriceText(page.value, strip).Some?)
    ensures page.Ok? && r.Ok? ==> Some(r.value) == PriceText(page.value, strip) && IsTrimmed(r.value)
    ensures page.Ok? && r.Err? ==> r.error == NotFound(url) && EndsWith(Message(r.error), url)
  {
    match page
    case Err(reason) => Err(FetchFailed(reason))
    case Ok(doc) =>
      match PriceText(doc, strip)
      case Some(price) => Ok(price)
      case None => Err(NotFound(url))
  }
}
