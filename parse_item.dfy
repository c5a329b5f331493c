/**
 * The listing page scraper of the later revision
 * (`src/classifieds/parse/item.rs`): price, photo links, the seller's
 * profile link and the location, each read from the elements that match
 * one selector.
 */
module ParseItem {
  import opened Wrappers
  import opened Text
  import opened Html
  import Descriptions
  import Price

  datatype ClassifiedsDetails = ClassifiedsDetails(
    location: Option<Bytes>,
    photoUrls: seq<Bytes>,
    price: Option<Bytes>,
    userLink: Option<Bytes>)

  const HREF: Bytes := Ascii("href")
  const NO_PHOTO: Bytes := Ascii("/no_photo.gif")

  /** A photo link worth keeping: it has an href that is not the placeholder image. */
  predicate IsPhoto(a: Element)
  {
    HREF in a.attrs && !EndsWith(a.attrs[HREF], NO_PHOTO)
  }

  /** `h` is the href of one of the photo links kept. */
  predicate IsPhotoHref(anchors: seq<Element>, h: Bytes)
  {
    exists j | 0 <= j < |anchors| :: IsPhoto(anchors[j]) && h == anchors[j].attrs[HREF]
  }

  /**
   * `photo_urls`: the hrefs of the photo anchors in document order,
   * skipping anchors without an href and the placeholder image.
   */
  function PhotoUrls(anchors: seq<Element>): (r: seq<Bytes>)
    ensures |r| <= |anchors|
    ensures forall i | 0 <= i < |r| :: !EndsWith(r[i], NO_PHOTO)
    ensures forall i | 0 <= i < |r| :: IsPhotoHref(anchors, r[i])
    ensures forall j | 0 <= j < |anchors| && IsPhoto(anchors[j]) :: anchors[j].attrs[HREF] in r
  {
    if |anchors| == 0 then []
    else
      var rest := PhotoUrls(anchors[1..]);
      assert forall j | 1 <= j < |anchors| :: anchors[j] == anchors[1..][j - 1];
      assert forall h | IsPhotoHref(anchors[1..], h) :: IsPhotoHref(anchors, h) by {
        forall h | IsPhotoHref(anchors[1..], h) ensures IsPhotoHref(anchors, h) {
          var k :| 0 <= k < |anchors[1..]| && IsPhoto(anchors[1..][k]) && h == anchors[1..][k].attrs[HREF];
          assert anchors[k + 1] == anchors[1..][k];
        }
      }
      if IsPhoto(anchors[0]) then [anchors[0].attrs[HREF]] + rest else rest
  }

  /** Document order is kept: the photos of two runs of anchors are the photos of each, in turn. */
  lemma {:induction false} PhotoUrlsConcat(a: seq<Element>, b: seq<Element>)
    ensures PhotoUrls(a + b) == PhotoUrls(a) + PhotoUrls(b)
  {
    if |a| == 0 {
      assert a + b == b;
    } else {
      assert (a + b)[1..] == a[1..] + b;
      PhotoUrlsConcat(a[1..], b);
    }
  }

  /** A page whose photo anchors are all placeholders (or lack an href) has no photos. */
  lemma {:induction false} OnlyPlaceholders(anchors: seq<Element>)
    requires forall j | 0 <= j < |anchors| :: !IsPhoto(anchors[j])
    ensures PhotoUrls(anchors) == []
  {
    if |anchors| > 0 {
      assert forall j | 0 <= j < |anchors[1..]| :: anchors[1..][j] == anchors[j + 1];
      OnlyPlaceholders(anchors[1..]);
    }
  }

  /** `user_link`: the href of the first profile anchor, exactly as written in the page. */
  function UserLink(doc: Document): (r: Option<Bytes>)
    ensures r.Some? <==> |Select(doc, PubProfileLink)| > 0 && HREF in Select(doc, PubProfileLink)[0].attrs
    ensures r.Some? ==> r.value == Select(doc, PubProfileLink)[0].attrs[HREF]
  {
    FirstAttr(doc, PubProfileLink, HREF)
  }

  /** `location`: the stripped, trimmed text of `#item_location`, absent with the element. */
  function Location(doc: Document, strip: Descriptions.Stripper): (r: Option<Bytes>)
    ensures r.Some? <==> |Select(doc, ItemLocation)| > 0
    ensures r.Some? ==> IsTrimmed(r.value)
    ensures r.Some? ==> exists i :: TrimmedAt(strip(Select(doc, ItemLocation)[0].innerHtml), r.value, i)
  {
    match First(doc, ItemLocation)
    case None => None
    case Some(e) => Some(Trim(strip(e.innerHtml)))
  }

  /** `From<&str> for ClassifiedsDetails` once the page is parsed. */
  function DetailsFrom(doc: Document, strip: Descriptions.Stripper): (r: ClassifiedsDetails)
    ensures r.price == Price.PriceText(doc, strip)
    ensures r.photoUrls == PhotoUrls(Select(doc, PhotoLinks))
    ensures r.userLink == UserLink(doc) && r.location == Location(doc, strip)
  {
    ClassifiedsDetails(Location(doc, strip), PhotoUrls(Select(doc, PhotoLinks)), Price.PriceText(doc, strip), UserLink(doc))
  }
}
