/**
 * The page scrapers of the earlier revision (`src/classifieds/parse.rs`):
 * a single photo URL instead of a filtered list, and a profile parser
 * that knows only the Osclass layout.
 */
module LegacyParse {
  import opened Wrappers
  import opened Text
  import opened Html
  import opened ParseGenerator
  import Descriptions
  import Price
  import ParseItem
  import ParseUser

  datatype ClassifiedsDetails = ClassifiedsDetails(
    photoUrl: Option<Bytes>,
    price: Option<Bytes>,
    userLink: Option<Bytes>)

  const SRC: Bytes := Ascii("src")

  /** `photo_url`: the `src` of the first photo image, whatever it points to. */
  function PhotoUrl(doc: Document): (r: Option<Bytes>)
    ensures r.Some? <==> |Select(doc, PhotoImages)| > 0 && SRC in Select(doc, PhotoImages)[0].attrs
    ensures r.Some? ==> r.value == Select(doc, PhotoImages)[0].attrs[SRC]
  {
    FirstAttr(doc, PhotoImages, SRC)
  }

  /** `From<&str> for ClassifiedsDetails`: price and profile link as in the later revision. */
  function DetailsFrom(doc: Document, strip: Descriptions.Stripper): (r: ClassifiedsDetails)
    ensures r.photoUrl == PhotoUrl(doc)
    ensures r.price == Price.PriceText(doc, strip)
    ensures r.userLink == ParseItem.UserLink(doc)
  {
    ClassifiedsDetails(PhotoUrl(doc), Price.PriceText(doc, strip), FirstAttr(doc, PubProfileLink, ParseItem.HREF))
  }

  /** Unlike the later photo list, the placeholder image is not filtered out. */
  lemma PlaceholderKept(doc: Document, strip: Descriptions.Stripper)
    requires |Select(doc, PhotoImages)| > 0 && SRC in Select(doc, PhotoImages)[0].attrs
    requires EndsWith(Select(doc, PhotoImages)[0].attrs[SRC], ParseItem.NO_PHOTO)
    ensures DetailsFrom(doc, strip).photoUrl.Some?
    ensures EndsWith(DetailsFrom(doc, strip).photoUrl.value, ParseItem.NO_PHOTO)
  {
  }

  /**
   * `From<&str> for ClassifiedsUser`: the four list items, trimmed, with
   * the address and location labels removed; the same result as the later
   * revision's Osclass parser, on every page.
   */
  function UserFrom(doc: Document, strip: Descriptions.Stripper): (r: ParseUser.ClassifiedsUser)
    ensures r == ParseUser.ParseOsclass(doc, strip)
  {
    var name := match First(doc, OsclassName)
      case None => None
      case Some(e) => Some(Trim(strip(e.innerHtml)));
    var address := match First(doc, OsclassAddress)
      case None => None
      case Some(e) => Some(Trim(ReplaceAll(strip(e.innerHtml), ParseUser.ADDRESS_LABEL, [])));
    var location := match First(doc, OsclassLocation)
      case None => None
      case Some(e) => Some(Trim(ReplaceAll(strip(e.innerHtml), ParseUser.LOCATION_LABEL, [])));
    var website := match First(doc, OsclassWebsite)
      case None => None
      case Some(e) => Some(Trim(strip(e.innerHtml)));
    ParseUser.ClassifiedsUser(name, address, location, website)
  }

  /** On an Osclass page the earlier and the later profile parser agree. */
  lemma AgreesOnOsclass(doc: Document, strip: Descriptions.Stripper)
    requires Detect(doc) == Some(Osclass)
    ensures UserFrom(doc, strip) == ParseUser.UserFrom(doc, strip)
  {
  }
}
