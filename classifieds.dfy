/**
 * The feed entry of the later revision (`src/classifieds.rs`): it keeps
 * the raw entry, derives description and thumbnail on demand, and has a
 * `details` field that `load_details` fills in from the listing's page.
 */
module Classifieds {
  import opened Wrappers
  import opened Text
  import opened Html
  import opened Feed
  import Descriptions
  import Price

  datatype Details = Details(price: Option<Bytes>)

  /**
   * `ClassifiedsApi::load_details` once the page is downloaded: a failed
   * download is passed on, a page always yields details, whose price is
   * the page's price if it has one.
   */
  function DetailsFromPage(page: Result<Document, Bytes>, strip: Descriptions.Stripper): (r: Result<Details, Bytes>)
    ensures r.Err? <==> page.Err?
    ensures page.Err? ==> r.error == page.error
    ensures page.Ok? ==> r.value.price == Price.PriceText(page.value, strip)
  {
    match page
    case Err(reason) => Err(reason)
    case Ok(doc) => Ok(Details(Price.PriceText(doc, strip)))
  }

  class ClassifiedsItem {
    /** The accepted feed entry; its type records that guid, title and link are present. */
    const rssItem: CheckedItem
    var details: Option<Details>

    constructor (item: CheckedItem)
      ensures rssItem == item && details == None
    {
      rssItem := item;
      details := None;
    }

    /**
     * `TryFrom<rss::Item>`: checks guid, then title, then link; an
     * accepted entry is stored unchanged, without details.
     */
    static method TryFrom(item: RawItem) returns (r: Result<ClassifiedsItem, FeedError>)
      ensures r.Err? <==> CheckRequired(item).Err?
      ensures r.Err? ==> r.error == CheckRequired(item).error
      ensures r.Ok? ==> fresh(r.value) && r.value.rssItem == item && r.value.details == None
      ensures r.Ok? ==>
        && r.value.Guid() == item.guid.value.value
        && r.value.Title() == item.title.value
        && r.value.Link() == item.link.value
    {
      match CheckRequired(item) {
        case Err(e) =>
          r := Err(e);
        case Ok(checked) =>
          var accepted := new ClassifiedsItem(checked);
          r := Ok(accepted);
      }
    }

    /** `guid()`: the entry's guid, which acceptance guarantees is there. */
    function Guid(): (r: Bytes)
      ensures rssItem.guid == Some(Feed.Guid(r))
    {
      GuidOf(rssItem)
    }

    /** `title()`: the entry's title, which acceptance guarantees is there. */
    function Title(): (r: Bytes)
      ensures rssItem.title == Some(r)
    {
      TitleOf(rssItem)
    }

    /** `link()`: the entry's link, which acceptance guarantees is there. */
    function Link(): (r: Bytes)
      ensures rssItem.link == Some(r)
    {
      LinkOf(rssItem)
    }

    /** `description()`: the sanitised raw description, absent exactly when that is. */
    function Description(strip: Descriptions.Stripper): (r: Option<Bytes>)
      ensures r.None? <==> rssItem.description.None?
      ensures r.Some? ==> r.value == Descriptions.SanitizeDescription(strip, rssItem.description.value)
    {
      match rssItem.description
      case None => None
      case Some(d) => Some(Descriptions.SanitizeDescription(strip, d))
    }

    /**
     * `image_url()`: present only if the raw description holds
     * ` src="…"` with a non-empty value without quotes.
     */
    function ImageUrl(): (r: Option<Bytes>)
      ensures r.Some? ==> rssItem.description.Some?
      ensures r.Some? ==> exists p ::
        Descriptions.MatchesAt(rssItem.description.value, p, r.value) &&
        Descriptions.NoMatchBetween(rssItem.description.value, 0, p)
      ensures r.None? && rssItem.description.Some? ==> Descriptions.NoMatchFrom(rssItem.description.value, 0)
      ensures rssItem.description.Some? ==> r == Descriptions.FindImageUrl(rssItem.description.value)
    {
      match rssItem.description
      case None => None
      case Some(d) => Descriptions.FindImageUrl(d)
    }

    /** `details()`: what the last successful `load_details` stored, `None` before any. */
    function GetDetails(): (r: Option<Details>)
      reads this
      ensures r == details
    {
      details
    }

    /**
     * `load_details`: fetches the page at the entry's link; on success the
     * details are replaced, on failure they are left as they were.
     */
    method LoadDetails(fetch: Bytes -> Result<Document, Bytes>, strip: Descriptions.Stripper)
      returns (r: Result<(), Bytes>)
      modifies this
      ensures var loaded := DetailsFromPage(fetch(Link()), strip);
        && (loaded.Ok? ==> r == Ok(()) && details == Some(loaded.value))
        && (loaded.Err? ==> r == Err(loaded.error) && details == old(details))
    {
      var loaded := DetailsFromPage(fetch(Link()), strip);
      match loaded {
        case Err(e) =>
          r := Err(e);
        case Ok(d) =>
          details := Some(d);
          r := Ok(());
      }
    }
  }
}
