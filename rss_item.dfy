/**
 * The feed entry of the earlier revision (`src/classifieds/rss.rs`): a
 * plain record whose description is sanitised and whose thumbnail URL is
 * extracted once, when the entry is accepted.
 */
module RssItem {
  import opened Wrappers
  import opened Text
  import opened Feed
  import opened Descriptions

  datatype ClassifiedsItem = ClassifiedsItem(
    guid: Bytes,
    title: Bytes,
    link: Bytes,
    description: Option<Bytes>,
    imageUrl: Option<Bytes>)

  /**
   * The suffix as this revision writes it, "â€¦": the UTF-8 bytes of "…"
   * read as Windows-1252 and encoded as UTF-8 again.
   */
  const MOJIBAKE_ELLIPSIS: Bytes := [0xC3, 0xA2, 0xE2, 0x82, 0xAC, 0xC2, 0xA6]

  /**
   * This revision's `sanitize_description`: the same pipeline, but a long
   * text ends in the seven bytes of "â€¦" rather than in "…".
   */
  function SanitizeDescription(strip: Stripper, value: Bytes): (r: Bytes)
    ensures var t := CleanText(strip(value));
      && (|t| < LENGTH_LIMIT ==> r == t)
      && (|t| >= LENGTH_LIMIT ==>
            |r| == LENGTH_LIMIT - 1 + |MOJIBAKE_ELLIPSIS|
            && StartsWith(r, t[..LENGTH_LIMIT - 1])
            && EndsWith(r, MOJIBAKE_ELLIPSIS) && !EndsWith(r, ELLIPSIS))
  {
    var t := CleanText(strip(value));
    if |t| >= LENGTH_LIMIT then MojibakeTail(t[..LENGTH_LIMIT - 1]); SanitizeWith(strip, value, MOJIBAKE_ELLIPSIS)
    else SanitizeWith(strip, value, MOJIBAKE_ELLIPSIS)
  }

  /** Text cut and followed by "â€¦" keeps its head and does not end in "…". */
  lemma MojibakeTail(head: Bytes)
    ensures StartsWith(head + MOJIBAKE_ELLIPSIS, head)
    ensures EndsWith(head + MOJIBAKE_ELLIPSIS, MOJIBAKE_ELLIPSIS)
    ensures !EndsWith(head + MOJIBAKE_ELLIPSIS, ELLIPSIS)
  {
    var r := head + MOJIBAKE_ELLIPSIS;
    assert r[..|head|] == head;
    assert r[|r| - |MOJIBAKE_ELLIPSIS|..] == MOJIBAKE_ELLIPSIS;
    assert r[|r| - 3] == 0xAC;
  }

  /**
   * The suffix as written is not the ellipsis: every description long
   * enough to be cut comes out four bytes longer than with "…", and so
   * differs from what the later revision produces.
   */
  lemma MojibakeDiffers(strip: Stripper, value: Bytes)
    requires |CleanText(strip(value))| >= LENGTH_LIMIT
    ensures |SanitizeDescription(strip, value)| == |Descriptions.SanitizeDescription(strip, value)| + 4
    ensures SanitizeDescription(strip, value) != Descriptions.SanitizeDescription(strip, value)
  {
  }

  /**
   * `TryFrom<rss::Item>`: rejects an entry with the first missing of guid,
   * title and link; otherwise copies those three and derives description
   * and thumbnail from the raw description, both absent when it is.
   * The description is cut with the intended "…" suffix.
   */
  function TryFromItem(strip: Stripper, item: RawItem): (r: Result<ClassifiedsItem, FeedError>)
    ensures r.Err? <==> CheckRequired(item).Err?
    ensures r.Err? ==> r.error == CheckRequired(item).error
    ensures r.Ok? ==>
      && r.value.guid == item.guid.value.value
      && r.value.title == item.title.value
      && r.value.link == item.link.value
    ensures r.Ok? ==> (r.value.description.None? <==> item.description.None?)
    ensures r.Ok? && item.description.None? ==> r.value.imageUrl.None?
    ensures r.Ok? && item.description.Some? ==>
      && r.value.description == Some(Descriptions.SanitizeDescription(strip, item.description.value))
      && r.value.imageUrl == FindImageUrl(item.description.value)
  {
    match CheckRequired(item)
    case Err(e) => Err(e)
    case Ok(checked) =>
      var imageUrl := match item.description
        case None => None
        case Some(d) => FindImageUrl(d);
      var description := match item.description
        case None => None
        case Some(d) => Some(Descriptions.SanitizeDescription(strip, d));
      Ok(ClassifiedsItem(GuidOf(checked), TitleOf(checked), LinkOf(checked), description, imageUrl))
  }
}
