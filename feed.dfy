/**
 * The RSS feed entry as the `rss` crate delivers it, reduced to the fields
 * the bot reads, and the presence check both versions of
 * `TryFrom<rss::Item>` perform before they accept an entry.
 */
module Feed {
  import opened Wrappers
  import opened Text

  datatype Guid = Guid(value: Bytes)

  datatype RawItem = RawItem(
    guid: Option<Guid>,
    title: Option<Bytes>,
    link: Option<Bytes>,
    description: Option<Bytes>)

  /** The three required elements, in the order they are checked. */
  datatype Field = GuidField | TitleField | LinkField

  function Rank(f: Field): (r: nat)
  {
    match f
    case GuidField => 0
    case TitleField => 1
    case LinkField => 2
  }

  predicate Present(item: RawItem, f: Field)
  {
    match f
    case GuidField => item.guid.Some?
    case TitleField => item.title.Some?
    case LinkField => item.link.Some?
  }

  /** An entry that passed the check: guid, title and link are all there. */
  type CheckedItem = item: RawItem | item.guid.Some? && item.title.Some? && item.link.Some?
    witness RawItem(Some(Guid([])), Some([]), Some([]), None)

  datatype FeedError = Missing(field: Field)

  /** The error text: "Missing `guid` element", "Missing `title` element", "Missing `link` element". */
  function Message(e: FeedError): (r: Bytes)
    ensures StartsWith(r, MISSING_PREFIX) && EndsWith(r, MISSING_SUFFIX)
    ensures |r| == |MISSING_PREFIX| + |FieldName(e.field)| + |MISSING_SUFFIX|
    ensures r[|MISSING_PREFIX|..|r| - |MISSING_SUFFIX|] == FieldName(e.field)
  {
    var r := MISSING_PREFIX + FieldName(e.field) + MISSING_SUFFIX;
    assert r[..|MISSING_PREFIX|] == MISSING_PREFIX;
    assert r[|r| - |MISSING_SUFFIX|..] == MISSING_SUFFIX;
    r
  }

  const MISSING_PREFIX: Bytes := Ascii("Missing `")

  const MISSING_SUFFIX: Bytes := Ascii("` element")

  /** The element name of a required field. */
  function FieldName(f: Field): (r: Bytes)
  {
    match f
    case GuidField => Ascii("guid")
    case TitleField => Ascii("title")
    case LinkField => Ascii("link")
  }

  /** The error text names the missing field: different fields give different texts. */
  lemma MessageNamesField(e1: FeedError, e2: FeedError)
    requires Message(e1) == Message(e2)
    ensures e1 == e2
  {
    var n1, n2 := FieldName(e1.field), FieldName(e2.field);
    assert n1 == n2;
    assert n1[0] == n2[0] && |n1| == |n2|;
  }

  /**
   * Checks guid, then title, then link. An entry is accepted unchanged
   * exactly when all three are present; otherwise the error names the
   * first missing one, every field checked before it being present.
   */
  function CheckRequired(item: RawItem): (r: Result<CheckedItem, FeedError>)
    ensures r.Ok? <==> forall f :: Present(item, f)
    ensures r.Ok? ==> r.value == item
    ensures r.Err? ==> !Present(item, r.error.field)
    ensures r.Err? ==> forall f :: Rank(f) < Rank(r.error.field) ==> Present(item, f)
  {
    if item.guid.None? then
      assert !Present(item, GuidField);
      Err(Missing(GuidField))
    else if item.title.None? then
      assert !Present(item, TitleField);
      Err(Missing(TitleField))
    else if item.link.None? then
      assert !Present(item, LinkField);
      Err(Missing(LinkField))
    else
      Ok(item)
  }

  /** A missing guid is reported whatever else is missing. */
  lemma MissingGuidWins(item: RawItem)
    requires item.guid.None?
    ensures CheckRequired(item) == Err(Missing(GuidField))
    ensures Message(CheckRequired(item).error) == Ascii("Missing `guid` element")
  {
  }

  function GuidOf(item: CheckedItem): (r: Bytes) { item.guid.value.value }

  function TitleOf(item: CheckedItem): (r: Bytes) { item.title.value }

  function LinkOf(item: CheckedItem): (r: Bytes) { item.link.value }
}
