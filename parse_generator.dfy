/**
 * Generator detection (`src/classifieds/parse/mod.rs`): the site software
 * that produced a page is read off the `content` attribute of its first
 * `<meta name="generator">` element.
 */
module ParseGenerator {
  import opened Wrappers
  import opened Text
  import opened Html

  datatype Generator = Osclass | DjClassifieds

  const CONTENT: Bytes := Ascii("content")
  const OSCLASS: Bytes := Ascii("Osclass")
  const JOOMLA: Bytes := Ascii("Joomla")

  /** The `content` attribute of the first generator meta element, if both exist. */
  function GeneratorContent(doc: Document): (r: Option<Bytes>)
    ensures r.Some? <==> |Select(doc, GeneratorMeta)| > 0 && CONTENT in Select(doc, GeneratorMeta)[0].attrs
    ensures r.Some? ==> r.value == Select(doc, GeneratorMeta)[0].attrs[CONTENT]
  {
    FirstAttr(doc, GeneratorMeta, CONTENT)
  }

  /** The prefix test on the content: "Osclass" first, then "Joomla". */
  function Classify(content: Bytes): (r: Option<Generator>)
    ensures r == Some(Osclass) <==> StartsWith(content, OSCLASS)
    ensures r == Some(DjClassifieds) <==> !StartsWith(content, OSCLASS) && StartsWith(content, JOOMLA)
    ensures r.None? <==> !StartsWith(content, OSCLASS) && !StartsWith(content, JOOMLA)
  {
    if StartsWith(content, OSCLASS) then Some(Osclass)
    else if StartsWith(content, JOOMLA) then Some(DjClassifieds)
    else None
  }

  /** `Generator::detect` */
  function Detect(doc: Document): (r: Option<Generator>)
    ensures GeneratorContent(doc).None? ==> r.None?
    ensures r == Some(Osclass) <==> GeneratorContent(doc).Some? && StartsWith(GeneratorContent(doc).value, OSCLASS)
    ensures r == Some(DjClassifieds) <==>
      GeneratorContent(doc).Some? && !StartsWith(GeneratorContent(doc).value, OSCLASS)
      && StartsWith(GeneratorContent(doc).value, JOOMLA)
  {
    match GeneratorContent(doc)
    case None => None
    case Some(content) => Classify(content)
  }

  /** No content starts with both names, so the order of the two tests cannot matter. */
  lemma PrefixesExclusive(content: Bytes)
    ensures !(StartsWith(content, OSCLASS) && StartsWith(content, JOOMLA))
  {
    if StartsWith(content, OSCLASS) && |content| >= |JOOMLA| {
      assert content[0] == OSCLASS[0] != JOOMLA[0];
    }
  }

  /** The classification depends on the first seven bytes of the content only. */
  lemma ClassifyByPrefix(content: Bytes, rest: Bytes)
    requires |content| >= |OSCLASS|
    ensures Classify(content[..|OSCLASS|] + rest) == Classify(content)
  {
    var c := content[..|OSCLASS|] + rest;
    assert c[..|OSCLASS|] == content[..|OSCLASS|];
    assert c[..|JOOMLA|] == content[..|JOOMLA|];
  }

  /** Only the first generator meta element is consulted: any later ones are ignored. */
  lemma DetectFirstOnly(doc: Document, other: Document)
    requires |Select(doc, GeneratorMeta)| > 0 && |Select(other, GeneratorMeta)| > 0
    requires Select(doc, GeneratorMeta)[0] == Select(other, GeneratorMeta)[0]
    ensures Detect(doc) == Detect(other)
  {
  }
}
