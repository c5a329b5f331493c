/**
 * The seller profile scraper of the later revision
 * (`src/classifieds/parse/user.rs`): Osclass profiles are read from four
 * list items, DJ-Classifieds profiles from a name header and the siblings
 * that follow the "Standort" header.
 */
module ParseUser {
  import opened Wrappers
  import opened Text
  import opened Html
  import opened ParseGenerator
  import Descriptions

  datatype ClassifiedsUser = ClassifiedsUser(
    name: Option<Bytes>,
    address: Option<Bytes>,
    location: Option<Bytes>,
    website: Option<Bytes>)

  const ADDRESS_LABEL: Bytes := Ascii("Adresse:")
  const LOCATION_LABEL: Bytes := Ascii("Standort:")
  const STANDORT: Bytes := Ascii("Standort")
  const EUROPA: Bytes := Ascii("Europa, ")
  const FLUGPLATZ: Bytes := Ascii("Flugplatz:")
  const NOT_AVAILABLE: Bytes := Ascii("not available")
  const ANTARCTICA: Bytes := Ascii("Antarktis, Antarktis")
  const H2: Bytes := Ascii("h2")
  const SEPARATOR: Bytes := Ascii(", ")

  // ---------------------------------------------------------------------
  // Dispatch

  /** The generator content, or "" when the meta element or its attribute is missing. */
  function GeneratorName(doc: Document): (r: Bytes)
  {
    match GeneratorContent(doc)
    case None => []
    case Some(content) => content
  }

  /**
   * `From<&str> for ClassifiedsUser`: an Osclass page is parsed as such;
   * every other page, Joomla, unknown or without generator, as DJ-Classifieds.
   */
  function UserFrom(doc: Document, strip: Descriptions.Stripper): (r: ClassifiedsUser)
    ensures Detect(doc) == Some(Osclass) ==> r == ParseOsclass(doc, strip)
    ensures Detect(doc) != Some(Osclass) ==> r == ParseDjClassifieds(doc, strip)
  {
    if StartsWith(GeneratorName(doc), OSCLASS) then ParseOsclass(doc, strip) else ParseDjClassifieds(doc, strip)
  }

  // ---------------------------------------------------------------------
  // Osclass

  /** The stripped inner HTML of the first match of a selector. */
  function FirstText(doc: Document, sel: Selector, strip: Descriptions.Stripper): (r: Option<Bytes>)
    ensures r.Some? <==> |Select(doc, sel)| > 0
    ensures r.Some? ==> r.value == strip(Select(doc, sel)[0].innerHtml)
  {
    match First(doc, sel)
    case None => None
    case Some(e) => Some(strip(e.innerHtml))
  }

  /** Every occurrence of `marker` removed, in one left-to-right pass, then trimmed. */
  function Unlabelled(text: Bytes, marker: Bytes): (r: Bytes)
    requires |marker| > 0
  {
    Trim(ReplaceAll(text, marker, []))
  }

  function TrimmedText(doc: Document, sel: Selector, strip: Descriptions.Stripper): (r: Option<Bytes>)
  {
    match FirstText(doc, sel, strip)
    case None => None
    case Some(t) => Some(Trim(t))
  }

  function UnlabelledText(doc: Document, sel: Selector, strip: Descriptions.Stripper, marker: Bytes): (r: Option<Bytes>)
    requires |marker| > 0
  {
    match FirstText(doc, sel, strip)
    case None => None
    case Some(t) => Some(Unlabelled(t, marker))
  }

  /**
   * `parse_osclass`: each field is present exactly when its list item
   * is, and is the item's trimmed text; address and location lose their
   * "Adresse:" / "Standort:" labels first.
   */
  function ParseOsclass(doc: Document, strip: Descriptions.Stripper): (r: ClassifiedsUser)
    ensures r.name.Some? <==> |Select(doc, OsclassName)| > 0
    ensures r.address.Some? <==> |Select(doc, OsclassAddress)| > 0
    ensures r.location.Some? <==> |Select(doc, OsclassLocation)| > 0
    ensures r.website.Some? <==> |Select(doc, OsclassWebsite)| > 0
    ensures r.name.Some? ==> r.name.value == Trim(FirstText(doc, OsclassName, strip).value)
    ensures r.address.Some? ==> r.address.value == Unlabelled(FirstText(doc, OsclassAddress, strip).value, ADDRESS_LABEL)
    ensures r.location.Some? ==> r.location.value == Unlabelled(FirstText(doc, OsclassLocation, strip).value, LOCATION_LABEL)
    ensures r.website.Some? ==> r.website.value == Trim(FirstText(doc, OsclassWebsite, strip).value)
    ensures r.name.Some? ==> IsTrimmed(r.name.value)
    ensures r.address.Some? ==> IsTrimmed(r.address.value)
    ensures r.location.Some? ==> IsTrimmed(r.location.value)
    ensures r.website.Some? ==> IsTrimmed(r.website.value)
  {
    ClassifiedsUser(
      TrimmedText(doc, OsclassName, strip),
      UnlabelledText(doc, OsclassAddress, strip, ADDRESS_LABEL),
      UnlabelledText(doc, OsclassLocation, strip, LOCATION_LABEL),
      TrimmedText(doc, OsclassWebsite, strip))
  }

  /**
   * A labelled field "  Adresse:  value  " reads as "value", as long as
   * nothing after the marker spells the marker again.
   */
  lemma LabelRemoved(lead: Bytes, marker: Bytes, gap: Bytes, value: Bytes, trail: Bytes)
    requires |marker| > 0 && !IsWhitespace(marker[0])
    requires AllWhitespace(lead) && AllWhitespace(gap) && AllWhitespace(trail)
    requires value != [] && IsTrimmed(value) && !Contains(gap + value + trail, marker)
    ensures Unlabelled(lead + marker + gap + value + trail, marker) == value
  {
    var rest := gap + value + trail;
    assert marker[0] !in lead;
    assert lead + marker + gap + value + trail == lead + (marker + rest);
    ReplaceAllSkips(lead, marker + rest, marker, []);
    assert (marker + rest)[..|marker|] == marker;
    assert (marker + rest)[|marker|..] == rest;
    ReplaceAllIdentity(rest, marker, []);
    assert lead + ([] + rest) == (lead + gap) + value + trail;
    assert AllWhitespace(lead + gap);
    TrimSurrounded(lead + gap, value, trail);
  }

  /** Removal is a single pass: "Adr" + "Adresse:" + "esse:" comes out as "Adresse:". */
  lemma LabelRemovalSinglePass()
    ensures var s := ADDRESS_LABEL[..3] + ADDRESS_LABEL + ADDRESS_LABEL[3..];
      ReplaceAll(s, ADDRESS_LABEL, []) == ADDRESS_LABEL
  {
    var l := ADDRESS_LABEL;
    assert l[0] == 0x41 && l[1] == 0x64 && l[2] == 0x72 && l[3] == 0x65;
    SplitMarkerSurvives(l);
  }

  /**
   * A marker whose first byte does not recur in its next three survives
   * when its removal would join the two halves of a copy split after
   * three bytes.
   */
  lemma {:induction false} SplitMarkerSurvives(l: Bytes)
    requires |l| > 3 && l[1] != l[0] && l[2] != l[0] && l[3] != l[0]
    ensures ReplaceAll(l[..3] + l + l[3..], l, []) == l
  {
    var tail := l[3..];
    var rest := l + tail;
    var s := [l[0]] + ([l[1], l[2]] + rest);
    SplitShape(l);
    assert rest[..|l|] == l && rest[|l|..] == tail;
    ReplaceAllHit(rest, l, []);
    assert ReplaceAll(tail, l, []) == tail;
    assert ReplaceAll(rest, l, []) == tail;
    ReplaceAllSkips([l[1], l[2]], rest, l, []);
    assert s[..|l|][3] != l[3];
    ReplaceAllMiss(s, l, []);
    assert s[1..] == [l[1], l[2]] + rest;
    assert ReplaceAll(s, l, []) == [l[0]] + ([l[1], l[2]] + tail);
  }

  /** The split copy and the marker, as the single bytes the removal walks over. */
  lemma SplitShape(l: Bytes)
    requires |l| > 3
    ensures l[..3] + l + l[3..] == [l[0]] + ([l[1], l[2]] + (l + l[3..]))
    ensures [l[0]] + ([l[1], l[2]] + l[3..]) == l
  {
  }

  // ---------------------------------------------------------------------
  // DJ-Classifieds

  /**
   * `parse_dj_classifieds`: the name is the raw text of the profile
   * header, not trimmed; address and website are never known.
   */
  function ParseDjClassifieds(doc: Document, strip: Descriptions.Stripper): (r: ClassifiedsUser)
    ensures r.address.None? && r.website.None?
    ensures r.name.Some? <==> |Select(doc, DjProfileName)| > 0
    ensures r.name.Some? ==> r.name.value == Select(doc, DjProfileName)[0].text
    ensures r.location == DjLocation(doc, strip)
  {
    var name := match First(doc, DjProfileName)
      case None => None
      case Some(e) => Some(e.text);
    ClassifiedsUser(name, None, DjLocation(doc, strip), None)
  }

  /** The first section header whose text mentions "Standort". */
  function FindHeader(headers: seq<Element>): (r: Option<Element>)
    ensures r.None? <==> forall i | 0 <= i < |headers| :: !Contains(headers[i].text, STANDORT)
    ensures r.Some? ==> exists i | 0 <= i < |headers| ::
      headers[i] == r.value && Contains(r.value.text, STANDORT) && forall j | 0 <= j < i :: !Contains(headers[j].text, STANDORT)
  {
    if |headers| == 0 then None
    else if Contains(headers[0].text, STANDORT) then Some(headers[0])
    else
      var r := FindHeader(headers[1..]);
      assert forall i | 1 <= i < |headers| :: headers[i] == headers[1..][i - 1];
      assert r.Some? ==> exists i | 0 <= i < |headers| ::
        headers[i] == r.value && Contains(r.value.text, STANDORT) && forall j | 0 <= j < i :: !Contains(headers[j].text, STANDORT) by {
        if r.Some? {
          var k :| 0 <= k < |headers[1..]| && headers[1..][k] == r.value && Contains(r.value.text, STANDORT)
            && forall j | 0 <= j < k :: !Contains(headers[1..][j].text, STANDORT);
          assert forall j | 0 <= j < k + 1 :: !Contains(headers[j].text, STANDORT) by {
            forall j | 0 <= j < k + 1 ensures !Contains(headers[j].text, STANDORT) {
              if j > 0 {
                assert headers[j] == headers[1..][j - 1];
              }
            }
          }
        }
      }
      r
  }

  /** A sibling's text: stripped, trimmed and freed of every leading "Europa, ". */
  function SiblingText(strip: Descriptions.Stripper, e: Element): (r: Bytes)
  {
    TrimStartMatches(Trim(strip(e.innerHtml)), EUROPA)
  }

  /** The sibling text is what is left of the trimmed text once zero or more "Europa, " are cut off its front. */
  lemma SiblingTextShape(strip: Descriptions.Stripper, e: Element)
    ensures var t, r := Trim(strip(e.innerHtml)), SiblingText(strip, e);
      |r| <= |t| && t == t[..|t| - |r|] + r && Repeats(t[..|t| - |r|], EUROPA) && !StartsWith(r, EUROPA)
  {
    PrefixesThenRest(Trim(strip(e.innerHtml)));
  }

  lemma PrefixesThenRest(t: Bytes)
    ensures var r := TrimStartMatches(t, EUROPA);
      |r| <= |t| && t == t[..|t| - |r|] + r && Repeats(t[..|t| - |r|], EUROPA) && !StartsWith(r, EUROPA)
  {
    var r := TrimStartMatches(t, EUROPA);
    assert t == t[..|t| - |r|] + t[|t| - |r|..];
  }

  /** What one sibling does to the scan. */
  datatype Step = SetLocation(place: Bytes) | SetRegion(region: Bytes) | Skip | Stop

  /**
   * A "Flugplatz:" sibling names the airfield unless it is empty or
   * "not available"; otherwise a sibling holding a `.reg_path` names the
   * region unless it is empty or "Antarktis, Antarktis"; otherwise an
   * `h2` ends the scan. Text and comment nodes are skipped.
   */
  function StepOf(strip: Descriptions.Stripper, n: Node): (s: Step)
    ensures n.OtherNode? ==> s == Skip
    ensures s.SetLocation? ==> s.place != [] && s.place != NOT_AVAILABLE && IsTrimmed(s.place)
    ensures s.SetRegion? ==> s.region != [] && s.region != ANTARCTICA && !StartsWith(s.region, FLUGPLATZ)
    ensures s.Stop? <==>
      n.ElementNode? && n.element.name == H2 && !n.element.hasRegPath &&
      !StartsWith(SiblingText(strip, n.element), FLUGPLATZ)
    ensures s.SetLocation? ==>
      n.ElementNode? && StartsWith(SiblingText(strip, n.element), FLUGPLATZ) &&
      s.place == Trim(TrimStartMatches(SiblingText(strip, n.element), FLUGPLATZ))
    ensures s.SetRegion? ==>
      n.ElementNode? && n.element.hasRegPath &&
      !StartsWith(SiblingText(strip, n.element), FLUGPLATZ) && s.region == SiblingText(strip, n.element)
    ensures n.ElementNode? && StartsWith(SiblingText(strip, n.element), FLUGPLATZ) ==>
      var place := Trim(TrimStartMatches(SiblingText(strip, n.element), FLUGPLATZ));
      (s.SetLocation? <==> place != [] && place != NOT_AVAILABLE)
    ensures n.ElementNode? && n.element.hasRegPath && !StartsWith(SiblingText(strip, n.element), FLUGPLATZ) ==>
      var text := SiblingText(strip, n.element);
      (s.SetRegion? <==> text != [] && text != ANTARCTICA)
  {
    match n
    case OtherNode => Skip
    case ElementNode(e) =>
      var text := SiblingText(strip, e);
      if StartsWith(text, FLUGPLATZ) then
        var place := Trim(TrimStartMatches(text, FLUGPLATZ));
        if |place| > 0 && place != NOT_AVAILABLE then SetLocation(place) else Skip
      else if e.hasRegPath then
        if |text| > 0 && text != ANTARCTICA then SetRegion(text) else Skip
      else if e.name == H2 then Stop
      else Skip
  }

  /** The step of each sibling, in order. */
  function Steps(strip: Descriptions.Stripper, sibs: seq<Node>): (r: seq<Step>)
    ensures |r| == |sibs|
  {
    if |sibs| == 0 then [] else [StepOf(strip, sibs[0])] + Steps(strip, sibs[1..])
  }

  lemma {:induction false} StepsAt(strip: Descriptions.Stripper, sibs: seq<Node>, i: nat)
    requires i < |sibs|
    ensures Steps(strip, sibs)[i] == StepOf(strip, sibs[i])
  {
    if i > 0 {
      StepsAt(strip, sibs[1..], i - 1);
    }
  }

  /** The number of siblings scanned: up to, not including, the first that stops the scan. */
  function StopIndex(steps: seq<Step>): (k: nat)
    ensures k <= |steps|
    ensures forall j | 0 <= j < k :: !steps[j].Stop?
    ensures k < |steps| ==> steps[k].Stop?
  {
    if |steps| == 0 then 0
    else if steps[0].Stop? then 0
    else
      var k := StopIndex(steps[1..]);
      assert forall j | 1 <= j < |steps| :: steps[j] == steps[1..][j - 1];
      k + 1
  }

  /** The place named by the last airfield sibling, if any. */
  function LastLocation(steps: seq<Step>): (r: Option<Bytes>)
    ensures r.None? <==> forall j | 0 <= j < |steps| :: !steps[j].SetLocation?
    ensures r.Some? ==> exists j :: LastLocationAt(steps, j, r.value)
  {
    if |steps| == 0 then None
    else match steps[|steps| - 1]
      case SetLocation(place) =>
        assert LastLocationAt(steps, |steps| - 1, place);
        Some(place)
      case _ =>
        var r := LastLocation(steps[..|steps| - 1]);
        assert forall j | 0 <= j < |steps| - 1 :: steps[j] == steps[..|steps| - 1][j];
        assert steps == steps[..|steps| - 1] + [steps[|steps| - 1]];
        if r.Some? then LastLocationAtExtends(steps[..|steps| - 1], steps[|steps| - 1], r.value); r else r
  }

  /** Step `j` names `place`, and no later step names an airfield. */
  predicate LastLocationAt(steps: seq<Step>, j: int, place: Bytes)
  {
    0 <= j < |steps| && steps[j] == SetLocation(place) && forall k | j < k < |steps| :: !steps[k].SetLocation?
  }

  /** A last airfield step stays the last one when a step that is not one follows. */
  lemma LastLocationAtExtends(init: seq<Step>, last: Step, place: Bytes)
    requires !last.SetLocation?
    requires exists j :: LastLocationAt(init, j, place)
    ensures exists j :: LastLocationAt(init + [last], j, place)
  {
    var j :| LastLocationAt(init, j, place);
    var steps := init + [last];
    assert forall k | j < k < |init| :: steps[k] == init[k];
    assert LastLocationAt(steps, j, place);
  }

  /** The region named by the last region sibling, if any. */
  function LastRegion(steps: seq<Step>): (r: Option<Bytes>)
    ensures r.None? <==> forall j | 0 <= j < |steps| :: !steps[j].SetRegion?
    ensures r.Some? ==> exists j :: LastRegionAt(steps, j, r.value)
  {
    if |steps| == 0 then None
    else match steps[|steps| - 1]
      case SetRegion(region) =>
        assert LastRegionAt(steps, |steps| - 1, region);
        Some(region)
      case _ =>
        var r := LastRegion(steps[..|steps| - 1]);
        assert forall j | 0 <= j < |steps| - 1 :: steps[j] == steps[..|steps| - 1][j];
        assert steps == steps[..|steps| - 1] + [steps[|steps| - 1]];
        if r.Some? then LastRegionAtExtends(steps[..|steps| - 1], steps[|steps| - 1], r.value); r else r
  }

  /** Step `j` names `region`, and no later step names a region. */
  predicate LastRegionAt(steps: seq<Step>, j: int, region: Bytes)
  {
    0 <= j < |steps| && steps[j] == SetRegion(region) && forall k | j < k < |steps| :: !steps[k].SetRegion?
  }

  /** A last region step stays the last one when a step that is not one follows. */
  lemma LastRegionAtExtends(init: seq<Step>, last: Step, region: Bytes)
    requires !last.SetRegion?
    requires exists j :: LastRegionAt(init, j, region)
    ensures exists j :: LastRegionAt(init + [last], j, region)
  {
    var j :| LastRegionAt(init, j, region);
    var steps := init + [last];
    assert forall k | j < k < |init| :: steps[k] == init[k];
    assert LastRegionAt(steps, j, region);
  }

  /** "{loc}, {reg}" when both are known, else whichever is. */
  function Combine(place: Option<Bytes>, region: Option<Bytes>): (r: Option<Bytes>)
    ensures r.None? <==> place.None? && region.None?
    ensures place.Some? ==> StartsWith(r.value, place.value)
    ensures region.Some? ==> EndsWith(r.value, region.value)
    ensures place.Some? && region.Some? ==> |r.value| == |place.value| + |SEPARATOR| + |region.value|
    ensures place.None? || region.None? ==> r == (if place.Some? then place else region)
    ensures place.Some? && region.Some? ==> r == Some(place.value + SEPARATOR + region.value)
  {
    match (place, region)
    case (Some(p), Some(g)) =>
      var r := p + SEPARATOR + g;
      assert r[..|p|] == p;
      assert r[|r| - |g|..] == g;
      Some(r)
    case (Some(p), None) => Some(p)
    case (None, Some(g)) => Some(g)
    case (None, None) => None
  }

  /** The location of a DJ-Classifieds profile; `ExtractDjLocation` computes it. */
  function DjLocation(doc: Document, strip: Descriptions.Stripper): (r: Option<Bytes>)
    ensures FindHeader(Select(doc, DjSectionHeader)).None? ==> r.None?
    ensures var h := FindHeader(Select(doc, DjSectionHeader));
      h.Some? ==>
        var steps := Steps(strip, h.value.following);
        var scanned := steps[..StopIndex(steps)];
        (r.None? <==> forall j | 0 <= j < |scanned| :: !scanned[j].SetLocation? && !scanned[j].SetRegion?) &&
        r == Combine(LastLocation(scanned), LastRegion(scanned))
  {
    match FindHeader(Select(doc, DjSectionHeader))
    case None => None
    case Some(h) =>
      var steps := Steps(strip, h.following);
      var scanned := steps[..StopIndex(steps)];
      NothingNamed(scanned);
      Combine(LastLocation(scanned), LastRegion(scanned))
  }

  /** The scan finds nothing exactly when no scanned sibling names an airfield or a region. */
  lemma NothingNamed(scanned: seq<Step>)
    ensures Combine(LastLocation(scanned), LastRegion(scanned)).None? <==>
      forall j | 0 <= j < |scanned| :: !scanned[j].SetLocation? && !scanned[j].SetRegion?
  {
    if LastLocation(scanned).Some? {
      var j :| LastLocationAt(scanned, j, LastLocation(scanned).value);
    } else if LastRegion(scanned).Some? {
      var j :| LastRegionAt(scanned, j, LastRegion(scanned).value);
    }
  }

  /**
   * `extract_dj_location`: walks the siblings after the "Standort" header,
   * letting each airfield and region sibling overwrite the one before,
   * until an `h2` sibling ends the walk.
   */
  method ExtractDjLocation(doc: Document, strip: Descriptions.Stripper) returns (r: Option<Bytes>)
    ensures r == DjLocation(doc, strip)
  {
    var header := FindHeader(Select(doc, DjSectionHeader));
    if header.None? {
      return None;
    }
    var sibs := header.value.following;
    ghost var steps := Steps(strip, sibs);
    var place: Option<Bytes> := None;
    var region: Option<Bytes> := None;
    var i := 0;
    while i < |sibs|
      invariant 0 <= i <= StopIndex(steps)
      invariant place == LastLocation(steps[..i])
      invariant region == LastRegion(steps[..i])
    {
      var step := SiblingStep(strip, sibs[i]);
      StepsAt(strip, sibs, i);
      ScanAdvance(steps, i);
      if step.Stop? {
        break;
      }
      assert i < StopIndex(steps);
      if step.SetLocation? {
        place := Some(step.place);
      } else if step.SetRegion? {
        region := Some(step.region);
      }
      assert place == LastLocation(steps[..i + 1]);
      assert region == LastRegion(steps[..i + 1]);
      i := i + 1;
    }
    assert steps[..i] == steps[..StopIndex(steps)];
    r := Combine(place, region);
  }

  /**
   * The body of `extract_dj_location`'s loop written out, statement by
   * statement, for one sibling: its text, cleaned, is checked for the
   * airfield prefix, then the element for `.reg_path`, then for being an
   * `h2`. Its contract ties it to `StepOf`, the same step as a value.
   */
  method SiblingStep(strip: Descriptions.Stripper, n: Node) returns (step: Step)
    ensures step == StepOf(strip, n)
  {
    step := Skip;
    match n {
      case OtherNode =>
      case ElementNode(el) =>
        var text := SiblingText(strip, el);
        if StartsWith(text, FLUGPLATZ) {
          var loc := Trim(TrimStartMatches(text, FLUGPLATZ));
          if |loc| > 0 && loc != NOT_AVAILABLE {
            step := SetLocation(loc);
          }
        } else if el.hasRegPath {
          if |text| > 0 && text != ANTARCTICA {
            step := SetRegion(text);
          }
        } else if el.name == H2 {
          step := Stop;
        }
    }
  }

  /** Scanning one sibling more: an airfield or region step replaces the value so far. */
  lemma ScanAdvance(steps: seq<Step>, i: nat)
    requires i < |steps|
    ensures LastLocation(steps[..i + 1]) == if steps[i].SetLocation? then Some(steps[i].place) else LastLocation(steps[..i])
    ensures LastRegion(steps[..i + 1]) == if steps[i].SetRegion? then Some(steps[i].region) else LastRegion(steps[..i])
  {
    assert steps[..i + 1][..i] == steps[..i];
  }

  /** Without a "Standort" header there is no location. */
  lemma NoHeaderNoLocation(doc: Document, strip: Descriptions.Stripper)
    requires forall i | 0 <= i < |Select(doc, DjSectionHeader)| :: !Contains(Select(doc, DjSectionHeader)[i].text, STANDORT)
    ensures DjLocation(doc, strip).None?
  {
  }

  /** Later siblings overwrite earlier ones: the last airfield named wins. */
  lemma {:induction false} LastLocationConcat(a: seq<Step>, b: seq<Step>)
    ensures LastLocation(a + b) == if LastLocation(b).Some? then LastLocation(b) else LastLocation(a)
    decreases |b|
  {
    if |b| == 0 {
      assert a + b == a;
    } else {
      var ab := a + b;
      assert ab[..|ab| - 1] == a + b[..|b| - 1];
      assert ab[|ab| - 1] == b[|b| - 1];
      LastLocationUnfold(ab);
      LastLocationUnfold(b);
      LastLocationConcat(a, b[..|b| - 1]);
    }
  }

  /** One step of `LastLocation`: the last step, if it names one, else the steps before it. */
  lemma LastLocationUnfold(steps: seq<Step>)
    requires |steps| > 0
    ensures LastLocation(steps) ==
      if steps[|steps| - 1].SetLocation? then Some(steps[|steps| - 1].place) else LastLocation(steps[..|steps| - 1])
  {
  }

  /** Later siblings overwrite earlier ones: the last region named wins. */
  lemma {:induction false} LastRegionConcat(a: seq<Step>, b: seq<Step>)
    ensures LastRegion(a + b) == if LastRegion(b).Some? then LastRegion(b) else LastRegion(a)
    decreases |b|
  {
    if |b| == 0 {
      assert a + b == a;
    } else {
      var ab := a + b;
      assert ab[..|ab| - 1] == a + b[..|b| - 1];
      assert ab[|ab| - 1] == b[|b| - 1];
      LastRegionUnfold(ab);
      LastRegionUnfold(b);
      LastRegionConcat(a, b[..|b| - 1]);
    }
  }

  /** One step of `LastRegion`: the last step, if it names one, else the steps before it. */
  lemma LastRegionUnfold(steps: seq<Step>)
    requires |steps| > 0
    ensures LastRegion(steps) ==
      if steps[|steps| - 1].SetRegion? then Some(steps[|steps| - 1].region) else LastRegion(steps[..|steps| - 1])
  {
  }

  /** Nothing after the sibling that stops the scan is looked at. */
  lemma {:induction false} StopIgnoresRest(a: seq<Step>, b: seq<Step>)
    requires forall j | 0 <= j < |a| :: !a[j].Stop?
    ensures StopIndex(a + [Stop] + b) == |a|
    decreases |a|
  {
    var s := a + [Stop] + b;
    if |a| == 0 {
      assert s[0] == Stop;
    } else {
      assert s[0] == a[0];
      assert s[1..] == a[1..] + [Stop] + b;
      assert forall j | 0 <= j < |a[1..]| :: a[1..][j] == a[j + 1];
      StopIgnoresRest(a[1..], b);
    }
  }
}
