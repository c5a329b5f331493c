/**
 * The description text shown for a listing (`sanitize_description`) and
 * the thumbnail URL taken from the description markup (`find_image_url`).
 * `strip_html` is done by the `ammonia` crate; it is the parameter `strip`.
 */
module Descriptions {
  import opened Wrappers
  import opened Text

  type Stripper = Bytes -> Bytes

  const LENGTH_LIMIT: nat := 3500

  const NBSP: Bytes := Ascii("&nbsp;")

  const SPACE: Bytes := Ascii(" ")

  /** "…" (U+2026 HORIZONTAL ELLIPSIS) in UTF-8. */
  const ELLIPSIS: Bytes := [0xE2, 0x80, 0xA6]

  /** `&nbsp;` replaced by a space, then surrounding whitespace trimmed. */
  function CleanText(stripped: Bytes): (r: Bytes)
    ensures IsTrimmed(r)
    ensures !Contains(r, NBSP)
    ensures exists i :: TrimmedAt(ReplaceAll(stripped, NBSP, SPACE), r, i)
  {
    var replaced := ReplaceAll(stripped, NBSP, SPACE);
    ReplaceAllRemovesPattern(stripped, NBSP, SPACE);
    TrimKeepsAbsence(replaced, NBSP);
    Trim(replaced)
  }

  /** Texts of `LENGTH_LIMIT` bytes or more keep their first `LENGTH_LIMIT - 1` bytes and get `suffix`. */
  function LimitLength(text: Bytes, suffix: Bytes): (r: Bytes)
  {
    if |text| < LENGTH_LIMIT then text else text[..LENGTH_LIMIT - 1] + suffix
  }

  /** The pipeline shared by every revision of `sanitize_description`; only the suffix differs. */
  function SanitizeWith(strip: Stripper, value: Bytes, suffix: Bytes): (r: Bytes)
  {
    LimitLength(CleanText(strip(value)), suffix)
  }

  /**
   * `sanitize_description`: a short cleaned text is returned as it is,
   * free of surrounding whitespace; a long one is cut to its first 3499
   * bytes followed by "…". Either way no `&nbsp;` is left in it.
   */
  function SanitizeDescription(strip: Stripper, value: Bytes): (r: Bytes)
    ensures var t := CleanText(strip(value));
      && (|t| < LENGTH_LIMIT ==> r == t && IsTrimmed(r))
      && (|t| >= LENGTH_LIMIT ==>
            |r| == LENGTH_LIMIT - 1 + |ELLIPSIS|
            && StartsWith(r, t[..LENGTH_LIMIT - 1]) && EndsWith(r, ELLIPSIS))
    ensures |r| <= LENGTH_LIMIT + 2
    ensures !Contains(r, NBSP)
  {
    LimitKeepsAbsence(CleanText(strip(value)));
    SanitizeWith(strip, value, ELLIPSIS)
  }

  lemma EllipsisAvoidsNbsp()
    ensures Disjoint(ELLIPSIS, NBSP)
  {
  }

  lemma LimitKeepsAbsence(t: Bytes)
    requires !Contains(t, NBSP)
    ensures !Contains(LimitLength(t, ELLIPSIS), NBSP)
  {
    if |t| >= LENGTH_LIMIT {
      SliceKeepsAbsence(t, NBSP, 0, LENGTH_LIMIT - 1);
      assert t[..LENGTH_LIMIT - 1] == t[0..LENGTH_LIMIT - 1];
      EllipsisAvoidsNbsp();
      AppendKeepsAbsence(t[..LENGTH_LIMIT - 1], ELLIPSIS, NBSP);
    }
  }

  // ---------------------------------------------------------------------
  // find_image_url: the regex ` src="([^"]+)"`

  const SRC_ATTR: Bytes := Ascii(" src=\"")

  /** The regex matches starting at `p`, capturing `u`. */
  ghost predicate MatchesAt(s: Bytes, p: int, u: Bytes)
  {
    && OccursAt(s, SRC_ATTR, p)
    && |u| > 0 && QUOTE !in u
    && OccursAt(s, u, p + |SRC_ATTR|)
    && OccursAt(s, [QUOTE], p + |SRC_ATTR| + |u|)
  }

  ghost predicate NoMatchFrom(s: Bytes, lo: int)
  {
    forall p, u :: lo <= p ==> !MatchesAt(s, p, u)
  }

  ghost predicate NoMatchBetween(s: Bytes, lo: int, hi: int)
  {
    forall p, u :: lo <= p < hi ==> !MatchesAt(s, p, u)
  }

  /** Index of the first quote at or after `k`, or `|s|` if there is none. */
  function QuoteFrom(s: Bytes, k: nat): (q: nat)
    requires k <= |s|
    ensures k <= q <= |s|
    ensures forall j | k <= j < q :: s[j] != QUOTE
    ensures q < |s| ==> s[q] == QUOTE
    decreases |s| - k
  {
    if k == |s| || s[k] == QUOTE then k else QuoteFrom(s, k + 1)
  }

  /** The capture of the regex if a match starts at `p`. */
  function CaptureAt(s: Bytes, p: nat): (r: Option<Bytes>)
  {
    if OccursAt(s, SRC_ATTR, p) then
      var q := QuoteFrom(s, p + |SRC_ATTR|);
      if p + |SRC_ATTR| < q < |s| then Some(s[p + |SRC_ATTR|..q]) else None
    else
      None
  }

  lemma CaptureAtMatches(s: Bytes, p: nat, u: Bytes)
    ensures CaptureAt(s, p) == Some(u) <==> MatchesAt(s, p, u)
  {
    var k := p + |SRC_ATTR|;
    if CaptureAt(s, p) == Some(u) {
      var q := QuoteFrom(s, k);
      assert u == s[k..q];
      assert s[q..q + 1] == [QUOTE];
      forall i | 0 <= i < |u| ensures u[i] != QUOTE {
        assert u[i] == s[k + i];
      }
    }
    if MatchesAt(s, p, u) {
      var q := QuoteFrom(s, k);
      assert s[k + |u|] == s[k + |u|..k + |u| + 1][0] == QUOTE;
      forall j | k <= j < k + |u| ensures s[j] != QUOTE {
        assert s[j] == s[k..k + |u|][j - k] == u[j - k];
      }
      assert q == k + |u|;
    }
  }

  /** The leftmost match at or after `p`, as the regex engine finds it. */
  function FindFrom(s: Bytes, p: nat): (r: Option<Bytes>)
    decreases |s| + 1 - p
  {
    if p > |s| then None
    else match CaptureAt(s, p)
      case Some(u) => Some(u)
      case None => FindFrom(s, p + 1)
  }

  lemma {:induction false} FindFromLeftmost(s: Bytes, p: nat)
    ensures FindFrom(s, p).None? ==> NoMatchFrom(s, p)
    ensures FindFrom(s, p).Some? ==>
      exists m :: p <= m && MatchesAt(s, m, FindFrom(s, p).value) && NoMatchBetween(s, p, m)
    decreases |s| + 1 - p
  {
    if p > |s| {
    } else if CaptureAt(s, p).Some? {
      CaptureAtMatches(s, p, CaptureAt(s, p).value);
      assert MatchesAt(s, p, FindFrom(s, p).value) && NoMatchBetween(s, p, p);
    } else {
      forall u ensures !MatchesAt(s, p, u) {
        CaptureAtMatches(s, p, u);
      }
      FindFromLeftmost(s, p + 1);
      if FindFrom(s, p).Some? {
        var m :| p + 1 <= m && MatchesAt(s, m, FindFrom(s, p).value) && NoMatchBetween(s, p + 1, m);
        assert NoMatchBetween(s, p, m);
      }
    }
  }

  /**
   * `find_image_url`: the capture of the leftmost match of
   * ` src="([^"]+)"`, that is a non-empty text without quotes that stands
   * right after ` src="` and right before a quote; `None` when the
   * description has no such match anywhere.
   */
  function FindImageUrl(description: Bytes): (r: Option<Bytes>)
    ensures r.Some? ==> exists p :: MatchesAt(description, p, r.value) && NoMatchBetween(description, 0, p)
    ensures r.None? <==> NoMatchFrom(description, 0)
  {
    FindFromLeftmost(description, 0);
    FindFrom(description, 0)
  }
}
