/**
 * Strings as the Rust code sees them: sequences of UTF-8 bytes, and the
 * handful of `str` operations the scrapers rely on (`starts_with`,
 * `ends_with`, `contains`, `replace`, `trim`, `trim_start_matches`).
 */
module Text {

  newtype byte = x: int | 0 <= x < 256

  type Bytes = seq<byte>

  /** The bytes of a string literal made of ASCII characters only. */
  function Ascii(s: string): (r: Bytes)
    requires forall i | 0 <= i < |s| :: s[i] as int < 128
  {
    seq(|s|, i requires 0 <= i < |s| => s[i] as int as byte)
  }

  const QUOTE: byte := 0x22

  /** `char::is_whitespace` on the ASCII range: tab, line feed, vertical tab, form feed, carriage return, space. */
  predicate IsWhitespace(b: byte)
  {
    b == 0x20 || 0x09 <= b <= 0x0D
  }

  predicate AllWhitespace(s: Bytes)
  {
    forall i | 0 <= i < |s| :: IsWhitespace(s[i])
  }

  /** Neither the first nor the last byte is whitespace. */
  predicate IsTrimmed(s: Bytes)
  {
    s == [] || (!IsWhitespace(s[0]) && !IsWhitespace(s[|s| - 1]))
  }

  predicate StartsWith(s: Bytes, prefix: Bytes)
  {
    |prefix| <= |s| && s[..|prefix|] == prefix
  }

  predicate EndsWith(s: Bytes, suffix: Bytes)
  {
    |suffix| <= |s| && s[|s| - |suffix|..] == suffix
  }

  predicate OccursAt(s: Bytes, pat: Bytes, i: int)
  {
    0 <= i && i + |pat| <= |s| && s[i..i + |pat|] == pat
  }

  predicate Contains(s: Bytes, pat: Bytes)
  {
    exists i | 0 <= i <= |s| - |pat| :: OccursAt(s, pat, i)
  }

  /** No byte of `a` occurs anywhere in `b`. */
  predicate Disjoint(a: Bytes, b: Bytes)
  {
    forall i | 0 <= i < |a| :: a[i] !in b
  }

  // ---------------------------------------------------------------------
  // trim

  function TrimStart(s: Bytes): (r: Bytes)
    ensures |r| <= |s| && r == s[|s| - |r|..]
    ensures AllWhitespace(s[..|s| - |r|])
    ensures r == [] || !IsWhitespace(r[0])
    decreases |s|
  {
    if |s| > 0 && IsWhitespace(s[0]) then TrimStart(s[1..]) else s
  }

  function TrimEnd(s: Bytes): (r: Bytes)
    ensures |r| <= |s| && r == s[..|r|]
    ensures AllWhitespace(s[|r|..])
    ensures r == [] || !IsWhitespace(r[|r| - 1])
    decreases |s|
  {
    if |s| > 0 && IsWhitespace(s[|s| - 1]) then TrimEnd(s[..|s| - 1]) else s
  }

  /** `r` is the slice of `s` starting at `i`, and everything around it in `s` is whitespace. */
  predicate TrimmedAt(s: Bytes, r: Bytes, i: int)
  {
    0 <= i <= i + |r| <= |s| && s[i..i + |r|] == r
    && AllWhitespace(s[..i]) && AllWhitespace(s[i + |r|..])
  }

  /**
   * `str::trim`: the middle slice of `s` left once the surrounding
   * whitespace is removed on both sides.
   */
  function Trim(s: Bytes): (r: Bytes)
    ensures IsTrimmed(r)
    ensures exists i :: TrimmedAt(s, r, i)
  {
    var t := TrimStart(s);
    var r := TrimEnd(t);
    TrimParts(s, t, r);
    r
  }

  /** Whitespace cut from the front and then from the back leaves a middle slice. */
  lemma TrimParts(s: Bytes, t: Bytes, r: Bytes)
    requires |t| <= |s| && t == s[|s| - |t|..] && AllWhitespace(s[..|s| - |t|])
    requires |r| <= |t| && r == t[..|r|] && AllWhitespace(t[|r|..])
    ensures TrimmedAt(s, r, |s| - |t|)
  {
    assert s[|s| - |t|..][..|r|] == s[|s| - |t|..|s| - |t| + |r|];
    assert s[|s| - |t| + |r|..] == t[|r|..];
  }

  lemma {:induction false} TrimOfTrimmed(s: Bytes)
    requires IsTrimmed(s)
    ensures Trim(s) == s
  {
    var i :| TrimmedAt(s, Trim(s), i);
  }

  lemma {:induction false} TrimStartSkips(lead: Bytes, x: Bytes)
    requires AllWhitespace(lead) && (x == [] || !IsWhitespace(x[0]))
    ensures TrimStart(lead + x) == x
    decreases |lead|
  {
    if lead != [] {
      assert (lead + x)[1..] == lead[1..] + x;
      TrimStartSkips(lead[1..], x);
    }
  }

  lemma {:induction false} TrimEndSkips(x: Bytes, trail: Bytes)
    requires AllWhitespace(trail) && (x == [] || !IsWhitespace(x[|x| - 1]))
    ensures TrimEnd(x + trail) == x
    decreases |trail|
  {
    if trail != [] {
      assert (x + trail)[..|x + trail| - 1] == x + trail[..|trail| - 1];
      TrimEndSkips(x, trail[..|trail| - 1]);
    }
  }

  /** Trimming removes exactly the whitespace around a trimmed non-empty text. */
  lemma TrimSurrounded(lead: Bytes, mid: Bytes, trail: Bytes)
    requires AllWhitespace(lead) && AllWhitespace(trail) && mid != [] && IsTrimmed(mid)
    ensures Trim(lead + mid + trail) == mid
  {
    assert lead + mid + trail == lead + (mid + trail);
    TrimStartSkips(lead, mid + trail);
    TrimEndSkips(mid, trail);
  }

  // ---------------------------------------------------------------------
  // replace

  /**
   * `str::replace`: every non-overlapping occurrence of `pat`, found
   * left to right, is replaced by `rep`.
   */
  function ReplaceAll(s: Bytes, pat: Bytes, rep: Bytes): (r: Bytes)
    requires |pat| > 0
    ensures |s| < |pat| ==> r == s
    ensures |rep| == |pat| ==> |r| == |s|
    decreases |s|
  {
    if |s| < |pat| then s
    else if s[..|pat|] == pat then rep + ReplaceAll(s[|pat|..], pat, rep)
    else [s[0]] + ReplaceAll(s[1..], pat, rep)
  }

  /** One step of `replace` where the pattern does not start the text. */
  lemma ReplaceAllMiss(s: Bytes, pat: Bytes, rep: Bytes)
    requires |pat| > 0 && |s| >= |pat| && s[..|pat|] != pat
    ensures ReplaceAll(s, pat, rep) == [s[0]] + ReplaceAll(s[1..], pat, rep)
  {
  }

  /** One step of `replace` where the pattern starts the text. */
  lemma ReplaceAllHit(s: Bytes, pat: Bytes, rep: Bytes)
    requires |pat| > 0 && |s| >= |pat| && s[..|pat|] == pat
    ensures ReplaceAll(s, pat, rep) == rep + ReplaceAll(s[|pat|..], pat, rep)
  {
  }

  /** Text without the pattern passes through `replace` unchanged. */
  lemma {:induction false} ReplaceAllIdentity(s: Bytes, pat: Bytes, rep: Bytes)
    requires |pat| > 0 && !Contains(s, pat)
    ensures ReplaceAll(s, pat, rep) == s
    decreases |s|
  {
    if |s| >= |pat| {
      assert !OccursAt(s, pat, 0);
      assert !Contains(s[1..], pat) by {
        forall i | 0 <= i <= |s[1..]| - |pat| ensures !OccursAt(s[1..], pat, i) {
          assert !OccursAt(s, pat, i + 1);
          assert s[1..][i..i + |pat|] == s[i + 1..i + 1 + |pat|];
        }
      }
      ReplaceAllIdentity(s[1..], pat, rep);
    }
  }

  /** A prefix that cannot start an occurrence passes through `replace` unchanged. */
  lemma {:induction false} ReplaceAllSkips(a: Bytes, s: Bytes, pat: Bytes, rep: Bytes)
    requires |pat| > 0 && pat[0] !in a
    ensures ReplaceAll(a + s, pat, rep) == a + ReplaceAll(s, pat, rep)
    decreases |a|
  {
    if a == [] {
      assert a + s == s;
    } else {
      var whole := a + s;
      assert whole[1..] == a[1..] + s;
      assert pat[0] !in a[1..];
      ReplaceAllSkips(a[1..], s, pat, rep);
      assert a == [a[0]] + a[1..];
      if |whole| >= |pat| {
        assert whole[..|pat|][0] != pat[0];
        ReplaceAllMiss(whole, pat, rep);
      } else {
        assert ReplaceAll(s, pat, rep) == s;
      }
    }
  }

  /**
   * When the replacement is non-empty and shares no byte with the
   * pattern, a byte-only prefix of the output already stood in the input.
   */
  lemma {:induction false} ReplaceAllPrefix(t: Bytes, pat: Bytes, rep: Bytes, w: Bytes)
    requires |pat| > 0 && |rep| > 0 && Disjoint(w, rep)
    requires StartsWith(ReplaceAll(t, pat, rep), w)
    ensures StartsWith(t, w)
    decreases |t|
  {
    if |t| < |pat| || |w| == 0 {
    } else if t[..|pat|] == pat {
      // the output starts with `rep[0]`, which `w` cannot start with
    } else {
      var rest := ReplaceAll(t[1..], pat, rep);
      assert ReplaceAll(t, pat, rep) == [t[0]] + rest;
      assert StartsWith(rest, w[1..]) by {
        assert rest[..|w| - 1] == ReplaceAll(t, pat, rep)[1..|w|];
      }
      assert Disjoint(w[1..], rep) by {
        forall i | 0 <= i < |w[1..]| ensures w[1..][i] !in rep {
          assert w[1..][i] == w[i + 1];
        }
      }
      ReplaceAllPrefix(t[1..], pat, rep, w[1..]);
      assert t[..|w|] == [t[0]] + t[1..][..|w| - 1];
      assert w == [w[0]] + w[1..];
    }
  }

  /**
   * Replacing a pattern by a non-empty text that shares no byte with it
   * leaves no occurrence of the pattern behind.
   */
  lemma {:induction false} ReplaceAllRemovesPattern(s: Bytes, pat: Bytes, rep: Bytes)
    requires |pat| > 0 && |rep| > 0 && Disjoint(rep, pat)
    ensures !Contains(ReplaceAll(s, pat, rep), pat)
    decreases |s|
  {
    if |s| < |pat| {
    } else if s[..|pat|] == pat {
      ReplaceAllHit(s, pat, rep);
      ReplaceAllRemovesPattern(s[|pat|..], pat, rep);
      NoOccurrenceAfterRep(rep, ReplaceAll(s[|pat|..], pat, rep), pat);
    } else {
      ReplaceAllMiss(s, pat, rep);
      var rest := ReplaceAll(s[1..], pat, rep);
      ReplaceAllRemovesPattern(s[1..], pat, rep);
      PatternRebuilt(s, pat, rep);
      NoOccurrenceAfterByte(s[0], rest, pat);
    }
  }

  /** The output can continue an occurrence started by the first byte only if the input did. */
  lemma PatternRebuilt(s: Bytes, pat: Bytes, rep: Bytes)
    requires |pat| > 0 && |rep| > 0 && Disjoint(rep, pat) && |s| >= |pat|
    ensures s[0] == pat[0] && StartsWith(ReplaceAll(s[1..], pat, rep), pat[1..]) ==> s[..|pat|] == pat
  {
    if s[0] == pat[0] && StartsWith(ReplaceAll(s[1..], pat, rep), pat[1..]) {
      assert Disjoint(pat[1..], rep) by {
        forall k | 0 <= k < |pat[1..]| ensures pat[1..][k] !in rep {
          assert pat[1..][k] == pat[k + 1];
        }
      }
      ReplaceAllPrefix(s[1..], pat, rep, pat[1..]);
      assert s[..|pat|] == [s[0]] + s[1..][..|pat| - 1];
      assert pat == [pat[0]] + pat[1..];
    }
  }

  /** A text free of `pat` stays free of it behind a non-empty prefix sharing no byte with `pat`. */
  lemma NoOccurrenceAfterRep(rep: Bytes, rest: Bytes, pat: Bytes)
    requires |pat| > 0 && |rep| > 0 && Disjoint(rep, pat) && !Contains(rest, pat)
    ensures !Contains(rep + rest, pat)
  {
    var r := rep + rest;
    forall i | 0 <= i <= |r| - |pat| ensures !OccursAt(r, pat, i) {
      if i < |rep| {
        assert r[i] == rep[i] && rep[i] !in pat;
      } else {
        assert r[i..i + |pat|] == rest[i - |rep|..i - |rep| + |pat|];
        assert !OccursAt(rest, pat, i - |rep|);
      }
    }
  }

  /** A text free of `pat` stays free of it behind one byte, unless that byte and the text start `pat`. */
  lemma NoOccurrenceAfterByte(c: byte, rest: Bytes, pat: Bytes)
    requires |pat| > 0 && !Contains(rest, pat)
    requires c == pat[0] ==> !StartsWith(rest, pat[1..])
    ensures !Contains([c] + rest, pat)
  {
    var r := [c] + rest;
    forall i | 0 <= i <= |r| - |pat| ensures !OccursAt(r, pat, i) {
      if i == 0 {
        assert r[..|pat|] == [c] + rest[..|pat| - 1];
        assert pat == [pat[0]] + pat[1..];
      } else {
        assert r[i..i + |pat|] == rest[i - 1..i - 1 + |pat|];
        assert !OccursAt(rest, pat, i - 1);
      }
    }
  }

  // ---------------------------------------------------------------------
  // pattern-free text

  lemma SliceKeepsAbsence(s: Bytes, pat: Bytes, i: nat, j: nat)
    requires i <= j <= |s| && !Contains(s, pat)
    ensures !Contains(s[i..j], pat)
  {
    forall k | 0 <= k <= |s[i..j]| - |pat| ensures !OccursAt(s[i..j], pat, k) {
      assert !OccursAt(s, pat, i + k);
      var u, v := s[i..j][k..k + |pat|], s[i + k..i + k + |pat|];
      forall m | 0 <= m < |pat| ensures u[m] == v[m] {
      }
      assert u == v;
    }
  }

  lemma TrimKeepsAbsence(s: Bytes, pat: Bytes)
    requires !Contains(s, pat)
    ensures !Contains(Trim(s), pat)
  {
    var i :| TrimmedAt(s, Trim(s), i);
    SliceKeepsAbsence(s, pat, i, i + |Trim(s)|);
  }

  /** Appending bytes that the pattern does not use cannot create an occurrence. */
  lemma AppendKeepsAbsence(a: Bytes, b: Bytes, pat: Bytes)
    requires |pat| > 0 && !Contains(a, pat) && Disjoint(b, pat)
    ensures !Contains(a + b, pat)
  {
    forall k | 0 <= k <= |a + b| - |pat| ensures !OccursAt(a + b, pat, k) {
      if k + |pat| <= |a| {
        assert (a + b)[k..k + |pat|] == a[k..k + |pat|];
        assert !OccursAt(a, pat, k);
      } else {
        assert (a + b)[k + |pat| - 1] == b[k + |pat| - 1 - |a|];
        assert (a + b)[k..k + |pat|][|pat| - 1] == (a + b)[k + |pat| - 1];
        assert b[k + |pat| - 1 - |a|] !in pat;
      }
    }
  }

  // ---------------------------------------------------------------------
  // trim_start_matches

  /** `p` is zero or more copies of `pat` back to back. */
  ghost predicate Repeats(p: Bytes, pat: Bytes)
    requires |pat| > 0
    decreases |p|
  {
    p == [] || (StartsWith(p, pat) && Repeats(p[|pat|..], pat))
  }

  /** `str::trim_start_matches`: removes the pattern from the front as often as it occurs there. */
  function TrimStartMatches(s: Bytes, pat: Bytes): (r: Bytes)
    requires |pat| > 0
    ensures |r| <= |s| && r == s[|s| - |r|..]
    ensures Repeats(s[..|s| - |r|], pat)
    ensures !StartsWith(r, pat)
    decreases |s|
  {
    if StartsWith(s, pat) then
      var r := TrimStartMatches(s[|pat|..], pat);
      assert s[..|s| - |r|][|pat|..] == s[|pat|..][..|s| - |pat| - |r|];
      r
    else
      s
  }
}
