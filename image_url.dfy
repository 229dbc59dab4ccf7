/**
 * `extract_first_image_url`: three patterns, searched with `re.search` and
 * `re.IGNORECASE` in a fixed order; the first match of each is accepted when
 * its captured URL starts with `http` and is longer than 20 characters.
 *
 * Every pattern has the shape
 *     <opener>[^>]+<attribute>["']([^"']+<tail>)["'][^>]*>
 * where the tail is `\.(jpg|jpeg|png|gif|webp)` for `<img` and empty for the
 * other two. The first match is the leftmost start; at that start the greedy
 * `[^>]+` backtracks from the first `>` leftwards, so the attribute chosen is
 * the LAST position at which the rest of the pattern matches. From the
 * attribute on the match is determined: the captured value runs from the
 * opening quote to the first following quote, and `[^>]*>` needs some `>`
 * after the closing quote.
 */
module ImageUrl {
  import opened Wrappers
  import opened Text

  datatype Pattern = Pattern(opener: string, attribute: string, imageOnly: bool)

  /** `<img[^>]+src=["\']([^"\']+\.(jpg|jpeg|png|gif|webp))["\'][^>]*>` */
  const Img := Pattern("<img", "src=", true)

  /** `<media:content[^>]+url=["\']([^"\']+)["\'][^>]*>` */
  const MediaContent := Pattern("<media:content", "url=", false)

  /** `<enclosure[^>]+url=["\']([^"\']+)["\'][^>]*>` */
  const Enclosure := Pattern("<enclosure", "url=", false)

  /** The patterns in the order they are tried. */
  const Patterns := [Img, MediaContent, Enclosure]

  const Extensions := ["jpg", "jpeg", "png", "gif", "webp"]

  const Quotes := {'"', '\''}

  /** Minimal length a URL must exceed to be accepted. */
  const MinUrlLength := 20

  /** A value that `[^"\']+\.(jpg|jpeg|png|gif|webp)` matches entirely (given it holds no quote). */
  predicate HasImageExtension(v: string) {
    EndsWithAny(v, Extensions)
  }

  /** `v` is at least one character, a dot and `ext`. */
  predicate EndsWithExtension(v: string, ext: string) {
    |v| >= |ext| + 2 && v[|v| - |ext| - 1] == '.' && LiteralAt(v, |v| - |ext|, ext)
  }

  /** `v` ends, as `EndsWithExtension` says, in one of `exts`. */
  predicate EndsWithAny(v: string, exts: seq<string>) {
    exists ext :: ext in exts && EndsWithExtension(v, ext)
  }

  /** `s` contains no quote character. */
  predicate Unquoted(s: string) {
    forall i :: 0 <= i < |s| ==> s[i] !in Quotes
  }

  /** A match of a pattern in a text, by the positions that determine it. */
  datatype Match = Match(start: nat, attribute: nat, close: nat)

  /** Where the captured value begins for an attribute found at `q`. */
  function ValueStart(pat: Pattern, q: nat): nat {
    q + |pat.attribute| + 1
  }

  /**
   * The part of the pattern from the attribute on, tried at `q`: the position
   * of the closing quote when it matches there.
   */
  function CloseAt(s: string, pat: Pattern, q: nat): (e: Option<nat>)
    ensures e.Some? ==> ValueStart(pat, q) < e.value < |s|
  {
    var v := q + |pat.attribute|;
    if LiteralAt(s, q, pat.attribute) && v < |s| && s[v] in Quotes then
      var e := IndexOfAny(s, Quotes, v + 1);
      if e < |s| && v + 1 < e && (!pat.imageOnly || HasImageExtension(s[v + 1..e]))
         && IndexOfAny(s, {'>'}, e + 1) < |s|
      then Some(e)
      else None
    else None
  }

  /**
   * What a match from `q` consists of: the attribute name at `q`, an opening
   * quote after it, a quote at the position found, and a `>` later on.
   */
  lemma CloseAtDelimits(s: string, pat: Pattern, q: nat)
    requires CloseAt(s, pat, q).Some?
    ensures LiteralAt(s, q, pat.attribute) && s[ValueStart(pat, q) - 1] in Quotes
    ensures s[CloseAt(s, pat, q).value] in Quotes && '>' in s[CloseAt(s, pat, q).value + 1..]
  {
    var e := CloseAt(s, pat, q).value;
    var g := IndexOfAny(s, {'>'}, e + 1);
    assert s[e + 1..][g - e - 1] == '>';
  }

  /**
   * The converse of `CloseAtDelimits`: the rest of the pattern matches from
   * `q` whenever the attribute name is there, a quote of either kind follows
   * it, then a non-empty quote-free value (with an image extension for
   * `<img`), a quote of either kind, and some later `>`.
   */
  lemma CloseAtComplete(s: string, pat: Pattern, q: nat, e: nat)
    requires LiteralAt(s, q, pat.attribute)
    requires ValueStart(pat, q) < e < |s|
    requires s[ValueStart(pat, q) - 1] in Quotes && s[e] in Quotes
    requires Unquoted(s[ValueStart(pat, q)..e])
    requires !pat.imageOnly || HasImageExtension(s[ValueStart(pat, q)..e])
    requires '>' in s[e + 1..]
    ensures CloseAt(s, pat, q) == Some(e)
  {
    var start := ValueStart(pat, q);
    ClosingQuoteFound(s, start, e);
    ClosingBracketFound(s, e);
  }

  /** The first quote from `start` is at `e` when `s[start..e]` holds none and `s[e]` is one. */
  lemma ClosingQuoteFound(s: string, start: nat, e: nat)
    requires start <= e < |s| && s[e] in Quotes
    requires Unquoted(s[start..e])
    ensures IndexOfAny(s, Quotes, start) == e
  {
    var value := s[start..e];
    forall i | start <= i < e ensures s[i] !in Quotes {
      assert value[i - start] == s[i];
    }
    IndexOfAnyFinds(s, Quotes, start, e);
  }

  /** Some `>` follows `e`, so the search for one from `e + 1` succeeds. */
  lemma ClosingBracketFound(s: string, e: nat)
    requires e < |s| && '>' in s[e + 1..]
    ensures IndexOfAny(s, {'>'}, e + 1) < |s|
  {
    var j :| 0 <= j < |s[e + 1..]| && s[e + 1..][j] == '>';
    if IndexOfAny(s, {'>'}, e + 1) == |s| {
      IndexOfAnyIsFirst(s, {'>'}, e + 1, e + 1 + j);
    }
  }

  /**
   * The captured value found from `q` is non-empty and holds no quote; for
   * `<img` it ends in an image extension.
   */
  lemma CapturedShape(s: string, pat: Pattern, q: nat)
    requires CloseAt(s, pat, q).Some?
    ensures var v := s[ValueStart(pat, q)..CloseAt(s, pat, q).value];
            v != [] && Unquoted(v) && (pat.imageOnly ==> HasImageExtension(v))
  {
    var start := ValueStart(pat, q);
    var v := s[start..CloseAt(s, pat, q).value];
    forall i | 0 <= i < |v| ensures v[i] !in Quotes {
      IndexOfAnyIsFirst(s, Quotes, start, start + i);
    }
  }

  /** The whole pattern matches starting at `p` with its attribute at `q`. */
  predicate MatchesAt(s: string, pat: Pattern, p: nat, q: nat) {
    var a := p + |pat.opener|;
    LiteralAt(s, p, pat.opener) && a < q <= |s| && '>' !in s[a..q] && CloseAt(s, pat, q).Some?
  }

  /**
   * `m` is the match `re.search` reports: it matches, no match starts
   * earlier, and at its start no later attribute position matches.
   */
  ghost predicate IsFirstMatch(s: string, pat: Pattern, m: Match) {
    MatchesAt(s, pat, m.start, m.attribute)
    && CloseAt(s, pat, m.attribute) == Some(m.close)
    && (forall q: nat :: m.attribute < q ==> !MatchesAt(s, pat, m.start, q))
    && (forall p: nat, q: nat :: p < m.start ==> !MatchesAt(s, pat, p, q))
  }

  /** The greedy backtracking over attribute positions `hi`, `hi - 1`, ..., `lo`. */
  function LastCloseFrom(s: string, pat: Pattern, lo: nat, hi: nat): (r: Option<(nat, nat)>)
    ensures r.Some? ==> lo <= r.value.0 <= hi && CloseAt(s, pat, r.value.0) == Some(r.value.1)
                        && forall q :: r.value.0 < q <= hi ==> CloseAt(s, pat, q).None?
    ensures r.None? ==> forall q :: lo <= q <= hi ==> CloseAt(s, pat, q).None?
    decreases hi
  {
    if hi < lo then None
    else match CloseAt(s, pat, hi)
      case Some(e) => Some((hi, e))
      case None => if hi == lo then None else LastCloseFrom(s, pat, lo, hi - 1)
  }

  /** The match starting at `p`, if the pattern matches there. */
  function MatchFrom(s: string, pat: Pattern, p: nat): (r: Option<Match>)
    ensures r.Some? ==> r.value.start == p
  {
    if LiteralAt(s, p, pat.opener) then
      var a := p + |pat.opener|;
      match LastCloseFrom(s, pat, a + 1, IndexOfAny(s, {'>'}, a))
      case Some((q, e)) => Some(Match(p, q, e))
      case None => None
    else None
  }

  /**
   * The match found at `p` is the one the regular-expression engine takes:
   * the last attribute position at which the pattern matches from `p`.
   */
  lemma MatchFromCorrect(s: string, pat: Pattern, p: nat)
    ensures var r := MatchFrom(s, pat, p);
            (r.Some? ==> MatchesAt(s, pat, p, r.value.attribute)
                         && CloseAt(s, pat, r.value.attribute) == Some(r.value.close)
                         && forall q: nat :: r.value.attribute < q ==> !MatchesAt(s, pat, p, q))
            && (r.None? ==> forall q: nat :: !MatchesAt(s, pat, p, q))
  {
    if LiteralAt(s, p, pat.opener) {
      var a := p + |pat.opener|;
      var g := IndexOfAny(s, {'>'}, a);
      // `[^>]+` can reach exactly the positions up to the first `>`.
      forall q: nat | a <= q <= |s| ensures '>' !in s[a..q] <==> q <= g {
        if q <= g {
          forall j | 0 <= j < |s[a..q]| ensures s[a..q][j] != '>' {
            IndexOfAnyIsFirst(s, {'>'}, a, a + j);
          }
        } else {
          assert s[a..q][g - a] == '>';
        }
      }
    }
  }

  /** `re.search`: the leftmost start at or after `p` where the pattern matches. */
  function SearchFrom(s: string, pat: Pattern, p: nat): (r: Option<Match>)
    requires p <= |s|
    ensures r.Some? ==> p <= r.value.start <= |s| && MatchFrom(s, pat, r.value.start) == r
    ensures r.None? ==> forall p': nat :: p <= p' <= |s| ==> MatchFrom(s, pat, p').None?
    decreases |s| - p
  {
    match MatchFrom(s, pat, p)
    case Some(m) => Some(m)
    case None =>
      if p == |s| then None
      else SearchFrom(s, pat, p + 1)
  }

  /** No match starts before the one the search reports. */
  lemma {:induction false} SearchFromLeftmost(s: string, pat: Pattern, p: nat, p': nat)
    requires p <= p' <= |s|
    requires SearchFrom(s, pat, p).Some? && p' < SearchFrom(s, pat, p).value.start
    ensures MatchFrom(s, pat, p').None?
    decreases |s| - p
  {
    if MatchFrom(s, pat, p).None? && p < p' {
      assert SearchFrom(s, pat, p) == SearchFrom(s, pat, p + 1);
      SearchFromLeftmost(s, pat, p + 1, p');
    }
  }

  /** The value captured by group 1 of a match. */
  function Captured(s: string, pat: Pattern, m: Match): string
    requires ValueStart(pat, m.attribute) < m.close <= |s|
  {
    s[ValueStart(pat, m.attribute)..m.close]
  }

  /**
   * `re.search(pattern, s, re.IGNORECASE).group(1)`, or None when there is no
   * match: a non-empty substring of `s` without quotes, ending in an image
   * extension for the `<img` pattern.
   */
  function FirstMatch(s: string, pat: Pattern): (r: Option<string>)
    ensures r.Some? <==> exists p: nat, q: nat :: MatchesAt(s, pat, p, q)
    ensures r.Some? ==> exists m :: IsFirstMatch(s, pat, m) && r.value == Captured(s, pat, m)
    ensures r.Some? ==> r.value != [] && Unquoted(r.value) && IsSubstring(r.value, s)
    ensures r.Some? && pat.imageOnly ==> HasImageExtension(r.value)
  {
    match SearchFrom(s, pat, 0)
    case None =>
      assert forall p: nat, q: nat :: !MatchesAt(s, pat, p, q) by {
        forall p: nat, q: nat ensures !MatchesAt(s, pat, p, q) {
          if p <= |s| {
            MatchFromCorrect(s, pat, p);
          }
        }
      }
      None
    case Some(m) =>
      assert forall p: nat, q: nat :: p < m.start ==> !MatchesAt(s, pat, p, q) by {
        forall p: nat, q: nat | p < m.start ensures !MatchesAt(s, pat, p, q) {
          SearchFromLeftmost(s, pat, 0, p);
          MatchFromCorrect(s, pat, p);
        }
      }
      var v := ValueStart(pat, m.attribute);
      var u := s[v..m.close];
      CapturedShape(s, pat, m.attribute);
      MatchFromCorrect(s, pat, m.start);
      assert IsFirstMatch(s, pat, m);
      assert MatchesAt(s, pat, m.start, m.attribute);
      assert OccursAt(u, s, v);
      Some(u)
  }

  /** The guard on a candidate URL: it starts with `http` and has more than 20 characters. */
  predicate Acceptable(url: string) {
    StartsWith(url, "http") && |url| > MinUrlLength
  }

  /** A first match that passes the guard. */
  predicate Accepted(m: Option<string>) {
    m.Some? && Acceptable(m.value)
  }

  /**
   * The loop over the patterns, given the first match of each in order: the
   * first that passes the guard.
   */
  function FirstPassing(candidates: seq<Option<string>>): (r: Option<string>)
    ensures r.Some? ==> Acceptable(r.value) && r in candidates
  {
    if candidates == [] then None
    else if Accepted(candidates[0]) then candidates[0]
    else FirstPassing(candidates[1..])
  }

  /** The first match of each pattern, in the order they are tried. */
  function Candidates(html: string): (c: seq<Option<string>>)
    ensures |c| == |Patterns|
    ensures forall i :: 0 <= i < |Patterns| ==> c[i] == FirstMatch(html, Patterns[i])
  {
    [FirstMatch(html, Img), FirstMatch(html, MediaContent), FirstMatch(html, Enclosure)]
  }

  /**
   * `extract_first_image_url(html_content)`; a falsy (empty) argument gives
   * None, and a URL returned passes the guard and is an unquoted substring of
   * the argument.
   */
  function ExtractFirstImageUrl(html: string): (r: Option<string>)
    ensures html == [] ==> r == None
    ensures r.Some? ==> Acceptable(r.value) && Unquoted(r.value) && IsSubstring(r.value, html)
  {
    if html == [] then None
    else
      var c := Candidates(html);
      var r := FirstPassing(c);
      assert r.Some? ==> Unquoted(r.value) && IsSubstring(r.value, html) by {
        if r.Some? {
          var i :| 0 <= i < |c| && c[i] == r;
        }
      }
      r
  }

  // ---------------------------------------------------------------------
  // Properties of the selection

  /**
   * The ordered selection, both directions: the result is `u` exactly when
   * some candidate is `u` and passes the guard, and every earlier candidate
   * fails it (or is absent).
   */
  lemma {:induction false} FirstPassingIsFirst(candidates: seq<Option<string>>, u: string)
    ensures FirstPassing(candidates) == Some(u) <==>
            exists i :: 0 <= i < |candidates| && candidates[i] == Some(u) && Acceptable(u)
                        && forall j :: 0 <= j < i ==> !Accepted(candidates[j])
  {
    if candidates != [] {
      var tail := candidates[1..];
      FirstPassingIsFirst(tail, u);
      if FirstPassing(candidates) == Some(u) && !Accepted(candidates[0]) {
        var i :| 0 <= i < |tail| && tail[i] == Some(u) && Acceptable(u)
                 && forall j :: 0 <= j < i ==> !Accepted(tail[j]);
        assert candidates[i + 1] == tail[i];
        assert forall j :: 0 <= j < i + 1 ==> !Accepted(candidates[j]) by {
          forall j | 0 <= j < i + 1 ensures !Accepted(candidates[j]) {
            if j > 0 {
              assert candidates[j] == tail[j - 1];
            }
          }
        }
      }
      if exists i :: 0 <= i < |candidates| && candidates[i] == Some(u) && Acceptable(u)
                     && forall j :: 0 <= j < i ==> !Accepted(candidates[j]) {
        var i :| 0 <= i < |candidates| && candidates[i] == Some(u) && Acceptable(u)
                 && forall j :: 0 <= j < i ==> !Accepted(candidates[j]);
        if i > 0 {
          assert !Accepted(candidates[0]);
          assert tail[i - 1] == candidates[i];
          assert forall j :: 0 <= j < i - 1 ==> !Accepted(tail[j]) by {
            forall j | 0 <= j < i - 1 ensures !Accepted(tail[j]) {
              assert tail[j] == candidates[j + 1];
            }
          }
        }
      }
    }
  }

  /** Nothing is returned exactly when no candidate passes the guard. */
  lemma {:induction false} FirstPassingNone(candidates: seq<Option<string>>)
    ensures FirstPassing(candidates) == None <==>
            forall i :: 0 <= i < |candidates| ==> !Accepted(candidates[i])
  {
    if candidates != [] {
      FirstPassingNone(candidates[1..]);
      assert forall i :: 1 <= i < |candidates| ==> candidates[i] == candidates[1..][i - 1];
    }
  }

  /**
   * Only the first `<img` match is examined: when it fails the guard, the
   * result is decided by the other two patterns alone, whatever later `<img`
   * tags the text holds.
   */
  lemma ImgFailureFallsThrough(html: string)
    requires html != [] && !Accepted(FirstMatch(html, Img))
    ensures ExtractFirstImageUrl(html)
            == FirstPassing([FirstMatch(html, MediaContent), FirstMatch(html, Enclosure)])
  {
    assert Candidates(html)[1..] == [FirstMatch(html, MediaContent), FirstMatch(html, Enclosure)];
  }

  /** When the first `<img` match passes the guard it is the result, and it ends in an image extension. */
  lemma ImgResultHasExtension(html: string)
    requires Accepted(FirstMatch(html, Img))
    ensures ExtractFirstImageUrl(html) == FirstMatch(html, Img)
    ensures HasImageExtension(ExtractFirstImageUrl(html).value)
  {
  }

  /** A returned URL is the first match of one of the three patterns. */
  lemma ExtractComesFromPattern(html: string)
    requires ExtractFirstImageUrl(html).Some?
    ensures ExtractFirstImageUrl(html) in {FirstMatch(html, Img), FirstMatch(html, MediaContent),
                                           FirstMatch(html, Enclosure)}
  {
  }
}
