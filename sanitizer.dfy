/**
 * `sanitize_html_content` and the tag removal it shares with the title
 * clean-up: `re.sub(r'<[^>]+>', '', text)`, then `re.sub(r'\s+', ' ', text)`,
 * then a cut at 380 characters with `...` appended, or `str.strip()` when the
 * text is short enough.
 */
module Sanitizer {
  import opened Text

  /** Length beyond which a summary is cut. */
  const SummaryLimit: nat := 380

  /** Marker appended to a cut summary. */
  const Ellipsis := "..."

  /**
   * The pattern `<[^>]+>` matches at `i`: a `<`, a next character that is not
   * `>`, and some `>` after that (the match runs to the first one).
   */
  predicate TagAt(s: string, i: nat) {
    i + 1 < |s| && s[i] == '<' && s[i + 1] != '>' && '>' in s[i + 2..]
  }

  /** No substring of `s` matches `<[^>]+>`. */
  predicate Tagless(s: string) {
    forall i: nat :: i < |s| ==> !TagAt(s, i)
  }

  /** Where the tag that starts `s` ends: the first `>` after its opening `<`. */
  function TagEnd(s: string): (close: nat)
    requires TagAt(s, 0)
    ensures 2 <= close < |s| && s[close] == '>'
    ensures forall j :: 1 <= j < close ==> s[j] != '>'
  {
    var close := IndexOfAny(s, {'>'}, 2);
    assert close < |s| by {
      var j :| 0 <= j < |s[2..]| && s[2..][j] == '>';
      assert s[2 + j] == '>';
      if close == |s| {
        IndexOfAnyIsFirst(s, {'>'}, 2, 2 + j);
      }
    }
    assert forall j :: 1 <= j < close ==> s[j] != '>' by {
      forall j | 2 <= j < close ensures s[j] != '>' {
        IndexOfAnyIsFirst(s, {'>'}, 2, j);
      }
    }
    close
  }

  /**
   * `re.sub(r'<[^>]+>', '', s)`: scanning left to right, each leftmost match
   * (from a `<` to the first following `>`) is removed and the scan resumes
   * after it; every other character is kept.
   */
  function StripTags(s: string): (r: string)
    ensures |r| <= |s|
    ensures forall c :: c in r ==> c in s
    decreases |s|
  {
    if s == [] then []
    else if TagAt(s, 0) then StripTags(s[TagEnd(s) + 1..])
    else [s[0]] + StripTags(s[1..])
  }

  /** Two whitespace characters start at `i`. */
  predicate DoubleSpaceAt(s: string, i: nat)
    requires i + 1 < |s|
  {
    IsSpace(s[i]) && IsSpace(s[i + 1])
  }

  /** No two whitespace characters are adjacent in `s`. */
  predicate NoDoubleSpace(s: string) {
    forall i: nat :: i + 1 < |s| ==> !DoubleSpaceAt(s, i)
  }

  /** Every whitespace character of `s` is a plain space. */
  predicate PlainSpaces(s: string) {
    forall i :: 0 <= i < |s| && IsSpace(s[i]) ==> s[i] == ' '
  }

  /**
   * `re.sub(r'\s+', ' ', s)`: every maximal run of whitespace becomes one
   * space; the other characters are kept in order.
   */
  function Collapse(s: string): (r: string)
    ensures |r| <= |s|
    ensures r == [] <==> s == []
    ensures r != [] ==> (IsSpace(r[0]) <==> IsSpace(s[0]))
    ensures r != [] && !IsSpace(s[0]) ==> r[0] == s[0]
    ensures forall c :: c in r ==> c == ' ' || c in s
    decreases |s|
  {
    if s == [] then []
    else if IsSpace(s[0]) then
      var rest := TrimStart(s[1..]);
      assert forall c :: c in rest ==> c in s by {
        assert rest == s[1..][|s[1..]| - |rest|..];
      }
      [' '] + Collapse(rest)
    else [s[0]] + Collapse(s[1..])
  }

  /** The markup-stripping part of `sanitize_html_content`: tags, then whitespace. */
  function StripMarkup(s: string): (r: string)
    ensures NoDoubleSpace(r) && PlainSpaces(r)
    ensures Tagless(r)
    ensures NonSpace(r) == NonSpace(StripTags(s))
  {
    var t := StripTags(s);
    CollapseNormalises(t);
    CollapseKeepsNonSpace(t);
    StripTagsTagless(s);
    CollapseKeepsTagless(t);
    Collapse(t)
  }

  /**
   * The final step: the first 380 characters followed by `...` when the text
   * is longer than that, the text with its ends stripped otherwise.
   */
  function Truncate(t: string): (r: string)
    ensures |r| <= SummaryLimit + |Ellipsis|
    ensures |t| > SummaryLimit ==> |r| == SummaryLimit + |Ellipsis| && EndsWith(r, Ellipsis)
                                   && r[..SummaryLimit] == t[..SummaryLimit]
    ensures |t| <= SummaryLimit ==> |r| <= |t| && IsSubstring(r, t)
                                    && (r == [] || (!IsSpace(r[0]) && !IsSpace(r[|r| - 1])))
    ensures |t| <= SummaryLimit ==> r == Strip(t)
    ensures NoDoubleSpace(t) ==> NoDoubleSpace(r)
  {
    if |t| > SummaryLimit then
      CutShape(t, SummaryLimit);
      t[..SummaryLimit] + Ellipsis
    else
      StripShape(t);
      Strip(t)
  }

  /** `sanitize_html_content(text)`; a falsy (empty) text gives the empty string. */
  function Sanitize(text: string): (r: string)
    ensures text == [] ==> r == []
    ensures |r| <= SummaryLimit + |Ellipsis|
    ensures NoDoubleSpace(r)
  {
    if text == [] then [] else Truncate(StripMarkup(text))
  }

  // ---------------------------------------------------------------------
  // Tag removal

  /** A suffix of a tagless text is tagless. */
  lemma TaglessSuffix(s: string, k: nat)
    requires Tagless(s) && k <= |s|
    ensures Tagless(s[k..])
  {
    forall i: nat | i < |s[k..]| ensures !TagAt(s[k..], i) {
      assert !TagAt(s, k + i);
      if i + 1 < |s[k..]| {
        assert s[k..][i + 2..] == s[k + i + 2..];
      }
    }
  }

  /**
   * Putting `c` in front of a tagless text keeps it tagless, unless `c` is a
   * `<` that the text would close: a `>` that is not its first character.
   */
  lemma TaglessCons(c: char, tail: string)
    requires Tagless(tail)
    requires c == '<' && tail != [] ==> tail[0] == '>' || '>' !in tail
    ensures Tagless([c] + tail)
  {
    var r := [c] + tail;
    forall i: nat | i < |r| ensures !TagAt(r, i) {
      if i == 0 && c == '<' && |tail| > 0 && tail[0] != '>' {
        assert tail == [tail[0]] + tail[1..];
      } else if i > 0 {
        assert !TagAt(tail, i - 1);
        if i + 1 < |r| {
          assert r[i + 2..] == tail[i + 1..];
        }
      }
    }
  }

  /** A text that does not start with `<` keeps its first character after tag removal. */
  lemma StripTagsKeepsHead(s: string)
    requires s != [] && s[0] != '<'
    ensures StripTags(s) != [] && StripTags(s)[0] == s[0]
  {
  }

  /** After tag removal no substring matches `<[^>]+>`. */
  lemma {:induction false} StripTagsTagless(s: string)
    ensures Tagless(StripTags(s))
    decreases |s|
  {
    if s == [] {
    } else if TagAt(s, 0) {
      StripTagsTagless(s[TagEnd(s) + 1..]);
    } else {
      var tail := StripTags(s[1..]);
      StripTagsTagless(s[1..]);
      if s[0] == '<' && |s| > 1 {
        // s[0] is a `<` that starts no tag: s[1] is `>` or no `>` follows.
        if s[1] == '>' {
          StripTagsKeepsHead(s[1..]);
        } else {
          assert s[1..] == [s[1]] + s[2..];
        }
      }
      TaglessCons(s[0], tail);
    }
  }

  /** Tag removal leaves a text unchanged exactly when it holds no tag. */
  lemma {:induction false} StripTagsFixpoint(s: string)
    ensures StripTags(s) == s <==> Tagless(s)
    decreases |s|
  {
    if Tagless(s) {
      StripTagsUnchanged(s);
    } else {
      var i: nat :| i < |s| && TagAt(s, i);
      StripTagsShrinks(s, i);
    }
  }

  lemma {:induction false} StripTagsUnchanged(s: string)
    requires Tagless(s)
    ensures StripTags(s) == s
    decreases |s|
  {
    if s != [] {
      assert !TagAt(s, 0);
      TaglessSuffix(s, 1);
      StripTagsUnchanged(s[1..]);
    }
  }

  lemma {:induction false} StripTagsShrinks(s: string, i: nat)
    requires i < |s| && TagAt(s, i)
    ensures |StripTags(s)| < |s|
    decreases |s|
  {
    if !TagAt(s, 0) {
      assert i > 0;
      assert TagAt(s[1..], i - 1) by {
        assert s[1..][i - 1 + 2..] == s[i + 2..];
      }
      StripTagsShrinks(s[1..], i - 1);
    }
  }

  /** Removing tags twice gives the same text as removing them once. */
  lemma StripTagsIdempotent(s: string)
    ensures StripTags(StripTags(s)) == StripTags(s)
  {
    StripTagsTagless(s);
    StripTagsUnchanged(StripTags(s));
  }

  /** `t` is exactly one match of `<[^>]+>`: a `<`, at least one character other than `>`, then `>`. */
  predicate IsTag(t: string) {
    |t| >= 3 && t[0] == '<' && t[|t| - 1] == '>' && '>' !in t[1..|t| - 1]
  }

  /** Text without a `<` is kept as it is, and removal goes on after it. */
  lemma {:induction false} StripTagsKeepsPlain(u: string, w: string)
    requires '<' !in u
    ensures StripTags(u + w) == u + StripTags(w)
    decreases |u|
  {
    if u == [] {
      assert u + w == w;
    } else {
      assert (u + w)[0] == u[0];
      assert (u + w)[1..] == u[1..] + w;
      StripTagsKeepsPlain(u[1..], w);
    }
  }

  /** A whole tag is removed, and removal goes on after it. */
  lemma StripTagsDropsTag(t: string, w: string)
    requires IsTag(t)
    ensures StripTags(t + w) == StripTags(w)
  {
    var s := t + w;
    var last := |t| - 1;
    assert s[1] == t[1] && t[1] in t[1..last];
    assert s[2..][last - 2] == '>';
    assert TagAt(s, 0);
    var close := TagEnd(s);
    assert close == last;
    assert s[close + 1..] == w;
  }

  /** A `<` directly followed by `>` starts no tag: both are kept and removal goes on after them. */
  lemma StripTagsKeepsEmptyPair(w: string)
    ensures StripTags("<>" + w) == "<>" + StripTags(w)
  {
    var s := "<>" + w;
    assert !TagAt(s, 0);
    assert s[1..] == ">" + w;
    assert s[1..][1..] == w;
  }

  /**
   * Tag removal keeps plain text and drops whole tags: a `<`-free prefix
   * survives, a tag right after it disappears, and removal continues on the
   * rest.
   */
  lemma StripTagsPlainThenTag(u: string, t: string, w: string)
    requires '<' !in u && IsTag(t)
    ensures StripTags(u + t + w) == u + StripTags(w)
  {
    assert u + t + w == u + (t + w);
    StripTagsKeepsPlain(u, t + w);
    StripTagsDropsTag(t, w);
  }

  // ---------------------------------------------------------------------
  // Whitespace collapsing

  /** After collapsing, whitespace occurs only as single plain spaces. */
  lemma {:induction false} CollapseNormalises(s: string)
    ensures NoDoubleSpace(Collapse(s)) && PlainSpaces(Collapse(s))
    decreases |s|
  {
    if s != [] {
      var tail := if IsSpace(s[0]) then TrimStart(s[1..]) else s[1..];
      CollapseNormalises(tail);
      var c := Collapse(tail);
      var r := Collapse(s);
      assert r == [if IsSpace(s[0]) then ' ' else s[0]] + c;
      forall i: nat | i + 1 < |r| ensures !DoubleSpaceAt(r, i) {
        if i > 0 {
          assert !DoubleSpaceAt(c, i - 1);
        }
      }
      forall i | 0 <= i < |r| && IsSpace(r[i]) ensures r[i] == ' ' {
        if i > 0 {
          assert r[i] == c[i - 1];
        }
      }
    }
  }

  /** Collapsing whitespace creates no tag. */
  lemma {:induction false} CollapseKeepsTagless(s: string)
    requires Tagless(s)
    ensures Tagless(Collapse(s))
    decreases |s|
  {
    if s == [] {
    } else if IsSpace(s[0]) {
      var rest := TrimStart(s[1..]);
      TaglessSuffix(s, |s| - |rest|);
      assert s[|s| - |rest|..] == rest;
      CollapseKeepsTagless(rest);
      TaglessCons(' ', Collapse(rest));
    } else {
      TaglessSuffix(s, 1);
      CollapseKeepsTagless(s[1..]);
      var tail := Collapse(s[1..]);
      if s[0] == '<' && |s| > 1 && s[1] != '>' {
        assert !TagAt(s, 0);
        assert s[1..] == [s[1]] + s[2..];
        assert '>' !in s[1..];
      }
      TaglessCons(s[0], tail);
    }
  }

  /** A text whose whitespace is already single plain spaces is left unchanged. */
  lemma {:induction false} CollapseUnchanged(s: string)
    requires NoDoubleSpace(s) && PlainSpaces(s)
    ensures Collapse(s) == s
    decreases |s|
  {
    if s != [] {
      if |s| > 1 {
        assert !DoubleSpaceAt(s, 0);
      }
      if IsSpace(s[0]) {
        assert s[0] == ' ';
        assert TrimStart(s[1..]) == s[1..];
      }
      assert NoDoubleSpace(s[1..]) by {
        forall i: nat | i + 1 < |s[1..]| ensures !DoubleSpaceAt(s[1..], i) {
          assert !DoubleSpaceAt(s, i + 1);
        }
      }
      assert PlainSpaces(s[1..]) by {
        forall i | 0 <= i < |s[1..]| && IsSpace(s[1..][i]) ensures s[1..][i] == ' ' {
          assert s[1..][i] == s[i + 1];
        }
      }
      CollapseUnchanged(s[1..]);
    }
  }

  /** The characters of `s` that are not whitespace, in order. */
  function NonSpace(s: string): string
    decreases |s|
  {
    if s == [] then []
    else (if IsSpace(s[0]) then [] else [s[0]]) + NonSpace(s[1..])
  }

  /** `NonSpace` distributes over concatenation. */
  lemma {:induction false} NonSpaceConcat(a: string, b: string)
    ensures NonSpace(a + b) == NonSpace(a) + NonSpace(b)
    decreases |a|
  {
    if a == [] {
      assert a + b == b;
    } else {
      assert (a + b)[0] == a[0];
      assert (a + b)[1..] == a[1..] + b;
      NonSpaceConcat(a[1..], b);
    }
  }

  /** Dropping leading whitespace drops no other character. */
  lemma {:induction false} NonSpaceTrimStart(s: string)
    ensures NonSpace(TrimStart(s)) == NonSpace(s)
    decreases |s|
  {
    if s != [] && IsSpace(s[0]) {
      NonSpaceTrimStart(s[1..]);
    }
  }

  /** Collapsing whitespace keeps every other character, in order. */
  lemma {:induction false} CollapseKeepsNonSpace(s: string)
    ensures NonSpace(Collapse(s)) == NonSpace(s)
    decreases |s|
  {
    if s != [] {
      if IsSpace(s[0]) {
        var rest := TrimStart(s[1..]);
        CollapseKeepsNonSpace(rest);
        NonSpaceConcat([' '], Collapse(rest));
        NonSpaceTrimStart(s[1..]);
      } else {
        CollapseKeepsNonSpace(s[1..]);
        NonSpaceConcat([s[0]], Collapse(s[1..]));
      }
    }
  }

  /** Leading whitespace is dropped only up to a non-space character, and what follows is kept. */
  lemma {:induction false} TrimStartConcat(a: string, b: string)
    requires a != [] && !IsSpace(a[|a| - 1])
    ensures TrimStart(a + b) == TrimStart(a) + b
    decreases |a|
  {
    assert (a + b)[0] == a[0];
    if IsSpace(a[0]) {
      assert (a + b)[1..] == a[1..] + b;
      TrimStartConcat(a[1..], b);
    }
  }

  /** Dropping leading whitespace from a run of whitespace followed by `w` leaves `w`, when `w` does not start with whitespace. */
  lemma {:induction false} TrimStartRun(r: string, w: string)
    requires forall i :: 0 <= i < |r| ==> IsSpace(r[i])
    requires w == [] || !IsSpace(w[0])
    ensures TrimStart(r + w) == w
    decreases |r|
  {
    if r != [] {
      assert (r + w)[0] == r[0];
      assert (r + w)[1..] == r[1..] + w;
      TrimStartRun(r[1..], w);
    } else {
      assert r + w == w;
    }
  }

  /** Dropping the leading whitespace of a text that ends in a non-space character keeps that end. */
  lemma TrimStartKeepsLast(s: string)
    requires s != [] && !IsSpace(s[|s| - 1])
    ensures TrimStart(s) != [] && !IsSpace(TrimStart(s)[|TrimStart(s)| - 1])
  {
    var r := TrimStart(s);
    assert r == s[|s| - |r|..];
  }

  /** How `Collapse` treats the first character of `[c] + x`. */
  lemma CollapseCons(c: char, x: string)
    ensures Collapse([c] + x) == if IsSpace(c) then [' '] + Collapse(TrimStart(x)) else [c] + Collapse(x)
  {
    assert ([c] + x)[1..] == x;
  }

  /** `CollapseCons` for a first character followed by two pieces. */
  lemma CollapseConsAppend(c: char, tail: string, w: string)
    ensures Collapse([c] + tail + w)
         == if IsSpace(c) then [' '] + Collapse(TrimStart(tail + w)) else [c] + Collapse(tail + w)
  {
    assert [c] + tail + w == [c] + (tail + w);
    CollapseCons(c, tail + w);
  }

  /** Prepending one character commutes with concatenation. */
  lemma ConsAssoc(c: char, x: string, y: string)
    ensures [c] + (x + y) == ([c] + x) + y
  {
  }

  /** One step of `CollapseSplit` past a whitespace character, given the split of what follows the run. */
  lemma CollapseSplitSpace(c: char, tail: string, w: string)
    requires IsSpace(c)
    requires tail != [] && !IsSpace(tail[|tail| - 1])
    requires Collapse(TrimStart(tail) + w) == Collapse(TrimStart(tail)) + Collapse(w)
    ensures Collapse([c] + tail + w) == Collapse([c] + tail) + Collapse(w)
  {
    TrimStartConcat(tail, w);
    CollapseConsAppend(c, tail, w);
    CollapseCons(c, tail);
    ConsAssoc(' ', Collapse(TrimStart(tail)), Collapse(w));
  }

  /** One step of `CollapseSplit` past a non-space character, given the split of the rest. */
  lemma CollapseSplitOther(c: char, tail: string, w: string)
    requires !IsSpace(c)
    requires Collapse(tail + w) == Collapse(tail) + Collapse(w)
    ensures Collapse([c] + tail + w) == Collapse([c] + tail) + Collapse(w)
  {
    CollapseConsAppend(c, tail, w);
    CollapseCons(c, tail);
    ConsAssoc(c, Collapse(tail), Collapse(w));
  }

  /**
   * A text that ends in a non-space character collapses independently of
   * what follows it: runs of whitespace are never merged across that point.
   */
  lemma {:induction false} CollapseSplit(u: string, w: string)
    requires u == [] || !IsSpace(u[|u| - 1])
    ensures Collapse(u + w) == Collapse(u) + Collapse(w)
    decreases |u|
  {
    if u == [] {
      assert u + w == w;
    } else {
      var c, tail := u[0], u[1..];
      assert u == [c] + tail;
      if IsSpace(c) {
        TrimStartKeepsLast(tail);
        CollapseSplit(TrimStart(tail), w);
        CollapseSplitSpace(c, tail, w);
      } else {
        CollapseSplit(tail, w);
        CollapseSplitOther(c, tail, w);
      }
    }
  }

  /** A maximal run of whitespace becomes exactly one plain space. */
  lemma CollapseRun(r: string, w: string)
    requires r != [] && forall i :: 0 <= i < |r| ==> IsSpace(r[i])
    requires w == [] || !IsSpace(w[0])
    ensures Collapse(r + w) == [' '] + Collapse(w)
  {
    assert (r + w)[0] == r[0];
    assert (r + w)[1..] == r[1..] + w;
    TrimStartRun(r[1..], w);
  }

  /** Markup stripping is idempotent: a second pass changes nothing. */
  lemma StripMarkupIdempotent(s: string)
    ensures StripMarkup(StripMarkup(s)) == StripMarkup(s)
  {
    var m := StripMarkup(s);
    StripTagsUnchanged(m);
    CollapseUnchanged(m);
  }

  // ---------------------------------------------------------------------
  // The whole sanitiser

  /** A slice of a text without adjacent whitespace has none either. */
  lemma NoDoubleSpaceSlice(t: string, lo: nat, hi: nat)
    requires lo <= hi <= |t| && NoDoubleSpace(t)
    ensures NoDoubleSpace(t[lo..hi])
  {
    forall i: nat | i + 1 < |t[lo..hi]| ensures !DoubleSpaceAt(t[lo..hi], i) {
      assert !DoubleSpaceAt(t, lo + i);
    }
  }

  /**
   * Cutting a text to `n` characters and appending the ellipsis keeps those
   * characters, ends in the ellipsis, and creates no adjacent whitespace.
   */
  lemma CutShape(t: string, n: nat)
    requires n <= |t|
    ensures var r := t[..n] + Ellipsis;
      && |r| == n + |Ellipsis| && EndsWith(r, Ellipsis) && r[..n] == t[..n]
      && (NoDoubleSpace(t) ==> NoDoubleSpace(r))
  {
    var r := t[..n] + Ellipsis;
    assert r[..n] == t[..n];
    assert r[|r| - |Ellipsis|..] == Ellipsis;
    if NoDoubleSpace(t) {
      forall i: nat | i + 1 < |r| ensures !DoubleSpaceAt(r, i) {
        if i + 1 < n {
          assert !DoubleSpaceAt(t, i);
        } else {
          assert r[i + 1] == '.';
        }
      }
    }
  }

  /**
   * Stripping the ends of a text gives one of its substrings, and creates no
   * adjacent whitespace.
   */
  lemma StripShape(t: string)
    ensures var r := Strip(t);
      && |r| <= |t| && IsSubstring(r, t)
      && (NoDoubleSpace(t) ==> NoDoubleSpace(r))
  {
    var r := Strip(t);
    var lead := LeadingSpace(t);
    assert OccursAt(r, t, lead);
    if NoDoubleSpace(t) {
      NoDoubleSpaceSlice(t, lead, lead + |r|);
    }
  }

  /**
   * The two shapes of a non-empty sanitised text: a long markup-free text is
   * cut to exactly 380 characters plus `...`; a short one is returned with
   * its ends stripped and is at most 380 characters long.
   */
  lemma SanitizeShape(text: string)
    requires text != []
    ensures var t := StripMarkup(text);
            var r := Sanitize(text);
            (|t| > SummaryLimit ==> |r| == 383 && r == t[..SummaryLimit] + Ellipsis)
            && (|t| <= SummaryLimit ==> |r| <= SummaryLimit && r == Strip(t))
  {
  }
}
