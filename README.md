# IIRS Space Digest — verified model of the digest core

The IIRS Space Digest script fetches a fixed list of space-agency RSS feeds,
takes the first three entries of each, and turns every entry into a record:
- the title with its markup removed;
- the link;
- a short source name built from the feed title;
- a sanitised summary;
- the first plausible image URL found in the raw summary.

The records are then rendered into an HTML newsletter. This project models
the decision logic of that script in Dafny and proves what it guarantees.
The model has five modules:

- `Wrappers`: the `Option` type.
- `Text`: the character-level Python semantics the script relies on:
  - `\s` and `str.isspace()`;
  - the letter equivalences of `re.IGNORECASE`;
  - `str.lstrip` / `str.rstrip` / `str.strip`;
  - slicing `s[:n]`;
  - a left-to-right character search.
- `Sanitizer`: `sanitize_html_content` and the tag removal it shares with the
  title clean-up. The three steps are:
  - `re.sub(r'<[^>]+>', '', …)`, leftmost and non-overlapping;
  - `re.sub(r'\s+', ' ', …)`;
  - a cut at 380 characters with `...` appended, or `str.strip()` when the
    text is short enough.
- `ImageUrl`: `extract_first_image_url`.
  - Each of the three patterns is matched by a hand-written scanner with the
    semantics of `re.search` with `re.IGNORECASE`. The match starts at the
    leftmost position. At that start, the greedy `[^>]+` backtracks from the
    first `>`, so the last attribute position at which the rest matches is
    taken.
  - The ordered selection with the `http` / length guard is modelled
    exactly.
- `Digest`: the records, the per-feed and per-entry failure behaviour, and
  the digest-building loop.
  - The loop is an imperative method, `BuildDigest`.
  - Its inner loop over one feed's first three entries is a second method,
    `AppendEntries`. It receives the record builder as a function value.
  - Both are proved equal to a functional specification, `DigestOf`. The
    specification's properties are proved as lemmas.

Fetching and parsing a feed happens outside the model. `BuildDigest` receives,
for each configured URL in order, the parsed feed: its optional title and its
entries. It can also receive `Raised`, meaning `feedparser.parse` or the
feed's header raised. An entry lacking `title` or `link` raises
`AttributeError` when its record is built. This ends the handling of its feed,
but the records already appended stay. The model represents those fields as
`Option`s.

Where the code and the documented intent of the system differ, the model
follows the code:
- The URL guard is `startswith('http')`, which is case-sensitive. It accepts
  any text beginning with `http`, not only an `http(s)` scheme.
- `\s+` replaces every whitespace run, even a single tab or newline, with a
  space. Line breaks are not preserved, although the docstring of
  `sanitize_html_content` says they are.
- Only the first match of each image pattern is examined. A later match of the
  same pattern is never considered.
- The long branch of the cut is not stripped. It can start with a space.

## Model

| member | source | states |
|---|---|---|
| Text.FoldCase | iirs_space_digest_git.py:46 | case folding under `re.IGNORECASE` maps each capital `A`–`Z` to the letter 32 code points higher; every other character except the two non-ASCII capitals that fold onto `i` and `k` is unchanged; whatever changes becomes a lower-case ASCII letter |
| Text.Prefix | iirs_space_digest_git.py:67 | `s[:n]` has at most `n` elements, is the first `n` when there are that many and the whole sequence otherwise, and is a prefix of `s` |
| Text.TrimStart | iirs_space_digest_git.py:59 | `lstrip` returns a suffix, everything it drops is whitespace, and the rest does not start with whitespace |
| Text.TrimEnd | iirs_space_digest_git.py:59 | `rstrip` returns a prefix, everything it drops is whitespace, and the rest does not end with whitespace |
| Text.Strip | iirs_space_digest_git.py:59 | `strip` returns the slice starting after the leading whitespace; it neither starts nor ends with whitespace |
| Text.StripDropsOnlySpace | iirs_space_digest_git.py:59 | everything `strip` drops on either side is whitespace |
| Sanitizer.TagEnd | iirs_space_digest_git.py:57 | a tag match at the start ends at the first `>` after the `<`, at index 2 or later, leaving at least one character inside |
| Sanitizer.StripTags | iirs_space_digest_git.py:57 | tag removal never lengthens the text and introduces no character (what it keeps and drops: `StripTagsKeepsPlain`, `StripTagsDropsTag`, `StripTagsKeepsEmptyPair`) |
| Sanitizer.StripTagsKeepsPlain | iirs_space_digest_git.py:57 | a `<`-free prefix is kept verbatim and removal continues on the rest |
| Sanitizer.StripTagsDropsTag | iirs_space_digest_git.py:57 | one whole `<…>` with no `>` inside is removed entirely and removal continues on the rest |
| Sanitizer.StripTagsKeepsEmptyPair | iirs_space_digest_git.py:57 | a `<` directly followed by `>` starts no tag: both are kept and removal continues after them |
| Sanitizer.StripTagsPlainThenTag | iirs_space_digest_git.py:57 | plain text followed by a tag keeps the text and drops the tag |
| Sanitizer.StripTagsTagless | iirs_space_digest_git.py:57 | after tag removal no position matches `<[^>]+>` |
| Sanitizer.StripTagsFixpoint | iirs_space_digest_git.py:57 | tag removal leaves a text unchanged if and only if it holds no tag |
| Sanitizer.StripTagsUnchanged | iirs_space_digest_git.py:57 | a text without tags is unchanged by tag removal |
| Sanitizer.StripTagsShrinks | iirs_space_digest_git.py:57 | a text holding a tag gets strictly shorter |
| Sanitizer.StripTagsIdempotent | iirs_space_digest_git.py:57 | removing tags twice equals removing them once |
| Sanitizer.Collapse | iirs_space_digest_git.py:58 | whitespace collapsing never lengthens the text, keeps it empty exactly when it was empty, keeps the first character's kind, and only adds plain spaces (what it keeps: `CollapseKeepsNonSpace`, `CollapseRun`, `CollapseSplit`) |
| Sanitizer.CollapseKeepsNonSpace | iirs_space_digest_git.py:58 | collapsing keeps every non-whitespace character, in order, and no other |
| Sanitizer.CollapseRun | iirs_space_digest_git.py:58 | a maximal whitespace run becomes exactly one plain space |
| Sanitizer.CollapseSplit | iirs_space_digest_git.py:58 | a text ending in a non-space character collapses independently of what follows it |
| Sanitizer.CollapseNormalises | iirs_space_digest_git.py:58 | after collapsing, no two whitespace characters are adjacent and every whitespace character is a plain space |
| Sanitizer.CollapseKeepsTagless | iirs_space_digest_git.py:57-58 | collapsing whitespace in a tagless text creates no tag |
| Sanitizer.CollapseUnchanged | iirs_space_digest_git.py:58 | a text already made of single plain spaces is unchanged by collapsing |
| Sanitizer.StripMarkup | iirs_space_digest_git.py:57-58 | tag removal followed by collapsing gives a tagless text with single plain spaces, holding exactly the non-whitespace characters of the tag-free text in order |
| Sanitizer.StripMarkupIdempotent | iirs_space_digest_git.py:57-58 | stripping markup twice equals stripping it once |
| Sanitizer.Truncate | iirs_space_digest_git.py:59 | the result is at most 383 characters; a text over 380 gives 383 characters, its first 380 plus `...`; a shorter one gives exactly the text stripped, a non-longer substring with non-space ends; no adjacent whitespace is created |
| Sanitizer.Sanitize | iirs_space_digest_git.py:53-59 | empty input gives the empty string; the result is at most 383 characters and has no two adjacent whitespace characters |
| Sanitizer.NoDoubleSpaceSlice | iirs_space_digest_git.py:59 | a slice of a text without adjacent whitespace has none either |
| Sanitizer.CutShape | iirs_space_digest_git.py:59 | cutting to `n` characters and appending `...` keeps those characters, ends in `...`, and creates no adjacent whitespace |
| Sanitizer.StripShape | iirs_space_digest_git.py:59 | `strip` yields a substring of its input and creates no adjacent whitespace |
| Sanitizer.SanitizeShape | iirs_space_digest_git.py:59 | for non-empty input, a markup-free text over 380 characters gives exactly its first 380 plus `...`, and otherwise the text stripped, at most 380 long |
| ImageUrl.CloseAt | iirs_space_digest_git.py:41-43 | when the pattern matches from an attribute position, the closing quote lies after a non-empty value and inside the text (what surrounds it: `CloseAtDelimits`; when it matches: `CloseAtComplete`) |
| ImageUrl.CloseAtDelimits | iirs_space_digest_git.py:41-43 | a match from an attribute position has the attribute name there and an opening quote after it; the position found holds the closing quote, and a `>` follows it |
| ImageUrl.CloseAtComplete | iirs_space_digest_git.py:41-43 | conversely, the rest of the pattern matches from an attribute position whenever the attribute name is there, followed by a quote of either kind, a non-empty quote-free value (ending in an image extension for `<img`), a quote of either kind (not necessarily the same), and some later `>`; the closing quote found is that one |
| ImageUrl.CapturedShape | iirs_space_digest_git.py:41-43 | the captured value is non-empty and quote-free; for `<img` it ends in `.jpg`/`.jpeg`/`.png`/`.gif`/`.webp`, matched case-insensitively |
| ImageUrl.LastCloseFrom | iirs_space_digest_git.py:41-43 | the greedy backtracking finds the highest attribute position in range where the rest matches, or reports that none does |
| ImageUrl.MatchFrom | iirs_space_digest_git.py:46 | a match found at a start position starts there |
| ImageUrl.MatchFromCorrect | iirs_space_digest_git.py:41-46 | the match at a start position matches and no later attribute position does; no match there means the pattern matches at no attribute position |
| ImageUrl.SearchFrom | iirs_space_digest_git.py:46 | the search returns the match at some start at or after `p`, or none exists from any such start |
| ImageUrl.SearchFromLeftmost | iirs_space_digest_git.py:46 | no match starts before the one the search reports |
| ImageUrl.FirstMatch | iirs_space_digest_git.py:41-48 | a result exists if and only if the pattern matches somewhere; it is group 1 of the leftmost, greedy match, a non-empty quote-free substring, with an image extension for `<img` |
| ImageUrl.FirstPassing | iirs_space_digest_git.py:45-50 | a selected URL passes the guard and is one of the candidates |
| ImageUrl.Candidates | iirs_space_digest_git.py:40-46 | the candidates are the first matches of `<img`, `<media:content` and `<enclosure`, in that order |
| ImageUrl.ExtractFirstImageUrl | iirs_space_digest_git.py:36-51 | empty input gives None; a returned URL starts with `http`, exceeds 20 characters, holds no quote and occurs in the input |
| ImageUrl.FirstPassingIsFirst | iirs_space_digest_git.py:45-50 | the result is `u` if and only if some candidate is `u` and passes the guard and every earlier candidate fails it |
| ImageUrl.FirstPassingNone | iirs_space_digest_git.py:45-51 | the result is None if and only if no candidate passes the guard |
| ImageUrl.ImgFailureFallsThrough | iirs_space_digest_git.py:45-50 | when the first `<img` match fails the guard, the result depends only on the other two patterns, whatever later `<img` tags exist |
| ImageUrl.ImgResultHasExtension | iirs_space_digest_git.py:41 | when the first `<img` match passes the guard it is the result, and it ends in an image extension |
| ImageUrl.ExtractComesFromPattern | iirs_space_digest_git.py:45-50 | a returned URL is the first match of one of the three patterns |
| Digest.RawSummary | iirs_space_digest_git.py:68 | the raw summary is `summary` when it is non-empty, and `description` (or empty) otherwise |
| Digest.SourceName | iirs_space_digest_git.py:76 | the source is the first min(length, 20) characters of the feed title (or of `Space News`) followed by `...`: its length is exactly that plus 3, at most 23 |
| Digest.EntryArticle | iirs_space_digest_git.py:68-79 | a record is built exactly when the entry has both a title and a link |
| Digest.FeedArticles | iirs_space_digest_git.py:65-81 | a feed contributes at most 3 records and no more than it has entries; a feed that raises contributes none (the records themselves: `FeedArticlesAreLeadingEntries`) |
| Digest.DigestOf | iirs_space_digest_git.py:62-81 | the digest is the feeds' contributions concatenated in order, at most 3 records per feed (order and independence: `DigestConcat`, `RaisedFeedSkipped`) |
| Digest.TakeWhileSome | iirs_space_digest_git.py:67-79 | the records are those of the leading entries, in order, and stop exactly at the first entry that raises |
| Digest.BuildDigest | iirs_space_digest_git.py:62-81 | the digest the loop builds equals `DigestOf(feeds)` |
| Digest.AppendEntries | iirs_space_digest_git.py:67-79 | the inner loop appends exactly the records of the leading entries, up to the first that raises |
| Digest.TakeWhileSomeExtend | iirs_space_digest_git.py:67-79 | one more entry that builds appends exactly its record |
| Digest.TakeWhileSomeStops | iirs_space_digest_git.py:67-79 | after an entry that raises, later entries add nothing |
| Digest.ArticleShape | iirs_space_digest_git.py:68-79 | a record's title is the entry's title without tags, its summary and image are those of the raw summary; the title holds no tag, the summary is at most 383 characters without adjacent whitespace, the image passed the guard and occurs in the raw summary |
| Digest.FeedArticlesAreLeadingEntries | iirs_space_digest_git.py:65-81 | a feed contributes at most 3 records, those of its first entries in order; if fewer, the next of its first three entries raised, and earlier records stay |
| Digest.FeedArticlesWellFormed | iirs_space_digest_git.py:73-79 | every record a feed contributes is well formed (source, title, summary and image as above) |
| Digest.DigestWellFormed | iirs_space_digest_git.py:73-79 | every record of the digest is well formed |
| Digest.FeedArticlesBound | iirs_space_digest_git.py:67 | a feed contributes at most 3 records |
| Digest.DigestBound | iirs_space_digest_git.py:64-67 | the digest has at most 3 records per feed |
| Digest.ConfiguredDigestBound | iirs_space_digest_git.py:20-32 | over the 11 configured feeds the digest has at most 33 records |
| Digest.FlatMapBound | iirs_space_digest_git.py:64-67 | per-element bounds add up over the concatenation |
| Digest.FlatMapMember | iirs_space_digest_git.py:64-79 | every element of the concatenation comes from one of the inputs |
| Digest.FlatMapConcat | iirs_space_digest_git.py:64 | concatenation distributes over splitting the input |
| Digest.DigestConcat | iirs_space_digest_git.py:64-81 | records appear in feed order: the digest of two runs of feeds is the first's followed by the second's |
| Digest.RaisedFeedSkipped | iirs_space_digest_git.py:65-81 | a feed that raises contributes nothing and the feeds after it are still handled |

## Left out

- Fetching and parsing feeds with `feedparser.parse` (line 66). This is a
  foreign library and network I/O, so its result is an input of
  `BuildDigest`.
- The `feeds` URL list is kept as a constant (`Digest.FeedUrls`). No fetching
  depends on it.
- The HTML newsletter template (lines 86–223): string formatting with no
  decision logic.
- Writing the output file, `date.today()` and the console `print` calls
  (lines 17, 63, 81, 83, 86, 226–232): these are I/O and clock-dependent.
- The unused email imports (lines 10–14).
- Exceptions other than a missing `title` or `link` on an entry, or a feed
  that raises as a whole: for example, non-string field values. The printed
  skip message is not modelled either.
- Digest.AppendEntries: the inner loop receives the record builder as a
  parameter, rather than calling it inline. `BuildDigest` always passes
  `ArticleOf(SourceName(title))`.
- ImageUrl.MatchFrom: its own contract only states where the match starts.
  The rest, that the match is the one the regular-expression engine takes, is
  stated by `ImageUrl.MatchFromCorrect`.
- Text.FoldCase: only folds the characters that fold onto an ASCII letter.
  These are the only letters the image patterns contain. Full Unicode case
  folding is not modelled.
- The order of evaluation inside an entry is not modelled: image and summary
  are computed before the title and link are read. Both are pure, so the
  resulting digest is the same.
