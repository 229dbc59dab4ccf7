/**
 * The digest-building loop: for each configured feed, in order, the first
 * three entries become article records; an exception while handling a feed
 * is swallowed, the records already appended stay, and the loop moves on.
 *
 * Fetching and parsing a feed is outside the model: the loop receives the
 * parsed result of each feed, in the order of the configured URLs.
 */
module Digest {
  import opened Wrappers
  import opened Text
  import Sanitizer
  import ImageUrl

  /** The configured feed URLs, in the order they are fetched. */
  const FeedUrls: seq<string> := [
    "https://www.esa.int/rss/rss-topnews.xml",
    "https://www.esa.int/rss/programmes.xml",
    "https://www.esa.int/rss/space_science.xml",
    "https://www.esa.int/rss/earth_observation.xml",
    "https://www.nasa.gov/rss/dyn/breaking_news.rss",
    "https://www.nasa.gov/rss/dyn/images_of_the_day.rss",
    "https://www.space.com/feeds/all",
    "https://spaceflightnow.com/feed/",
    "https://phys.org/rss-feed/space-news/",
    "https://www.thespacereview.com/rss.xml",
    "https://interestingengineering.com/feed"
  ]

  /** Entries taken from each feed (`feed.entries[:3]`). */
  const EntriesPerFeed: nat := 3

  /** Characters of the feed title kept in a record's source. */
  const SourceWidth: nat := 20

  /** Source name used when the feed has no title. */
  const DefaultSource := "Space News"

  /**
   * A parsed feed entry. A field the entry lacks is None: reading a missing
   * `title` or `link` attribute raises, a missing `summary` or `description`
   * key reads as the empty string.
   */
  datatype Entry = Entry(title: Option<string>, link: Option<string>,
                         summary: Option<string>, description: Option<string>)

  /** The outcome of fetching one feed: its title and entries, or an exception. */
  datatype Feed = Parsed(title: Option<string>, entries: seq<Entry>) | Raised

  /** One record of the digest. */
  datatype Article = Article(title: string, link: string, source: string,
                             summary: string, image: Option<string>)

  /** `entry.get('summary', '') or entry.get('description', '')` */
  function RawSummary(e: Entry): (raw: string)
    ensures e.summary.Some? && e.summary.value != [] ==> raw == e.summary.value
    ensures (e.summary.None? || e.summary.value == []) ==> raw == e.description.GetOr([])
  {
    var s := e.summary.GetOr([]);
    if s != [] then s else e.description.GetOr([])
  }

  function Min(a: nat, b: nat): nat {
    if a < b then a else b
  }

  /**
   * `feed.feed.get('title', 'Space News')[:20] + '...'`: at most 20
   * characters of the title, then the ellipsis.
   */
  function SourceName(feedTitle: Option<string>): (source: string)
    ensures |source| <= SourceWidth + |Sanitizer.Ellipsis|
    ensures |source| == Min(|feedTitle.GetOr(DefaultSource)|, SourceWidth) + |Sanitizer.Ellipsis|
    ensures EndsWith(source, Sanitizer.Ellipsis)
    ensures StartsWith(feedTitle.GetOr(DefaultSource), source[..|source| - |Sanitizer.Ellipsis|])
  {
    var name := Prefix(feedTitle.GetOr(DefaultSource), SourceWidth);
    var source := name + Sanitizer.Ellipsis;
    assert source[..|source| - |Sanitizer.Ellipsis|] == name;
    source
  }

  /**
   * The record built from one entry, or None when building it raises:
   * reading `entry.title` or `entry.link` raises when the entry lacks them.
   * The record holds the title with its tags removed, the link, the feed's
   * source name, and the sanitised summary and first image URL of the raw
   * summary. (The image and summary are computed before the title is read;
   * both are pure, so an entry that raises leaves nothing behind.)
   */
  function EntryArticle(e: Entry, source: string): (a: Option<Article>)
    ensures a.Some? <==> e.title.Some? && e.link.Some?
  {
    var raw := RawSummary(e);
    var image := ImageUrl.ExtractFirstImageUrl(raw);
    var summary := Sanitizer.Sanitize(raw);
    if e.title.None? || e.link.None? then None
    else Some(Article(Sanitizer.StripTags(e.title.value), e.link.value, source, summary, image))
  }

  /** The record builder of a feed whose source name is `source`. */
  function ArticleOf(source: string): Entry -> Option<Article> {
    e => EntryArticle(e, source)
  }

  /**
   * The results of `f` on `xs`, up to the first element on which `f` gives
   * None: the records of a feed's entries up to the first entry that raises.
   */
  function TakeWhileSome<X, Y>(xs: seq<X>, f: X -> Option<Y>): (r: seq<Y>)
    ensures |r| <= |xs|
    ensures forall k :: 0 <= k < |r| ==> f(xs[k]) == Some(r[k])
    ensures |r| < |xs| ==> f(xs[|r|]).None?
    decreases |xs|
  {
    if xs == [] || f(xs[0]).None? then []
    else [f(xs[0]).value] + TakeWhileSome(xs[1..], f)
  }

  /** What one feed contributes to the digest. */
  function FeedArticles(f: Feed): (r: seq<Article>)
    ensures |r| <= EntriesPerFeed
    ensures f.Parsed? ==> |r| <= |f.entries|
    ensures f.Raised? ==> r == []
  {
    match f
    case Raised => []
    case Parsed(title, entries) => TakeWhileSome(Prefix(entries, EntriesPerFeed), ArticleOf(SourceName(title)))
  }

  /** The results of `f` on each element of `xs`, concatenated in order. */
  function FlatMap<X, Y>(xs: seq<X>, f: X -> seq<Y>): (r: seq<Y>)
    decreases |xs|
  {
    if xs == [] then []
    else FlatMap(xs[..|xs| - 1], f) + f(xs[|xs| - 1])
  }

  /** The digest built from the fetched feeds, in order. */
  function DigestOf(feeds: seq<Feed>): (r: seq<Article>)
    ensures |r| <= EntriesPerFeed * |feeds|
  {
    FlatMapBound(feeds, FeedArticles, EntriesPerFeed);
    FlatMap(feeds, FeedArticles)
  }

  /**
   * The loop of the script over the feeds: each feed that parses adds the
   * records of its first three entries to `news_digest`; a feed that raises
   * adds nothing, and the loop moves on to the next feed.
   */
  method BuildDigest(feeds: seq<Feed>) returns (digest: seq<Article>)
    ensures digest == DigestOf(feeds)
  {
    digest := [];
    for i := 0 to |feeds|
      invariant digest == DigestOf(feeds[..i])
    {
      assert feeds[..i + 1][..i] == feeds[..i];
      assert DigestOf(feeds[..i + 1]) == DigestOf(feeds[..i]) + FeedArticles(feeds[i]);
      var feed := feeds[i];
      if feed.Parsed? {
        var build := ArticleOf(SourceName(feed.title));
        digest := AppendEntries(digest, Prefix(feed.entries, EntriesPerFeed), build);
      }
    }
    assert feeds[..|feeds|] == feeds;
  }

  /**
   * The inner loop over one feed's first entries, with `build` making the
   * record of an entry: each record is appended as soon as it is built, and
   * the first entry that raises ends the loop, keeping the records already
   * appended.
   */
  method AppendEntries(digest0: seq<Article>, batch: seq<Entry>, build: Entry -> Option<Article>)
    returns (digest: seq<Article>)
    ensures digest == digest0 + TakeWhileSome(batch, build)
  {
    digest := digest0;
    var j := 0;
    while j < |batch|
      invariant j <= |batch|
      invariant digest == digest0 + TakeWhileSome(batch[..j], build)
      invariant |digest| == |digest0| + j
    {
      var article := build(batch[j]);
      if article.None? {
        TakeWhileSomeStops(batch, build, j);
        break;
      }
      TakeWhileSomeExtend(batch, build, j);
      digest := digest + [article.value];
      j := j + 1;
    }
    assert batch[..|batch|] == batch;
  }

  // ---------------------------------------------------------------------
  // Lemmas used by the loop

  /** Extending a prefix on which `f` always succeeds by one more success appends its result. */
  lemma {:induction false} TakeWhileSomeExtend<X, Y>(xs: seq<X>, f: X -> Option<Y>, j: nat)
    requires j < |xs|
    requires |TakeWhileSome(xs[..j], f)| == j
    requires f(xs[j]).Some?
    ensures TakeWhileSome(xs[..j + 1], f) == TakeWhileSome(xs[..j], f) + [f(xs[j]).value]
    decreases j
  {
    if j > 0 {
      assert xs[..j][1..] == xs[1..][..j - 1];
      TakeWhileSomeExtend(xs[1..], f, j - 1);
      assert xs[1..][..j] == xs[..j + 1][1..];
    }
  }

  /** When `f` succeeds on every element before `j` and fails at `j`, the results are those of the prefix. */
  lemma {:induction false} TakeWhileSomeStops<X, Y>(xs: seq<X>, f: X -> Option<Y>, j: nat)
    requires j < |xs|
    requires |TakeWhileSome(xs[..j], f)| == j
    requires f(xs[j]).None?
    ensures TakeWhileSome(xs, f) == TakeWhileSome(xs[..j], f)
    decreases j
  {
    if j > 0 {
      assert xs[..j][1..] == xs[1..][..j - 1];
      TakeWhileSomeStops(xs[1..], f, j - 1);
    }
  }

  // ---------------------------------------------------------------------
  // Properties of the digest

  /** What every record of the digest satisfies. */
  predicate WellFormed(a: Article) {
    && |a.source| <= SourceWidth + |Sanitizer.Ellipsis|
    && EndsWith(a.source, Sanitizer.Ellipsis)
    && Sanitizer.Tagless(a.title)
    && |a.summary| <= Sanitizer.SummaryLimit + |Sanitizer.Ellipsis|
    && Sanitizer.NoDoubleSpace(a.summary)
    && (a.image.Some? ==> ImageUrl.Acceptable(a.image.value))
  }

  /**
   * A built record carries the entry's title without its tags, the entry's
   * link, the feed's source, and the sanitised summary and extracted image of
   * the raw summary: so its title holds no tag, its summary is at most 383
   * characters without adjacent whitespace, and its image URL passed the
   * guard and occurs in the raw summary.
   */
  lemma ArticleShape(e: Entry, source: string)
    requires EntryArticle(e, source).Some?
    ensures var a := EntryArticle(e, source).value;
      && a.title == Sanitizer.StripTags(e.title.value) && a.link == e.link.value
      && a.summary == Sanitizer.Sanitize(RawSummary(e))
      && a.image == ImageUrl.ExtractFirstImageUrl(RawSummary(e))
      && a.source == source
      && Sanitizer.Tagless(a.title)
      && |a.summary| <= Sanitizer.SummaryLimit + |Sanitizer.Ellipsis|
      && Sanitizer.NoDoubleSpace(a.summary)
      && (RawSummary(e) == [] ==> a.summary == [] && a.image.None?)
      && (a.image.Some? ==> ImageUrl.Acceptable(a.image.value) && IsSubstring(a.image.value, RawSummary(e)))
  {
    Sanitizer.StripTagsTagless(e.title.value);
  }

  /**
   * A parsed feed contributes the records of its first three entries, in
   * order, up to the first entry that raises; the records built before it
   * stay.
   */
  lemma FeedArticlesAreLeadingEntries(title: Option<string>, entries: seq<Entry>)
    ensures var r := FeedArticles(Parsed(title, entries));
      && |r| <= EntriesPerFeed && |r| <= |entries|
      && (forall k :: 0 <= k < |r| ==> EntryArticle(entries[k], SourceName(title)) == Some(r[k]))
      && (|r| < EntriesPerFeed && |r| < |entries| ==> EntryArticle(entries[|r|], SourceName(title)).None?)
  {
    var batch := Prefix(entries, EntriesPerFeed);
    var r := TakeWhileSome(batch, ArticleOf(SourceName(title)));
    forall k | 0 <= k < |r|
      ensures EntryArticle(entries[k], SourceName(title)) == Some(r[k])
    {
      assert ArticleOf(SourceName(title))(batch[k]) == Some(r[k]);
    }
    if |r| < EntriesPerFeed && |r| < |entries| {
      assert ArticleOf(SourceName(title))(batch[|r|]).None?;
    }
  }

  /** Every record a feed contributes is well formed. */
  lemma FeedArticlesWellFormed(f: Feed)
    ensures forall a :: a in FeedArticles(f) ==> WellFormed(a)
  {
    if f.Parsed? {
      var source := SourceName(f.title);
      var batch := Prefix(f.entries, EntriesPerFeed);
      var r := FeedArticles(f);
      forall k | 0 <= k < |r| ensures WellFormed(r[k]) {
        assert ArticleOf(source)(batch[k]) == Some(r[k]);
        ArticleShape(batch[k], source);
      }
    }
  }

  /** Every record of the digest is well formed. */
  lemma DigestWellFormed(feeds: seq<Feed>)
    ensures forall a :: a in DigestOf(feeds) ==> WellFormed(a)
  {
    forall a | a in DigestOf(feeds) ensures WellFormed(a) {
      FlatMapMember(feeds, FeedArticles, a);
      var f :| f in feeds && a in FeedArticles(f);
      FeedArticlesWellFormed(f);
    }
  }

  /** A feed contributes at most three records. */
  lemma FeedArticlesBound(f: Feed)
    ensures |FeedArticles(f)| <= EntriesPerFeed
  {
  }

  /** Each result of `f` has at most `n` elements, so the concatenation has at most `n` per element. */
  lemma {:induction false} FlatMapBound<X, Y>(xs: seq<X>, f: X -> seq<Y>, n: nat)
    requires forall x :: x in xs ==> |f(x)| <= n
    ensures |FlatMap(xs, f)| <= n * |xs|
    decreases |xs|
  {
    if xs != [] {
      var init := xs[..|xs| - 1];
      FlatMapBound(init, f, n);
      assert xs[|xs| - 1] in xs;
      assert n * |xs| == n * |init| + n;
    }
  }

  /** Every element of the concatenation comes from the result on some element. */
  lemma {:induction false} FlatMapMember<X, Y>(xs: seq<X>, f: X -> seq<Y>, y: Y)
    requires y in FlatMap(xs, f)
    ensures exists x :: x in xs && y in f(x)
    decreases |xs|
  {
    var init := xs[..|xs| - 1];
    if y in FlatMap(init, f) {
      FlatMapMember(init, f, y);
      var x :| x in init && y in f(x);
      assert x in xs;
    } else {
      assert xs[|xs| - 1] in xs;
    }
  }

  /** Concatenation distributes over the split of the input. */
  lemma {:induction false} FlatMapConcat<X, Y>(a: seq<X>, b: seq<X>, f: X -> seq<Y>)
    ensures FlatMap(a + b, f) == FlatMap(a, f) + FlatMap(b, f)
    decreases |b|
  {
    if b == [] {
      assert a + b == a;
    } else {
      var b' := b[..|b| - 1];
      FlatMapConcat(a, b', f);
      assert (a + b)[..|a + b| - 1] == a + b';
    }
  }

  /** The digest holds at most three records per feed. */
  lemma DigestBound(feeds: seq<Feed>)
    ensures |DigestOf(feeds)| <= EntriesPerFeed * |feeds|
  {
    forall f | f in feeds ensures |FeedArticles(f)| <= EntriesPerFeed {
      FeedArticlesBound(f);
    }
    FlatMapBound(feeds, FeedArticles, EntriesPerFeed);
  }

  /** Over the configured feeds the digest holds at most 33 records. */
  lemma ConfiguredDigestBound(feeds: seq<Feed>)
    requires |feeds| == |FeedUrls|
    ensures |DigestOf(feeds)| <= 33
  {
    DigestBound(feeds);
  }

  /**
   * The digest of two runs of feeds is the digest of the first followed by
   * that of the second: feeds are handled in order and independently.
   */
  lemma DigestConcat(a: seq<Feed>, b: seq<Feed>)
    ensures DigestOf(a + b) == DigestOf(a) + DigestOf(b)
  {
    FlatMapConcat(a, b, FeedArticles);
  }

  /** A feed that raises contributes nothing, and the feeds after it are still handled. */
  lemma RaisedFeedSkipped(a: seq<Feed>, b: seq<Feed>)
    ensures DigestOf(a + [Raised] + b) == DigestOf(a) + DigestOf(b)
  {
    var raised: seq<Feed> := [Raised];
    assert DigestOf(raised) == [] by {
      assert raised[..0] == [];
      assert FlatMap(raised, FeedArticles) == FlatMap([], FeedArticles) + FeedArticles(Raised);
    }
    DigestConcat(a, raised);
    DigestConcat(a + raised, b);
  }
}
