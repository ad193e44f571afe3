/**
 * `fetch_reviews` of the Letterboxd producer: per-article field recovery,
 * the three rejection rules, the `limit`-bounded scan in document order and
 * the two listing-page variants tried in turn.
 *
 * The HTML layer is not modelled: an `Article` holds the raw values that the
 * CSS selectors pick out of one `div.listitem article.production-viewing`,
 * and a fetched page is its HTTP status with its articles.
 */
module Extraction {
  import opened Wrappers
  import opened Text
  import opened Schema

  const SiteRoot := "https://letterboxd.com"
  const MinTextLength := 20
  const DefaultLang := "en"
  const OkStatus := 200
  /** The listing paths tried for a film, in order. */
  const Variants: seq<string> := ["reviews/popular/", "reviews/"]
  /** The limit the producer's cycle passes (the parameter's default). */
  const DefaultLimit := 5

  /** An element holding review text: its whitespace-normalised text and its `lang` attribute. */
  datatype TextElement = TextElement(text: string, lang: Option<string>)

  /**
   * The `class` attribute of the rating span. The HTML parser hands it over
   * as a list of tokens; selecting on `[class*='rated-']` makes the list
   * non-empty. A parser configured without multi-valued attributes would
   * hand over the whole attribute string instead.
   */
  datatype ClassAttr = ClassTokens(first: string, rest: seq<string>) | ClassText(value: string)

  /** What the selectors find inside one review article. */
  datatype Article = Article(
    avatarHref: Option<string>,      // a.avatar[href^='/'], its href
    contextHref: Option<string>,     // a.context[href*='/film/<slug>'], its href
    proseBody: Option<TextElement>,  // div.js-review div.body-text.-prose
    bodyText: Option<TextElement>,   // div.js-review .body-text
    ratingClass: Option<ClassAttr>,  // span.rating[class*='rated-'], its class
    datetime: Option<string>)        // time.timestamp[datetime], its datetime

  /** One response of a listing URL. */
  datatype Page = Page(status: int, articles: seq<Article>)

  /** A review dictionary built by the extractor. */
  datatype Record = Record(
    text: string,
    reviewUrl: string,
    author: string,
    itemId: string,
    lang: string,
    reviewRating: Option<nat>,
    tsReview: Option<Instant>)

  /** What every extracted record satisfies. */
  predicate WellFormed(r: Record, slug: string) {
    && |r.text| >= MinTextLength
    && r.author != "" && '/' !in r.author
    && r.reviewUrl != ""
    && r.itemId == slug
  }

  // ---------------------------------------------------------------------
  // Author
  // ---------------------------------------------------------------------

  /** The avatar link's href stripped of `/`, kept only when it is one non-empty path segment. */
  function AvatarAuthor(href: Option<string>): (author: Option<string>)
    ensures author.Some? ==> href.Some? && author.value == Strip(href.value, '/')
    ensures author.Some? ==> author.value != "" && '/' !in author.value
  {
    match href
    case None => None
    case Some(h) =>
      if h == "" then None
      else
        var u := Strip(h, '/');
        if u != "" && '/' !in u then Some(u) else None
  }

  /** The second `/`-separated piece of the context href, when the third is `film`. */
  function ContextAuthor(href: string): (author: Option<string>)
    ensures author.Some? ==> |Split(href, '/')| >= 3 && author.value == Split(href, '/')[1] && Split(href, '/')[2] == "film"
    ensures author.Some? ==> author.value != "" && '/' !in author.value
  {
    var parts := Split(href, '/');
    SplitNoSep(href, '/');
    if |parts| >= 3 && parts[1] != "" && parts[2] == "film" then Some(parts[1]) else None
  }

  /** Avatar first; the context link only when the avatar gives nothing. */
  function AuthorOf(art: Article): (author: Option<string>)
    ensures author.Some? ==> author.value != "" && '/' !in author.value
    ensures AvatarAuthor(art.avatarHref).Some? ==> author == AvatarAuthor(art.avatarHref)
    ensures author.Some? && AvatarAuthor(art.avatarHref).None? ==>
              art.contextHref.Some? && author == ContextAuthor(art.contextHref.value)
    ensures AvatarAuthor(art.avatarHref).None? ==>
              author == (if art.contextHref.Some? then ContextAuthor(art.contextHref.value) else None)
  {
    var a := AvatarAuthor(art.avatarHref);
    if a.Some? then a
    else
      match art.contextHref
      case None => None
      case Some(h) =>
        if h == "" then None
        else
          var c := ContextAuthor(h);
          SplitNoSep(h, '/');
          c
  }

  /** An avatar href yields `u` exactly when it is `u` wrapped in slashes and `u` is one segment. */
  lemma AvatarAuthorSound(h: string, u: string)
    requires AvatarAuthor(Some(h)) == Some(u)
    ensures u != "" && '/' !in u
    ensures exists m: nat, n: nat :: h == Repeat('/', m) + u + Repeat('/', n)
  {
    StripShape(h, '/');
  }

  lemma AvatarAuthorComplete(m: nat, u: string, n: nat)
    requires u != "" && '/' !in u
    ensures AvatarAuthor(Some(Repeat('/', m) + u + Repeat('/', n))) == Some(u)
  {
    StripPadded(m, u, n, '/');
  }

  /** The context href `<x>/<u>/film<t>`. */
  function ContextPath(x: string, u: string, t: string): string {
    x + "/" + u + "/" + "film" + t
  }

  /**
   * A context href yields `u` exactly when it reads `<x>/<u>/film` followed
   * by nothing or by `/...`, with `x` and `u` free of `/` and `u` non-empty.
   */
  lemma ContextAuthorSound(h: string, u: string)
    requires ContextAuthor(h) == Some(u)
    ensures u != "" && '/' !in u
    ensures exists x: string, t: string :: '/' !in x && (t == "" || t[0] == '/') && h == ContextPath(x, u, t)
  {
    var parts := Split(h, '/');
    JoinSplit(h, '/');
    SplitNoSep(h, '/');
    JoinHead3(parts, '/');
    var t: string := if |parts| == 3 then "" else "/" + Join(parts[3..], '/');
    assert h == ContextPath(parts[0], u, t);
  }

  lemma ContextAuthorComplete(x: string, u: string, t: string)
    requires '/' !in x && u != "" && '/' !in u
    requires t == "" || t[0] == '/'
    ensures ContextAuthor(ContextPath(x, u, t)) == Some(u)
  {
    var q := if t == "" then [] else Split(t[1..], '/');
    if t != "" {
      JoinSplit(t[1..], '/');
      SplitNoSep(t[1..], '/');
      assert t == "/" + t[1..];
    }
    var parts := [x, u, "film"] + q;
    assert parts[3..] == q;
    JoinHead3(parts, '/');
    assert Join(parts, '/') == ContextPath(x, u, t);
    assert '/' !in "film";
    assert NoSep(parts, '/');
    SplitJoin(parts, '/');
  }

  // ---------------------------------------------------------------------
  // Permalink, text, language
  // ---------------------------------------------------------------------

  /** The review's permalink: site-relative hrefs are prefixed with the site root. */
  function ReviewUrl(ctx: Option<string>): (url: Option<string>)
    ensures url.Some? <==> ctx.Some? && ctx.value != ""
    ensures url.Some? ==> url.value != ""
    ensures url.Some? && StartsWith(ctx.value, "/") ==>
              StartsWith(url.value, SiteRoot + "/") && url.value[|SiteRoot|..] == ctx.value
    ensures url.Some? && !StartsWith(ctx.value, "/") ==> url.value == ctx.value
  {
    match ctx
    case None => None
    case Some(h) =>
      if h == "" then None
      else if StartsWith(h, "/") then
        assert (SiteRoot + h)[..|SiteRoot| + 1] == SiteRoot + "/";
        Some(SiteRoot + h)
      else Some(h)
  }

  /** The prose body when there is one, the generic body text otherwise. */
  function TextElementOf(art: Article): (el: Option<TextElement>)
    ensures art.proseBody.Some? ==> el == art.proseBody
    ensures art.proseBody.None? ==> el == art.bodyText
  {
    if art.proseBody.Some? then art.proseBody else art.bodyText
  }

  /** The element's `lang` attribute, or `en` when it is missing or empty. */
  function LangOf(el: TextElement): (lang: string)
    ensures lang != ""
    ensures lang == DefaultLang || el.lang == Some(lang)
    ensures (el.lang.Some? && el.lang.value != "") ==> el.lang == Some(lang)
  {
    match el.lang
    case Some(l) => if l != "" then l else DefaultLang
    case None => DefaultLang
  }

  // ---------------------------------------------------------------------
  // Rating
  // ---------------------------------------------------------------------

  /**
   * The rating as the source computes it: the `rated-(\d+)` search runs on
   * the FIRST class token only (or on the whole attribute when it is a
   * string).
   */
  function RatingAsWritten(c: Option<ClassAttr>): (rating: Option<nat>)
    ensures c.None? ==> rating.None?
    ensures c.Some? && c.value.ClassTokens? ==> rating == SearchRated(c.value.first)
    ensures c.Some? && c.value.ClassText? ==> rating == SearchRated(c.value.value)
  {
    match c
    case None => None
    case Some(ClassTokens(first, _)) => SearchRated(first)
    case Some(ClassText(v)) => SearchRated(v)
  }

  /** The first token that matches `rated-(\d+)`, read as a number. */
  function FirstRated(tokens: seq<string>): Option<nat>
    decreases |tokens|
  {
    if tokens == [] then None
    else if SearchRated(tokens[0]).Some? then SearchRated(tokens[0])
    else FirstRated(tokens[1..])
  }

  /** The rating as intended: the search runs over all the class tokens in order. */
  function Rating(c: Option<ClassAttr>): (rating: Option<nat>)
    ensures c.None? ==> rating.None?
    ensures RatingAsWritten(c).Some? ==> rating == RatingAsWritten(c)
    ensures c.Some? && c.value.ClassText? ==> rating == RatingAsWritten(c)
    ensures c.Some? && c.value.ClassTokens? ==> rating == FirstRated([c.value.first] + c.value.rest)
  {
    match c
    case None => None
    case Some(ClassTokens(first, rest)) => FirstRated([first] + rest)
    case Some(ClassText(v)) => SearchRated(v)
  }

  /**
   * A `rated-<n>` token is found wherever it stands in the class list, so
   * long as no earlier token matches.
   */
  lemma {:induction false} FirstRatedFinds(before: seq<string>, n: nat, after: seq<string>)
    requires forall k :: 0 <= k < |before| ==> SearchRated(before[k]).None?
    ensures FirstRated(before + ["rated-" + Decimal(n)] + after) == Some(n)
    decreases |before|
  {
    var ts := before + ["rated-" + Decimal(n)] + after;
    if before == [] {
      assert ts[0] == "rated-" + Decimal(n);
      SearchRatedToken(n);
    } else {
      assert ts[0] == before[0];
      assert ts[1..] == before[1..] + ["rated-" + Decimal(n)] + after;
      FirstRatedFinds(before[1..], n, after);
    }
  }

  /** No rating at all only when no token matches. */
  lemma {:induction false} FirstRatedNone(tokens: seq<string>)
    ensures FirstRated(tokens).None? <==> forall k :: 0 <= k < |tokens| ==> SearchRated(tokens[k]).None?
    decreases |tokens|
  {
    if tokens != [] {
      FirstRatedNone(tokens[1..]);
      assert forall k :: 1 <= k < |tokens| ==> tokens[k] == tokens[1..][k - 1];
    }
  }

  /** `class="rating rated-8"`: the source reads no rating, the intended search reads 8. */
  lemma RatingFirstTokenMissed()
    ensures RatingAsWritten(Some(ClassTokens("rating", ["rated-8"]))) == None
    ensures Rating(Some(ClassTokens("rating", ["rated-8"]))) == Some(8)
  {
    assert Decimal(8) == "8";
    assert "rated-" + Decimal(8) == "rated-8";
    FirstRatedFinds(["rating"], 8, []);
    assert ["rating"] + ["rated-" + Decimal(8)] + [] == ["rating", "rated-8"];
  }

  // ---------------------------------------------------------------------
  // Timestamp
  // ---------------------------------------------------------------------

  /**
   * The timestamp as the source computes it: the parse is called on the
   * `datetime` module instead of its class, raises, and the handler turns
   * every attribute into None.
   */
  function ReviewTimestampAsWritten(attr: Option<string>, parseIso: string -> Option<Instant>): (ts: Option<Instant>)
    ensures ts.None?
  {
    None
  }

  /** The timestamp as intended: the ISO parse of a present, non-empty attribute. */
  function ReviewTimestamp(attr: Option<string>, parseIso: string -> Option<Instant>): (ts: Option<Instant>)
    ensures ts.Some? ==> attr.Some? && attr.value != "" && ts == parseIso(attr.value)
    ensures attr.Some? && attr.value != "" ==> ts == parseIso(attr.value)
  {
    match attr
    case None => None
    case Some(a) => if a == "" then None else parseIso(a)
  }

  /** A well-formed attribute that parses still comes out as None in the source. */
  lemma TimestampDropped(attr: string, parseIso: string -> Option<Instant>)
    requires attr != "" && parseIso(attr).Some?
    ensures ReviewTimestampAsWritten(Some(attr), parseIso) != ReviewTimestamp(Some(attr), parseIso)
  {
  }

  // ---------------------------------------------------------------------
  // One article
  // ---------------------------------------------------------------------

  /**
   * The record for one article, or None when it is skipped: no text
   * element, text shorter than 20 characters, no author, or no context link.
   */
  function ExtractArticle(art: Article, slug: string, parseIso: string -> Option<Instant>): (r: Option<Record>)
    ensures r.Some? <==>
              && TextElementOf(art).Some?
              && |TextElementOf(art).value.text| >= MinTextLength
              && AuthorOf(art).Some?
              && art.contextHref.Some? && art.contextHref.value != ""
    ensures r.Some? ==> WellFormed(r.value, slug)
    ensures r.Some? ==>
              && r.value.text == TextElementOf(art).value.text
              && r.value.lang == LangOf(TextElementOf(art).value)
              && Some(r.value.author) == AuthorOf(art)
              && Some(r.value.reviewUrl) == ReviewUrl(art.contextHref)
              && r.value.reviewRating == Rating(art.ratingClass)
              && r.value.tsReview == ReviewTimestamp(art.datetime, parseIso)
  {
    match TextElementOf(art)
    case None => None
    case Some(el) =>
      if |el.text| < MinTextLength then None
      else
        var author := AuthorOf(art);
        var url := ReviewUrl(art.contextHref);
        if author.None? || url.None? then None
        else
          Some(Record(el.text, url.value, author.value, slug, LangOf(el),
                      Rating(art.ratingClass), ReviewTimestamp(art.datetime, parseIso)))
  }

  /** Whatever the rating span holds, it never decides whether the article is kept. */
  lemma RatingNeverRejects(art: Article, c: Option<ClassAttr>, slug: string, parseIso: string -> Option<Instant>)
    ensures ExtractArticle(art.(ratingClass := c), slug, parseIso).Some? == ExtractArticle(art, slug, parseIso).Some?
  {
    assert TextElementOf(art.(ratingClass := c)) == TextElementOf(art);
    assert AuthorOf(art.(ratingClass := c)) == AuthorOf(art);
  }

  // ---------------------------------------------------------------------
  // The articles of one page
  // ---------------------------------------------------------------------

  function OptionToSeq(o: Option<Record>): seq<Record> {
    if o.Some? then [o.value] else []
  }

  /** The records of every accepted article, in document order. */
  function ValidRecords(arts: seq<Article>, slug: string, parseIso: string -> Option<Instant>): (recs: seq<Record>)
    ensures |recs| <= |arts|
    decreases |arts|
  {
    if arts == [] then []
    else ValidRecords(arts[..|arts| - 1], slug, parseIso) + OptionToSeq(ExtractArticle(arts[|arts| - 1], slug, parseIso))
  }

  lemma ValidRecordsStep(arts: seq<Article>, i: nat, slug: string, parseIso: string -> Option<Instant>)
    requires i < |arts|
    ensures ValidRecords(arts[..i + 1], slug, parseIso)
            == ValidRecords(arts[..i], slug, parseIso) + OptionToSeq(ExtractArticle(arts[i], slug, parseIso))
  {
    assert arts[..i + 1][..i] == arts[..i];
  }

  /** Extraction is article by article: the records of a concatenation are the concatenation of the records. */
  lemma {:induction false} ValidRecordsConcat(a: seq<Article>, b: seq<Article>, slug: string, parseIso: string -> Option<Instant>)
    ensures ValidRecords(a + b, slug, parseIso) == ValidRecords(a, slug, parseIso) + ValidRecords(b, slug, parseIso)
    decreases |b|
  {
    if b == [] {
      assert a + b == a;
    } else {
      var b' := b[..|b| - 1];
      assert (a + b)[..|a + b| - 1] == a + b';
      assert (a + b)[|a + b| - 1] == b[|b| - 1];
      ValidRecordsConcat(a, b', slug, parseIso);
    }
  }

  /** Every extracted record is well formed, and there are at most as many as articles. */
  lemma {:induction false} ValidRecordsWellFormed(arts: seq<Article>, slug: string, parseIso: string -> Option<Instant>)
    ensures |ValidRecords(arts, slug, parseIso)| <= |arts|
    ensures forall k :: 0 <= k < |ValidRecords(arts, slug, parseIso)| ==> WellFormed(ValidRecords(arts, slug, parseIso)[k], slug)
    decreases |arts|
  {
    if arts != [] {
      ValidRecordsWellFormed(arts[..|arts| - 1], slug, parseIso);
    }
  }

  /** A rejected article is skipped without disturbing the others. */
  lemma SkipRejected(a: seq<Article>, bad: Article, b: seq<Article>, slug: string, parseIso: string -> Option<Instant>)
    requires ExtractArticle(bad, slug, parseIso).None?
    ensures ValidRecords(a + [bad] + b, slug, parseIso) == ValidRecords(a + b, slug, parseIso)
  {
    var none := ValidRecords([bad], slug, parseIso);
    assert none == [] by {
      assert [bad][..0] == [];
      assert none == ValidRecords([], slug, parseIso) + OptionToSeq(ExtractArticle(bad, slug, parseIso));
    }
    ValidRecordsConcat(a + [bad], b, slug, parseIso);
    ValidRecordsConcat(a, [bad], slug, parseIso);
    ValidRecordsConcat(a, b, slug, parseIso);
  }

  /** An accepted article contributes exactly its record, in its place. */
  lemma KeepAccepted(a: seq<Article>, good: Article, b: seq<Article>, slug: string, parseIso: string -> Option<Instant>)
    requires ExtractArticle(good, slug, parseIso).Some?
    ensures ValidRecords(a + [good] + b, slug, parseIso)
            == ValidRecords(a, slug, parseIso) + [ExtractArticle(good, slug, parseIso).value] + ValidRecords(b, slug, parseIso)
  {
    ValidRecordsConcat(a + [good], b, slug, parseIso);
    ValidRecordsConcat(a, [good], slug, parseIso);
    ValidRecordsStep([good], 0, slug, parseIso);
    assert [good][..1] == [good] && [good][..0] == [];
  }

  /** The first `n` elements of `s` (none when `n` is not positive). */
  function Take<T>(s: seq<T>, n: int): (r: seq<T>)
    ensures |r| == if n <= 0 then 0 else if n < |s| then n else |s|
    ensures r == s[..|r|]
  {
    s[..if n <= 0 then 0 else if n < |s| then n else |s|]
  }

  /** Once the records of a prefix reach the cap `n`, taking `n` of all the records gives exactly those. */
  lemma TakeAtPrefix(arts: seq<Article>, i: nat, n: int, slug: string, parseIso: string -> Option<Instant>)
    requires i <= |arts| && |ValidRecords(arts[..i], slug, parseIso)| == if n <= 0 then 0 else n
    ensures Take(ValidRecords(arts, slug, parseIso), n) == ValidRecords(arts[..i], slug, parseIso)
  {
    var front := ValidRecords(arts[..i], slug, parseIso);
    var back := ValidRecords(arts[i..], slug, parseIso);
    ValidRecordsConcat(arts[..i], arts[i..], slug, parseIso);
    assert arts[..i] + arts[i..] == arts;
    assert (front + back)[..|front|] == front;
  }

  /** Below the cap, taking `n` of all the records gives all of them. */
  lemma TakeUnderCap(arts: seq<Article>, n: int, slug: string, parseIso: string -> Option<Instant>)
    requires |ValidRecords(arts[..|arts|], slug, parseIso)| <= if n <= 0 then 0 else n
    ensures Take(ValidRecords(arts, slug, parseIso), n) == ValidRecords(arts[..|arts|], slug, parseIso)
  {
    assert arts[..|arts|] == arts;
  }

  /** How many records the source's loop keeps at most: it tests the limit only after an append. */
  function AsWrittenCap(limit: int): (cap: int)
    ensures cap >= 1 && cap >= limit
    ensures limit >= 1 ==> cap == limit
    ensures limit < 1 ==> cap == 1
  {
    if limit >= 1 then limit else 1
  }

  /** The scan over the articles as the source writes it. */
  method CollectReviewsAsWritten(articles: seq<Article>, slug: string, limit: int, parseIso: string -> Option<Instant>)
    returns (reviews: seq<Record>)
    ensures reviews == Take(ValidRecords(articles, slug, parseIso), AsWrittenCap(limit))
  {
    reviews := [];
    for i := 0 to |articles|
      invariant reviews == ValidRecords(articles[..i], slug, parseIso)
      invariant |reviews| < AsWrittenCap(limit)
    {
      var rec := ExtractArticle(articles[i], slug, parseIso);
      ValidRecordsStep(articles, i, slug, parseIso);
      if rec.Some? {
        reviews := reviews + [rec.value];
        if |reviews| >= limit {
          TakeAtPrefix(articles, i + 1, AsWrittenCap(limit), slug, parseIso);
          return;
        }
      }
    }
    TakeUnderCap(articles, AsWrittenCap(limit), slug, parseIso);
  }

  /** With a limit of 0 or less the source still keeps the first accepted article. */
  lemma NonPositiveLimitKeepsOne(art: Article, limit: int, slug: string, parseIso: string -> Option<Instant>)
    requires limit <= 0 && ExtractArticle(art, slug, parseIso).Some?
    ensures |Take(ValidRecords([art], slug, parseIso), AsWrittenCap(limit))| == 1 > limit
  {
    assert [art][..0] == [];
  }

  /** The scan with the limit tested before each article: never more than `limit` records. */
  method CollectReviews(articles: seq<Article>, slug: string, limit: int, parseIso: string -> Option<Instant>)
    returns (reviews: seq<Record>)
    ensures reviews == Take(ValidRecords(articles, slug, parseIso), limit)
    ensures |reviews| <= if limit <= 0 then 0 else limit
    ensures forall k :: 0 <= k < |reviews| ==> WellFormed(reviews[k], slug)
  {
    ValidRecordsWellFormed(articles, slug, parseIso);
    reviews := [];
    for i := 0 to |articles|
      invariant reviews == ValidRecords(articles[..i], slug, parseIso)
      invariant |reviews| <= if limit <= 0 then 0 else limit
    {
      if |reviews| >= limit {
        TakeAtPrefix(articles, i, limit, slug, parseIso);
        return;
      }
      var rec := ExtractArticle(articles[i], slug, parseIso);
      ValidRecordsStep(articles, i, slug, parseIso);
      if rec.Some? {
        reviews := reviews + [rec.value];
      }
    }
    TakeUnderCap(articles, limit, slug, parseIso);
  }

  /** For every positive limit, and so for the cycle's 5, the two scans agree. */
  lemma CollectAgreesForPositiveLimit(articles: seq<Article>, slug: string, limit: int, parseIso: string -> Option<Instant>)
    requires limit >= 1
    ensures Take(ValidRecords(articles, slug, parseIso), AsWrittenCap(limit))
            == Take(ValidRecords(articles, slug, parseIso), limit)
  {
  }

  // ---------------------------------------------------------------------
  // The listing variants
  // ---------------------------------------------------------------------

  function VariantUrl(slug: string, suffix: string): string {
    SiteRoot + "/film/" + slug + "/" + suffix
  }

  /** What one fetched variant contributes: nothing unless the status is 200 and it has articles. */
  function PageRecords(p: Page, slug: string, limit: int, parseIso: string -> Option<Instant>): seq<Record> {
    if p.status != OkStatus || p.articles == [] then []
    else Take(ValidRecords(p.articles, slug, parseIso), limit)
  }

  /** What `fetch_reviews` returns: the popular listing's records, or else the plain listing's. */
  function Fetched(slug: string, limit: int, get: string -> Page, parseIso: string -> Option<Instant>): seq<Record> {
    var first := PageRecords(get(VariantUrl(slug, Variants[0])), slug, limit, parseIso);
    if first != [] then first else PageRecords(get(VariantUrl(slug, Variants[1])), slug, limit, parseIso)
  }

  /** When neither listing answers with status 200, nothing is fetched. */
  lemma FetchedNothingWithoutOk(slug: string, limit: int, get: string -> Page, parseIso: string -> Option<Instant>)
    requires forall k :: 0 <= k < |Variants| ==> get(VariantUrl(slug, Variants[k])).status != OkStatus
    ensures Fetched(slug, limit, get, parseIso) == []
  {
    assert get(VariantUrl(slug, Variants[0])).status != OkStatus;
    assert get(VariantUrl(slug, Variants[1])).status != OkStatus;
  }

  /**
   * `fetch_reviews(slug, limit)`. `get` stands for the HTTP request; the
   * second result is the list of URLs requested, in order.
   */
  method FetchReviews(slug: string, limit: int, get: string -> Page, parseIso: string -> Option<Instant>)
    returns (reviews: seq<Record>, requested: seq<string>)
    ensures 1 <= |requested| <= |Variants|
    ensures forall k :: 0 <= k < |requested| ==> requested[k] == VariantUrl(slug, Variants[k])
    ensures forall k :: 0 <= k < |requested| - 1 ==> PageRecords(get(requested[k]), slug, limit, parseIso) == []
    ensures reviews == PageRecords(get(requested[|requested| - 1]), slug, limit, parseIso)
    ensures reviews == [] ==> |requested| == |Variants|
    ensures reviews == Fetched(slug, limit, get, parseIso)
    ensures |reviews| <= if limit <= 0 then 0 else limit
    ensures forall k :: 0 <= k < |reviews| ==> WellFormed(reviews[k], slug)
  {
    reviews := [];
    requested := [];
    for v := 0 to |Variants|
      invariant |requested| == v
      invariant forall k :: 0 <= k < v ==> requested[k] == VariantUrl(slug, Variants[k])
      invariant forall k :: 0 <= k < v ==> PageRecords(get(requested[k]), slug, limit, parseIso) == []
      invariant reviews == []
    {
      var url := VariantUrl(slug, Variants[v]);
      var page := get(url);
      requested := requested + [url];
      if page.status != OkStatus {
        continue;
      }
      if page.articles == [] {
        continue;
      }
      var found := CollectReviews(page.articles, slug, limit, parseIso);
      if found != [] {
        reviews := found;
        return;
      }
    }
  }
}
