/**
 * The callback fetch-tweet.js hands to `page.evaluate`: it turns the
 * `article` elements of a rendered post page into at most five tweet
 * records, or keeps the raw page text when there are none.
 *
 * The DOM is abstract: an article is what the callback reads from it (the
 * inner text of its `tweetText` element when it has one, its own inner
 * text, and its `time` element when it has one), and the page is its
 * `document.body.innerText`.
 */
module Scrape {

  import opened Wrappers
  import opened JsString

  /** A `time` element; `datetime` is what `getAttribute('datetime')`
      returns (`None` for `null`, when the attribute is absent). */
  datatype TimeElement = TimeElement(datetime: Option<string>)

  /** An `article` element, as far as the callback looks at it. */
  datatype Article = Article(
    tweetText: Option<string>,
    innerText: string,
    time: Option<TimeElement>)

  /** The record pushed for one article; `timestamp == None` stands for
      `null`. */
  datatype Tweet = Tweet(text: string, timestamp: Option<string>, isMain: bool)

  /** `{ raw }` or `{ tweets }`. */
  datatype ScrapeResult = Raw(raw: string) | Tweets(tweets: seq<Tweet>)

  /** How many articles are turned into tweets. */
  const MaxTweets := 5
  /** How much of an article's text stands in for a missing tweet text. */
  const ArticleTextLimit := 1000
  /** How much of the page text is kept when there are no articles. */
  const RawTextLimit := 8000

  function Min(a: int, b: int): int { if a < b then a else b }

  /** The record the callback builds for the article at index `i`. */
  function TweetOf(a: Article, i: nat): Tweet
  {
    var text := if a.tweetText.Some? then a.tweetText.value else Prefix(a.innerText, ArticleTextLimit);
    var timestamp := if a.time.Some? then a.time.value.datetime else Some("");
    Tweet(text, timestamp, i == 0)
  }

  /** What the callback returns: the raw page text when there are no
      articles, and otherwise the records of the first five articles in
      document order. */
  function ScrapeOf(articles: seq<Article>, pageText: string): ScrapeResult
  {
    if |articles| == 0 then Raw(Prefix(pageText, RawTextLimit))
    else Tweets(seq(Min(|articles|, MaxTweets), i requires 0 <= i < Min(|articles|, MaxTweets) => TweetOf(articles[i], i)))
  }

  /** The callback itself: `forEach` over every article, returning early
      from the visit of each one past index 4, and pushing one record per
      visited article. */
  method Evaluate(articles: seq<Article>, pageText: string) returns (data: ScrapeResult)
    ensures data == ScrapeOf(articles, pageText)
    ensures |articles| == 0 <==> data.Raw?
    ensures data.Raw? ==> data.raw == Prefix(pageText, RawTextLimit)
    ensures data.Tweets? ==> |data.tweets| == Min(|articles|, MaxTweets)
    ensures data.Tweets? ==> forall i :: 0 <= i < |data.tweets| ==>
      && data.tweets[i].text == (if articles[i].tweetText.Some? then articles[i].tweetText.value
                                 else Prefix(articles[i].innerText, ArticleTextLimit))
      && data.tweets[i].timestamp == (if articles[i].time.Some? then articles[i].time.value.datetime else Some(""))
      && (data.tweets[i].isMain <==> i == 0)
  {
    if |articles| == 0 {
      return Raw(Prefix(pageText, RawTextLimit));
    }
    var tweets: seq<Tweet> := [];
    var i := 0;
    while i < |articles|
      invariant 0 <= i <= |articles|
      invariant |tweets| == Min(i, MaxTweets)
      invariant forall k :: 0 <= k < |tweets| ==> tweets[k] == TweetOf(articles[k], k)
    {
      if i <= 4 {
        var article := articles[i];
        var text := if article.tweetText.Some? then article.tweetText.value
                    else Prefix(article.innerText, ArticleTextLimit);
        var timestamp := if article.time.Some? then article.time.value.datetime else Some("");
        tweets := tweets + [Tweet(text, timestamp, i == 0)];
      }
      i := i + 1;
    }
    data := Tweets(tweets);
  }

  /** Articles past the fifth are visited but change nothing. */
  lemma {:induction false} ExtraArticlesIgnored(articles: seq<Article>, more: seq<Article>, pageText: string)
    requires |articles| >= MaxTweets
    ensures ScrapeOf(articles + more, pageText) == ScrapeOf(articles, pageText)
  {
    var ts := ScrapeOf(articles + more, pageText).tweets;
    var us := ScrapeOf(articles, pageText).tweets;
    assert |ts| == |us|;
    forall k | 0 <= k < |ts| ensures ts[k] == us[k] {
      assert (articles + more)[k] == articles[k];
    }
  }
}
