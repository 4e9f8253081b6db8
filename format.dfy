/**
 * `formatOutput` of fetch-tweet.js: the text printed for a scrape result.
 * A raw page text loses its "Don't miss what's happening … Sign up" promo
 * spans and is trimmed; tweet records become labelled blocks, built up
 * one tweet at a time.
 *
 * `new Date(ts).toLocaleString()` depends on the locale and time zone of
 * the machine; it is the parameter `localeString`.
 */
module Format {

  import opened Wrappers
  import opened JsString
  import opened Scrape

  const PromoStart := "Don't miss what's happening"
  const PromoEnd := "Sign up"
  const NoContent := "No content"
  const TweetHeader := "--- Tweet ---\n"

  // ------------------------------------------------------------------
  // The promo filter: `replace(/Don't miss what's happening.*?Sign up/gs, '')`
  //
  // The filter is written for any pair of markers, `start` and `stop`;
  // `StripPromo` is it for the two markers of the source.

  /** A match of `start.*?stop` in `s` (the `s` flag lets `.` match line
      breaks): `start` at `i`, and at `k` the first `stop` after it. The
      span removed is `s[i..k + |stop|]`. */
  ghost predicate Span(s: string, start: string, stop: string, i: int, k: int)
  {
    && 0 <= i
    && OccursAt(s, start, i)
    && i + |start| <= k
    && OccursAt(s, stop, k)
    && forall m :: i + |start| <= m < k ==> !OccursAt(s, stop, m)
  }

  ghost predicate HasSpan(s: string, start: string, stop: string)
  {
    exists i, k :: Span(s, start, stop, i, k)
  }

  /** Global replacement, scanning left to right: the leftmost `start` that
      has a `stop` after it, up to the first such `stop`, is cut out, and
      the scan resumes after it. */
  function CutSpans(s: string, start: string, stop: string): (r: string)
    requires start != []
    ensures |r| <= |s|
    decreases |s|
  {
    var i := IndexOf(s, start, 0);
    if i.None? then s
    else
      var k := IndexOf(s, stop, i.value + |start|);
      if k.None? then s
      else s[..i.value] + CutSpans(s[k.value + |stop|..], start, stop)
  }

  lemma {:induction false} CutSpansStep(s: string, start: string, stop: string, i: nat, k: nat)
    requires start != []
    requires IndexOf(s, start, 0) == Some(i)
    requires IndexOf(s, stop, i + |start|) == Some(k)
    ensures CutSpans(s, start, stop) == s[..i] + CutSpans(s[k + |stop|..], start, stop)
  {
  }

  /** A text without a span is left as it is. */
  lemma {:induction false} CutSpansNoSpan(s: string, start: string, stop: string)
    requires start != []
    requires !HasSpan(s, start, stop)
    ensures CutSpans(s, start, stop) == s
  {
    match IndexOf(s, start, 0)
    case None =>
    case Some(i) =>
      match IndexOf(s, stop, i + |start|)
      case None =>
      case Some(k) =>
        IndexOfSound(s, start, 0);
        IndexOfSound(s, stop, i + |start|);
        IndexOfFirst(s, stop, i + |start|);
        assert Span(s, start, stop, i, k);
        assert false;
  }

  /** The leftmost span is the first one cut out: what precedes it is
      kept, and the text after it is filtered in turn. */
  lemma {:induction false} CutSpansFirstSpan(s: string, start: string, stop: string, i: int, k: int)
    requires start != []
    requires Span(s, start, stop, i, k)
    requires forall i', k' :: Span(s, start, stop, i', k') ==> i <= i'
    ensures CutSpans(s, start, stop) == s[..i] + CutSpans(s[k + |stop|..], start, stop)
  {
    var i0 := IndexOf(s, start, 0);
    IndexOfFirst(s, start, 0);
    assert i0.Some? && i0.value <= i;
    IndexOfSound(s, start, 0);
    var k0 := IndexOf(s, stop, i0.value + |start|);
    IndexOfFirst(s, stop, i0.value + |start|);
    assert k0.Some? && k0.value <= k;
    IndexOfSound(s, stop, i0.value + |start|);
    assert Span(s, start, stop, i0.value, k0.value);
    assert i0.value == i;
    assert k0.value == k;
    CutSpansStep(s, start, stop, i, k);
  }

  /** Some text is removed exactly when there is a span. */
  lemma {:induction false} CutSpansShrinksIff(s: string, start: string, stop: string)
    requires start != []
    ensures |CutSpans(s, start, stop)| < |s| <==> HasSpan(s, start, stop)
    ensures CutSpans(s, start, stop) == s <==> !HasSpan(s, start, stop)
  {
    if HasSpan(s, start, stop) {
      var i :| exists k :: Span(s, start, stop, i, k);
      var k :| Span(s, start, stop, i, k);
      var i0 := IndexOf(s, start, 0);
      IndexOfFirst(s, start, 0);
      assert i0.Some? && i0.value <= i;
      var k0 := IndexOf(s, stop, i0.value + |start|);
      IndexOfFirst(s, stop, i0.value + |start|);
      assert k0.Some? && k0.value <= k;
      var rest := s[k0.value + |stop|..];
      CutSpansStep(s, start, stop, i0.value, k0.value);
      assert |CutSpans(rest, start, stop)| <= |rest|;
    } else {
      CutSpansNoSpan(s, start, stop);
    }
  }

  /** The filter of `formatOutput`. */
  function StripPromo(s: string): string
  {
    CutSpans(s, PromoStart, PromoEnd)
  }

  // ------------------------------------------------------------------
  // Tweet blocks

  /** The line that opens the block of tweet `i`. */
  function Header(i: nat): string
  {
    if i == 0 then TweetHeader else "\n--- Reply " + NatToString(i) + " ---\n"
  }

  /** `if (t.timestamp)`: `null` and the empty string are falsy. */
  predicate HasTime(t: Tweet)
  {
    t.timestamp.Some? && t.timestamp.value != ""
  }

  /** The `Time: …` line of a tweet, or nothing. */
  function TimeLine(t: Tweet, localeString: string -> string): string
  {
    if HasTime(t) then "Time: " + localeString(t.timestamp.value) + "\n" else ""
  }

  /** The block of tweet `t` at index `i`. */
  function Block(t: Tweet, i: nat, localeString: string -> string): string
  {
    Header(i) + TimeLine(t, localeString) + (t.text + "\n")
  }

  /** The blocks of the first `n` tweets, in order. */
  function Rendered(ts: seq<Tweet>, n: nat, localeString: string -> string): string
    requires n <= |ts|
  {
    if n == 0 then "" else Rendered(ts, n - 1, localeString) + Block(ts[n - 1], n - 1, localeString)
  }

  /** Appending the three parts of a block one after the other appends the
      block. */
  lemma {:induction false} BlockSplit(before: string, headed: string, timed: string, out: string,
                                      t: Tweet, i: nat, localeString: string -> string)
    requires headed == before + Header(i)
    requires timed == headed + TimeLine(t, localeString)
    requires out == timed + (t.text + "\n")
    ensures out == before + Block(t, i, localeString)
  {
  }

  lemma {:induction false} RenderedStep(ts: seq<Tweet>, i: nat, localeString: string -> string)
    requires i < |ts|
    ensures Rendered(ts, i + 1, localeString) == Rendered(ts, i, localeString) + Block(ts[i], i, localeString)
  {
  }

  /** What `formatOutput` returns. */
  function Formatted(data: ScrapeResult, localeString: string -> string): string
  {
    match data
    case Raw(r) => if r != "" then Trim(StripPromo(r)) else NoContent
    case Tweets(ts) => if |ts| == 0 then NoContent else Rendered(ts, |ts|, localeString)
  }

  /** The callback `formatOutput` passes to `forEach`: it appends the
      block of tweet `t` at index `i` to `out`. */
  method AppendBlock(out: string, t: Tweet, i: nat, localeString: string -> string) returns (r: string)
    ensures r == out + Block(t, i, localeString)
  {
    r := out + (if i == 0 then TweetHeader else "\n--- Reply " + NatToString(i) + " ---\n");
    ghost var headed := r;
    if t.timestamp.Some? && t.timestamp.value != "" {
      r := r + ("Time: " + localeString(t.timestamp.value) + "\n");
    }
    ghost var timed := r;
    r := r + (t.text + "\n");
    BlockSplit(out, headed, timed, r, t, i, localeString);
  }

  /** `formatOutput`: the raw branch, the "No content" guard, then one
      block per tweet. */
  method FormatOutput(data: ScrapeResult, localeString: string -> string) returns (out: string)
    ensures out == Formatted(data, localeString)
  {
    if data.Raw? && data.raw != "" {
      return Trim(StripPromo(data.raw));
    }
    if data.Raw? || |data.tweets| == 0 {
      return NoContent;
    }
    var ts := data.tweets;
    out := "";
    var i := 0;
    while i < |ts|
      invariant 0 <= i <= |ts|
      invariant out == Rendered(ts, i, localeString)
    {
      out := AppendBlock(out, ts[i], i, localeString);
      RenderedStep(ts, i, localeString);
      i := i + 1;
    }
  }

  // ------------------------------------------------------------------
  // Properties of the output

  lemma {:induction false} PrefixTrans(a: string, b: string, c: string)
    requires a <= b && b <= c
    ensures a <= c
  {
    assert c[..|b|][..|a|] == c[..|a|];
  }

  /** One more tweet appends to the text. */
  lemma {:induction false} RenderedGrows(ts: seq<Tweet>, n: nat, localeString: string -> string)
    requires 0 < n <= |ts|
    ensures Rendered(ts, n - 1, localeString) <= Rendered(ts, n, localeString)
  {
    var b := Rendered(ts, n - 1, localeString);
    var c := Block(ts[n - 1], n - 1, localeString);
    assert Rendered(ts, n, localeString) == b + c;
    assert (b + c)[..|b|] == b;
  }

  /** The text of fewer tweets is a prefix of the text of more. */
  lemma {:induction false} RenderedPrefix(ts: seq<Tweet>, m: nat, n: nat, localeString: string -> string)
    requires m <= n <= |ts|
    ensures Rendered(ts, m, localeString) <= Rendered(ts, n, localeString)
    decreases n
  {
    if m < n {
      RenderedPrefix(ts, m, n - 1, localeString);
      RenderedGrows(ts, n, localeString);
      PrefixTrans(Rendered(ts, m, localeString), Rendered(ts, n - 1, localeString), Rendered(ts, n, localeString));
    }
  }

  /** Block `i` sits right after the blocks before it. */
  lemma {:induction false} RenderedBlockAt(ts: seq<Tweet>, i: nat, localeString: string -> string)
    requires i < |ts|
    ensures Rendered(ts, i, localeString) + Block(ts[i], i, localeString) <= Rendered(ts, |ts|, localeString)
  {
    RenderedPrefix(ts, i + 1, |ts|, localeString);
  }

  /** A non-empty raw page text comes back filtered, then stripped of
      whitespace at both ends. */
  lemma {:induction false} RawFormatted(r: string, localeString: string -> string)
    requires r != ""
    ensures var out := Formatted(Raw(r), localeString);
      && Trimmed(out)
      && exists lead, trail :: AllWhitespace(lead) && AllWhitespace(trail) && StripPromo(r) == lead + out + trail
  {
  }

  /** "No content" exactly for an empty raw text and for no tweets. */
  lemma {:induction false} NoContentCases(data: ScrapeResult, localeString: string -> string)
    ensures (data == Raw("") || data == Tweets([])) ==> Formatted(data, localeString) == NoContent
  {
  }

  /** The text for one or more tweets opens with the tweet header and ends
      with a newline (so it is never "No content"). */
  lemma {:induction false} TweetsFormatted(ts: seq<Tweet>, localeString: string -> string)
    requires |ts| >= 1
    ensures var out := Formatted(Tweets(ts), localeString);
      && StartsWith(out, TweetHeader)
      && out[|out| - 1] == '\n'
      && out != NoContent
  {
    var out := Formatted(Tweets(ts), localeString);
    RenderedPrefix(ts, 1, |ts|, localeString);
    assert Rendered(ts, 1, localeString) == Block(ts[0], 0, localeString);
    assert out[..|TweetHeader|] == TweetHeader;
    assert out[0] == '-';
  }

  lemma {:induction false} TwoTweets(ts: seq<Tweet>, localeString: string -> string)
    requires |ts| == 2
    ensures Formatted(Tweets(ts), localeString) == Block(ts[0], 0, localeString) + Block(ts[1], 1, localeString)
  {
    assert Rendered(ts, 1, localeString) == Block(ts[0], 0, localeString);
  }

  lemma {:induction false} DatedTweetBlock(a: string, when: string, localeString: string -> string)
    requires when != ""
    ensures Block(Tweet(a, Some(when), true), 0, localeString) == "--- Tweet ---\nTime: " + localeString(when) + "\n" + a + "\n"
  {
  }

  lemma {:induction false} UndatedReplyBlock(b: string, localeString: string -> string)
    ensures Block(Tweet(b, Some(""), false), 1, localeString) == "\n--- Reply 1 ---\n" + b + "\n"
  {
    assert NatToString(1) == "1";
  }

  /** A post with a dated tweet and an undated reply: a tweet block with
      its time line, then a reply block headed with its index. */
  lemma {:induction false} PostAndReplyExample(a: string, b: string, when: string,
                                               localeString: string -> string)
    requires when != ""
    ensures Formatted(Tweets([Tweet(a, Some(when), true), Tweet(b, Some(""), false)]), localeString)
      == "--- Tweet ---\nTime: " + localeString(when) + "\n" + a + "\n" + ("\n--- Reply 1 ---\n" + b + "\n")
  {
    TwoTweets([Tweet(a, Some(when), true), Tweet(b, Some(""), false)], localeString);
    DatedTweetBlock(a, when, localeString);
    UndatedReplyBlock(b, localeString);
  }

  /** A page without articles prints its filtered, trimmed text, or
      "No content" when the page text is empty. */
  lemma {:induction false} PageWithoutArticles(pageText: string, localeString: string -> string)
    ensures Formatted(ScrapeOf([], pageText), localeString)
      == if pageText == "" then NoContent else Trim(StripPromo(Prefix(pageText, RawTextLimit)))
  {
  }

  /** A page with articles prints one block per kept article, the first
      one headed as the tweet, in document order: block `i` comes right
      after the blocks of the articles before it. */
  lemma {:induction false} PageWithArticles(articles: seq<Article>, pageText: string,
                                            localeString: string -> string)
    requires |articles| >= 1
    ensures var ts := ScrapeOf(articles, pageText).tweets;
      var out := Formatted(ScrapeOf(articles, pageText), localeString);
      && StartsWith(out, TweetHeader)
      && out[|out| - 1] == '\n'
      && forall i :: 0 <= i < |ts| ==>
           Rendered(ts, i, localeString) + Block(TweetOf(articles[i], i), i, localeString) <= out
  {
    var ts := ScrapeOf(articles, pageText).tweets;
    var out := Formatted(ScrapeOf(articles, pageText), localeString);
    assert out == Rendered(ts, |ts|, localeString);
    TweetsFormatted(ts, localeString);
    forall i | 0 <= i < |ts|
      ensures Rendered(ts, i, localeString) + Block(TweetOf(articles[i], i), i, localeString) <= out
    {
      RenderedBlockAt(ts, i, localeString);
    }
  }
}
