/**
 * `extractXLink` (webhook.js): the first substring of a text of the shape
 *   http[s]://(x.com|twitter.com)/<handle>/status/<id>
 * with a non-empty handle over [A-Za-z0-9_] and a non-empty decimal id,
 * written as a hand-made matcher rather than a regular expression.
 *
 * The declarative side is `IsLink`: a string is a link when it is the
 * rendering of a well-formed `Link` record. The matcher `ParseAt` says
 * whether a link starts at an index and, like the greedy regular
 * expression, extends the handle and the id as far as they go; `Extract`
 * takes the leftmost start. The theorems at the end tie the two sides:
 * `Extract` finds nothing exactly when no substring is a link, and
 * otherwise returns the leftmost, and at that start the longest, link.
 */
module XLink {

  import opened Wrappers
  import opened JsString

  datatype Host = X | Twitter

  /** Scheme (http or https), host, handle and status id of a post link. */
  datatype Link = Link(secure: bool, host: Host, handle: string, id: string)

  predicate IsHandleChar(c: char)
  {
    ('A' <= c <= 'Z') || ('a' <= c <= 'z') || ('0' <= c <= '9') || c == '_'
  }

  predicate IsDigit(c: char)
  {
    '0' <= c <= '9'
  }

  /** A digit stands at index `e` of `s`. */
  predicate DigitAt(s: string, e: int)
  {
    0 <= e < |s| && IsDigit(s[e])
  }

  ghost predicate AllOf(s: string, p: char -> bool)
  {
    forall i :: 0 <= i < |s| ==> p(s[i])
  }

  function SchemeText(secure: bool): string
  {
    if secure then "https://" else "http://"
  }

  function HostName(h: Host): string
  {
    match h
    case X => "x.com"
    case Twitter => "twitter.com"
  }

  ghost predicate WellFormed(l: Link)
  {
    && |l.handle| > 0 && AllOf(l.handle, IsHandleChar)
    && |l.id| > 0 && AllOf(l.id, IsDigit)
  }

  function PathText(handle: string, id: string): string
  {
    "/" + handle + "/status/" + id
  }

  /** The text of a link, as it appears in a message. */
  function Render(l: Link): string
  {
    SchemeText(l.secure) + HostName(l.host) + PathText(l.handle, l.id)
  }

  /** `t` is, as a whole, a string the link pattern matches. */
  ghost predicate IsLink(t: string)
  {
    exists l :: WellFormed(l) && Render(l) == t
  }

  /** The substring `s[i..j]` is a link. */
  ghost predicate LinkAt(s: string, i: int, j: int)
  {
    0 <= i <= j <= |s| && IsLink(s[i..j])
  }

  ghost predicate ContainsLink(s: string)
  {
    exists i, j :: LinkAt(s, i, j)
  }

  /** `s[i..j]` is the link the source returns: no link starts before `i`,
      and no longer link starts at `i`. */
  ghost predicate LeftmostLongest(s: string, i: int, j: int)
  {
    && LinkAt(s, i, j)
    && (forall i', j' :: LinkAt(s, i', j') ==> i <= i')
    && (forall j' :: LinkAt(s, i, j') ==> j' <= j)
  }

  // ------------------------------------------------------------------
  // The matcher

  /** The end of the run of characters satisfying `p` that begins at `i`. */
  function RunEnd(s: string, i: nat, p: char -> bool): (j: nat)
    requires i <= |s|
    ensures i <= j <= |s|
    ensures AllOf(s[i..j], p)
    ensures j == |s| || !p(s[j])
    decreases |s| - i
  {
    if i < |s| && p(s[i]) then RunEnd(s, i + 1, p) else i
  }

  /** Which scheme starts at `i`: `https?://` tries the `s` first. */
  function SchemeAt(s: string, i: nat): (r: Option<bool>)
    ensures r.Some? ==> OccursAt(s, SchemeText(r.value), i)
  {
    if OccursAt(s, "https://", i) then Some(true)
    else if OccursAt(s, "http://", i) then Some(false)
    else None
  }

  function HostAt(s: string, k: nat): (r: Option<Host>)
    ensures r.Some? ==> OccursAt(s, HostName(r.value), k)
  {
    if OccursAt(s, "x.com", k) then Some(X)
    else if OccursAt(s, "twitter.com", k) then Some(Twitter)
    else None
  }

  /** The rest of a link from index `k`: `/`, a maximal handle run,
      `/status/` and a maximal digit run; gives the handle and the id. */
  function PathAt(s: string, k: nat): Option<(string, string)>
  {
    if !OccursAt(s, "/", k) then None
    else
      var he := RunEnd(s, k + 1, IsHandleChar);
      if he == k + 1 || !OccursAt(s, "/status/", he) then None
      else
        var ie := RunEnd(s, he + 8, IsDigit);
        if ie == he + 8 then None
        else Some((s[k + 1..he], s[he + 8..ie]))
  }

  /** The link that starts at index `i` of `s`, with its handle and its id
      extended as far as they go, or None. Whatever it returns is a
      well-formed link that occurs at `i` and is not followed by a digit. */
  function ParseAt(s: string, i: nat): (r: Option<Link>)
    requires i <= |s|
    ensures r.Some? ==> WellFormed(r.value) && OccursAt(s, Render(r.value), i)
    ensures r.Some? ==> !DigitAt(s, i + |Render(r.value)|)
  {
    match SchemeAt(s, i)
    case None => None
    case Some(secure) =>
      var k := i + |SchemeText(secure)|;
      match HostAt(s, k)
      case None => None
      case Some(host) =>
        var k2 := k + |HostName(host)|;
        match PathAt(s, k2)
        case None => None
        case Some(path) =>
          PiecesSound(s, i, k, k2, secure, host, path.0, path.1);
          Some(Link(secure, host, path.0, path.1))
  }

  /** The leftmost index at or after `from` where a link starts. */
  function Find(s: string, from: nat): (r: Option<nat>)
    requires from <= |s|
    ensures r.Some? ==> from <= r.value <= |s| && ParseAt(s, r.value).Some?
    ensures forall k :: from <= k <= |s| && (r.None? || k < r.value) ==> ParseAt(s, k).None?
    decreases |s| - from
  {
    if ParseAt(s, from).Some? then Some(from)
    else if from == |s| then None
    else Find(s, from + 1)
  }

  /** `extractXLink`: the matched substring, or None for `null`. */
  function Extract(s: string): Option<string>
  {
    match Find(s, 0)
    case None => None
    case Some(i) => Some(Render(ParseAt(s, i).value))
  }

  // ------------------------------------------------------------------
  // Lemmas about the matcher
  //
  // Positions inside a link are passed as parameters tied to their
  // definitions by an equation, so that every fact about a position is
  // stated about the same term.

  lemma {:induction false} SliceConcat(s: string, a: nat, b: nat, c: nat)
    requires a <= b <= c <= |s|
    ensures s[a..b] + s[b..c] == s[a..c]
  {
  }

  lemma {:induction false} RunEndExact(s: string, i: nat, j: nat, p: char -> bool)
    requires i <= j <= |s|
    requires AllOf(s[i..j], p)
    requires j == |s| || !p(s[j])
    ensures RunEnd(s, i, p) == j
    decreases j - i
  {
    if i < j {
      assert p(s[i]) by { assert s[i..j][0] == s[i]; }
      assert s[i + 1..j] == s[i..j][1..];
      RunEndExact(s, i + 1, j, p);
    }
  }

  lemma {:induction false} RunEndAtLeast(s: string, i: nat, j: nat, p: char -> bool)
    requires i <= j <= |s|
    requires AllOf(s[i..j], p)
    ensures RunEnd(s, i, p) >= j
    decreases j - i
  {
    if i < j {
      assert p(s[i]) by { assert s[i..j][0] == s[i]; }
      assert s[i + 1..j] == s[i..j][1..];
      RunEndAtLeast(s, i + 1, j, p);
    }
  }

  /** `a` at `i` followed by `b` at `j` is `a + b` at `i`. */
  lemma {:induction false} OccursConcat(s: string, a: string, b: string, i: nat, j: nat)
    requires j == i + |a| && OccursAt(s, a, i) && OccursAt(s, b, j)
    ensures OccursAt(s, a + b, i)
  {
    SliceConcat(s, i, j, j + |b|);
  }

  lemma {:induction false} OccursSplit(s: string, a: string, b: string, i: nat, j: nat)
    requires j == i + |a| && OccursAt(s, a + b, i)
    ensures OccursAt(s, a, i) && OccursAt(s, b, j)
  {
    assert s[i..j] == (a + b)[..|a|];
    assert s[j..j + |b|] == (a + b)[|a|..];
  }

  /** What `PathAt` finds is a handle and an id that, as a path, occur at
      `k` and are not followed by a digit. */
  lemma {:induction false} PathAtSound(s: string, k: nat, h: string, d: string)
    requires k <= |s| && PathAt(s, k) == Some((h, d))
    ensures |h| > 0 && AllOf(h, IsHandleChar) && |d| > 0 && AllOf(d, IsDigit)
    ensures OccursAt(s, PathText(h, d), k)
    ensures !DigitAt(s, k + |PathText(h, d)|)
  {
    var he := RunEnd(s, k + 1, IsHandleChar);
    var ie := RunEnd(s, he + 8, IsDigit);
    assert h == s[k + 1..he] && d == s[he + 8..ie];
    OccursConcat(s, "/", h, k, k + 1);
    OccursConcat(s, "/" + h, "/status/", k, he);
    OccursConcat(s, "/" + h + "/status/", d, k, he + 8);
    assert k + |PathText(h, d)| == ie;
  }

  /** The three pieces of a link, laid end to end, make the link. */
  lemma {:induction false} RenderOccurs(s: string, i: nat, k: nat, k2: nat, l: Link)
    requires k == i + |SchemeText(l.secure)| && k2 == k + |HostName(l.host)|
    requires OccursAt(s, SchemeText(l.secure), i)
    requires OccursAt(s, HostName(l.host), k)
    requires OccursAt(s, PathText(l.handle, l.id), k2)
    ensures OccursAt(s, Render(l), i)
    ensures i + |Render(l)| == k2 + |PathText(l.handle, l.id)|
  {
    OccursConcat(s, SchemeText(l.secure), HostName(l.host), i, k);
    OccursConcat(s, SchemeText(l.secure) + HostName(l.host), PathText(l.handle, l.id), i, k2);
  }

  /** The converse of `RenderOccurs`. */
  lemma {:induction false} RenderSplits(s: string, i: nat, k: nat, k2: nat, l: Link)
    requires k == i + |SchemeText(l.secure)| && k2 == k + |HostName(l.host)|
    requires OccursAt(s, Render(l), i)
    ensures OccursAt(s, SchemeText(l.secure), i)
    ensures OccursAt(s, HostName(l.host), k)
    ensures OccursAt(s, PathText(l.handle, l.id), k2)
    ensures i + |Render(l)| == k2 + |PathText(l.handle, l.id)|
  {
    OccursSplit(s, SchemeText(l.secure) + HostName(l.host), PathText(l.handle, l.id), i, k2);
    OccursSplit(s, SchemeText(l.secure), HostName(l.host), i, k);
  }

  /** A scheme, a host and a path found one after the other form a
      well-formed link, not followed by a digit. */
  lemma {:induction false} PiecesSound(s: string, i: nat, k: nat, k2: nat, secure: bool, host: Host, h: string, d: string)
    requires SchemeAt(s, i) == Some(secure) && k == i + |SchemeText(secure)|
    requires HostAt(s, k) == Some(host) && k2 == k + |HostName(host)|
    requires PathAt(s, k2) == Some((h, d))
    ensures WellFormed(Link(secure, host, h, d))
    ensures OccursAt(s, Render(Link(secure, host, h, d)), i)
    ensures !DigitAt(s, i + |Render(Link(secure, host, h, d))|)
  {
    PathAtSound(s, k2, h, d);
    RenderOccurs(s, i, k, k2, Link(secure, host, h, d));
  }

  /** `ParseAt` assembles what `SchemeAt`, `HostAt` and `PathAt` find one
      after the other. */
  lemma {:induction false} ParseAtOfPieces(s: string, i: nat, k: nat, k2: nat, secure: bool, host: Host)
    requires i <= |s|
    requires SchemeAt(s, i) == Some(secure) && k == i + |SchemeText(secure)|
    requires HostAt(s, k) == Some(host) && k2 == k + |HostName(host)|
    requires k2 <= |s| && PathAt(s, k2).Some?
    ensures ParseAt(s, i) == Some(Link(secure, host, PathAt(s, k2).value.0, PathAt(s, k2).value.1))
  {
    assert SchemeAt(s, i).value == secure && HostAt(s, k).value == host;
  }

  lemma {:induction false} SchemeAtComplete(s: string, i: nat, secure: bool)
    requires OccursAt(s, SchemeText(secure), i)
    ensures SchemeAt(s, i) == Some(secure)
  {
    if !secure {
      assert s[i + 4] == ':' by { assert s[i..i + 7][4] == s[i + 4]; }
      assert i + 8 > |s| || s[i..i + 8][4] == ':';
    }
  }

  lemma {:induction false} HostAtComplete(s: string, k: nat, h: Host)
    requires OccursAt(s, HostName(h), k)
    ensures HostAt(s, k) == Some(h)
  {
    if h == Twitter {
      assert s[k] == 't' by { assert s[k..k + 11][0] == s[k]; }
      assert k + 5 > |s| || s[k..k + 5][0] == 't';
    }
  }

  /** Where a path occurs, `PathAt` finds its handle whole and an id that
      extends its id. */
  lemma {:induction false} PathAtComplete(s: string, k: nat, h: string, d: string)
    requires |h| > 0 && AllOf(h, IsHandleChar) && |d| > 0 && AllOf(d, IsDigit)
    requires OccursAt(s, PathText(h, d), k)
    ensures PathAt(s, k).Some?
    ensures PathAt(s, k).value.0 == h
    ensures var d' := PathAt(s, k).value.1; |d'| >= |d| && d'[..|d|] == d
  {
    var he := k + 1 + |h|;
    OccursSplit(s, "/" + h + "/status/", d, k, he + 8);
    OccursSplit(s, "/" + h, "/status/", k, he);
    OccursSplit(s, "/", h, k, k + 1);
    assert !IsHandleChar(s[he]) by { assert s[he..he + 8][0] == s[he]; }
    RunEndExact(s, k + 1, he, IsHandleChar);
    RunEndAtLeast(s, he + 8, he + 8 + |d|, IsDigit);
    var ie := RunEnd(s, he + 8, IsDigit);
    assert s[he + 8..ie][..|d|] == s[he + 8..he + 8 + |d|];
  }

  /** Where a path occurs and no digit follows it, `PathAt` finds exactly
      its handle and its id. */
  lemma {:induction false} PathAtExact(s: string, k: nat, h: string, d: string)
    requires |h| > 0 && AllOf(h, IsHandleChar) && |d| > 0 && AllOf(d, IsDigit)
    requires OccursAt(s, PathText(h, d), k)
    requires !DigitAt(s, k + |PathText(h, d)|)
    ensures PathAt(s, k) == Some((h, d))
  {
    var he := k + 1 + |h|;
    OccursSplit(s, "/" + h + "/status/", d, k, he + 8);
    OccursSplit(s, "/" + h, "/status/", k, he);
    OccursSplit(s, "/", h, k, k + 1);
    assert !IsHandleChar(s[he]) by { assert s[he..he + 8][0] == s[he]; }
    RunEndExact(s, k + 1, he, IsHandleChar);
    assert k + |PathText(h, d)| == he + 8 + |d|;
    RunEndExact(s, he + 8, he + 8 + |d|, IsDigit);
  }

  /** Where a link occurs, `SchemeAt` and `HostAt` find its scheme and
      host, and its path follows them. */
  lemma {:induction false} LinkPiecesFound(s: string, i: nat, k: nat, k2: nat, l: Link)
    requires OccursAt(s, Render(l), i)
    requires k == i + |SchemeText(l.secure)| && k2 == k + |HostName(l.host)|
    ensures SchemeAt(s, i) == Some(l.secure) && HostAt(s, k) == Some(l.host) && k2 <= |s|
    ensures OccursAt(s, PathText(l.handle, l.id), k2)
    ensures k2 + |PathText(l.handle, l.id)| == i + |Render(l)|
  {
    RenderSplits(s, i, k, k2, l);
    SchemeAtComplete(s, i, l.secure);
    HostAtComplete(s, k, l.host);
  }

  /** A well-formed link that occurs at `i` and is not followed by a digit
      is exactly what `ParseAt` finds there. */
  lemma {:induction false} ParseAtExact(s: string, i: nat, l: Link)
    requires i <= |s| && WellFormed(l) && OccursAt(s, Render(l), i)
    requires !DigitAt(s, i + |Render(l)|)
    ensures ParseAt(s, i) == Some(l)
  {
    var k := i + |SchemeText(l.secure)|;
    var k2 := k + |HostName(l.host)|;
    LinkPiecesFound(s, i, k, k2, l);
    PathAtExact(s, k2, l.handle, l.id);
    ParseAtOfPieces(s, i, k, k2, l.secure, l.host);
  }

  /** A link that occurs at `i` is found by `ParseAt`, with the same
      scheme, host and handle, and an id that extends the given one. */
  lemma {:induction false} ParseAtComplete(s: string, i: nat, l: Link)
    requires i <= |s| && WellFormed(l) && OccursAt(s, Render(l), i)
    ensures ParseAt(s, i).Some?
    ensures var l' := ParseAt(s, i).value;
      l'.secure == l.secure && l'.host == l.host && l'.handle == l.handle
      && |l'.id| >= |l.id| && l'.id[..|l.id|] == l.id
  {
    var k := i + |SchemeText(l.secure)|;
    var k2 := k + |HostName(l.host)|;
    LinkPiecesFound(s, i, k, k2, l);
    PathAtComplete(s, k2, l.handle, l.id);
    ParseAtOfPieces(s, i, k, k2, l.secure, l.host);
  }

  /** A link found at `i` is a link in the sense of `IsLink`. */
  lemma {:induction false} ParseAtLinkAt(s: string, i: nat)
    requires i <= |s| && ParseAt(s, i).Some?
    ensures LinkAt(s, i, i + |Render(ParseAt(s, i).value)|)
  {
  }

  /** Every link that starts at `i` ends no later than the one `ParseAt` finds. */
  lemma {:induction false} LinkAtBound(s: string, i: int, j: int)
    requires LinkAt(s, i, j)
    ensures ParseAt(s, i).Some?
    ensures j <= i + |Render(ParseAt(s, i).value)|
  {
    var l :| WellFormed(l) && Render(l) == s[i..j];
    ParseAtComplete(s, i, l);
    var l' := ParseAt(s, i).value;
    assert |Render(l')| - |Render(l)| == |l'.id| - |l.id|;
  }

  // ------------------------------------------------------------------
  // The theorems about extractXLink

  /** `extractXLink` returns null exactly when no substring is a link. */
  lemma {:induction false} ExtractNoneIff(s: string)
    ensures Extract(s).None? <==> !ContainsLink(s)
  {
    if Extract(s).None? {
      forall i, j | LinkAt(s, i, j) ensures false {
        LinkAtBound(s, i, j);
      }
    } else {
      var i := Find(s, 0).value;
      ParseAtLinkAt(s, i);
    }
  }

  /** When `extractXLink` succeeds, its result is the substring `s[i..j]`
      where `i` is the leftmost start of a link and `j` the end of the
      longest link starting there; that link is not followed by a digit. */
  lemma {:induction false} ExtractSome(s: string)
    requires Extract(s).Some?
    ensures exists i, j :: LeftmostLongest(s, i, j) && Extract(s).value == s[i..j]
    ensures forall i, j :: LeftmostLongest(s, i, j) ==> Extract(s).value == s[i..j] && (j == |s| || !IsDigit(s[j]))
  {
    var i := Find(s, 0).value;
    var j := i + |Render(ParseAt(s, i).value)|;
    FoundIsLeftmostLongest(s, i, j);
    forall i', j' | LeftmostLongest(s, i', j') ensures i' == i && j' == j {
      LeftmostLongestUnique(s, i, j, i', j');
    }
  }

  /** Where `Find` stops, `ParseAt` finds the leftmost-longest link. */
  lemma {:induction false} FoundIsLeftmostLongest(s: string, i: nat, j: int)
    requires Find(s, 0) == Some(i)
    requires j == i + |Render(ParseAt(s, i).value)|
    ensures LeftmostLongest(s, i, j)
  {
    ParseAtLinkAt(s, i);
    FoundIsLeftmost(s, i);
    FoundIsLongest(s, i, j);
  }

  /** No link starts before the index `Find` returns. */
  lemma {:induction false} FoundIsLeftmost(s: string, i: nat)
    requires Find(s, 0) == Some(i)
    ensures forall i', j' :: LinkAt(s, i', j') ==> i <= i'
  {
    forall i', j' | LinkAt(s, i', j') ensures i <= i' {
      LinkAtBound(s, i', j');
    }
  }

  /** No link starting at `i` is longer than the one `ParseAt` finds. */
  lemma {:induction false} FoundIsLongest(s: string, i: nat, j: int)
    requires i <= |s| && ParseAt(s, i).Some?
    requires j == i + |Render(ParseAt(s, i).value)|
    ensures forall j' :: LinkAt(s, i, j') ==> j' <= j
  {
    forall j' | LinkAt(s, i, j') ensures j' <= j {
      LinkAtBound(s, i, j');
    }
  }

  /** There is at most one leftmost-longest link. */
  lemma {:induction false} LeftmostLongestUnique(s: string, i: int, j: int, i': int, j': int)
    requires LeftmostLongest(s, i, j) && LeftmostLongest(s, i', j')
    ensures i == i' && j == j'
  {
  }

  /** The converse: the leftmost-longest link of `s`, when there is one,
      is what `extractXLink` returns. */
  lemma {:induction false} LeftmostLongestExtracted(s: string, i: int, j: int)
    requires LeftmostLongest(s, i, j)
    ensures Extract(s) == Some(s[i..j])
  {
    ExtractNoneIff(s);
    ExtractSome(s);
  }

  /** No link starts at `k` when neither of the places where its `:`
      would stand holds one. */
  lemma {:induction false} NoColonNoLink(s: string, k: nat)
    requires k <= |s|
    requires k + 5 < |s| ==> s[k + 4] != ':' && s[k + 5] != ':'
    ensures ParseAt(s, k).None?
  {
    assert k + 8 > |s| || s[k..k + 8][5] == s[k + 5];
    assert k + 7 > |s| || s[k..k + 7][4] == s[k + 4];
  }

  /** A message with a link in the middle of it. */
  lemma {:induction false} ExtractExample(text: string)
    requires text == "check this out https://x.com/user/status/123456 thanks"
    ensures Extract(text) == Some("https://x.com/user/status/123456")
  {
    ExampleText();
    ExtractExampleParts(text, "check this out ", "https://x.com/user/status/123456", " thanks");
  }

  lemma {:induction false} ExtractExampleParts(s: string, p: string, link: string, q: string)
    requires p == "check this out " && link == "https://x.com/user/status/123456" && q == " thanks"
    requires s == p + link + q
    ensures Extract(s) == Some(link)
  {
    ExampleLinkAt(s, p, link, q);
    ExampleNothingBefore(s, p, link, q);
    assert Find(s, 0) == Some(15);
  }

  lemma {:induction false} ExampleLinkAt(s: string, p: string, link: string, q: string)
    requires p == "check this out " && link == "https://x.com/user/status/123456" && q == " thanks"
    requires s == p + link + q
    ensures |s| > 15 && ParseAt(s, 15) == Some(Link(true, X, "user", "123456"))
    ensures Render(Link(true, X, "user", "123456")) == link
  {
    var l := Link(true, X, "user", "123456");
    assert Render(l) == link && WellFormed(l);
    assert OccursAt(s, link, 15) && !DigitAt(s, 47) by {
      assert s[..47] == p + link;
      assert (p + link)[15..] == link;
      assert s[47] == ' ';
    }
    ParseAtExact(s, 15, l);
  }

  lemma {:induction false} ExampleNothingBefore(s: string, p: string, link: string, q: string)
    requires p == "check this out " && link == "https://x.com/user/status/123456" && q == " thanks"
    requires s == p + link + q
    ensures forall k :: 0 <= k < 15 ==> ParseAt(s, k).None?
  {
    assert link[..5] == "https";
    forall m | 0 <= m < 20 ensures s[m] != ':' {
      if m < 15 {
        assert s[m] == p[m] && p[m] in p;
      } else {
        assert s[m] == link[..5][m - 15];
      }
    }
    forall k | 0 <= k < 15 ensures ParseAt(s, k).None? {
      NoColonNoLink(s, k);
    }
  }

  lemma {:induction false} ExampleText()
    ensures "check this out https://x.com/user/status/123456 thanks"
      == "check this out " + "https://x.com/user/status/123456" + " thanks"
  {
  }

  /** A link, searched for in itself, is found whole. */
  lemma {:induction false} LinkExtractsItself(r: string)
    requires IsLink(r)
    ensures Extract(r) == Some(r)
  {
    assert r[0..|r|] == r;
    assert LeftmostLongest(r, 0, |r|);
    LeftmostLongestExtracted(r, 0, |r|);
  }

  /** `extractXLink` of its own result returns that result; every result
      starts with `http` and ends in a digit. */
  lemma {:induction false} ExtractIdempotent(s: string)
    requires Extract(s).Some?
    ensures Extract(Extract(s).value) == Extract(s)
    ensures StartsWith(Extract(s).value, "http")
    ensures var r := Extract(s).value; |r| > 0 && IsDigit(r[|r| - 1])
  {
    var l := ParseAt(s, Find(s, 0).value).value;
    LinkShape(l);
    assert IsLink(Render(l));
    LinkExtractsItself(Render(l));
  }

  /** The text of a well-formed link starts with `http` and ends in a digit. */
  lemma {:induction false} LinkShape(l: Link)
    requires WellFormed(l)
    ensures StartsWith(Render(l), "http")
    ensures |Render(l)| > 0 && IsDigit(Render(l)[|Render(l)| - 1])
  {
    var r := Render(l);
    assert r[..4] == "http";
    assert r[|r| - 1] == l.id[|l.id| - 1];
  }

  // ------------------------------------------------------------------
  // Surrounding whitespace does not change the result

  ghost predicate NoWhitespace(s: string)
  {
    forall k :: 0 <= k < |s| ==> !IsWhitespace(s[k])
  }

  lemma {:induction false} NoWhitespaceConcat(a: string, b: string)
    requires NoWhitespace(a) && NoWhitespace(b)
    ensures NoWhitespace(a + b)
  {
    forall k | 0 <= k < |a + b| ensures !IsWhitespace((a + b)[k]) {
      if k < |a| {
        assert (a + b)[k] == a[k];
      } else {
        assert (a + b)[k] == b[k - |a|];
      }
    }
  }

  lemma {:induction false} LiteralsHaveNoWhitespace(secure: bool, host: Host)
    ensures NoWhitespace(SchemeText(secure)) && NoWhitespace(HostName(host))
    ensures NoWhitespace("/") && NoWhitespace("/status/")
  {
  }

  lemma {:induction false} RunHasNoWhitespace(s: string, p: char -> bool)
    requires AllOf(s, p)
    requires forall c :: p(c) ==> !IsWhitespace(c)
    ensures NoWhitespace(s)
  {
    forall k | 0 <= k < |s| ensures !IsWhitespace(s[k]) {
      assert p(s[k]);
    }
  }

  /** A link is not empty and holds no whitespace character. */
  lemma {:induction false} LinkHasNoWhitespace(t: string)
    requires IsLink(t)
    ensures |t| > 0 && NoWhitespace(t)
  {
    var l :| WellFormed(l) && Render(l) == t;
    LiteralsHaveNoWhitespace(l.secure, l.host);
    RunHasNoWhitespace(l.handle, IsHandleChar);
    RunHasNoWhitespace(l.id, IsDigit);
    assert NoWhitespace(PathText(l.handle, l.id)) by {
      NoWhitespaceConcat("/", l.handle);
      NoWhitespaceConcat("/" + l.handle, "/status/");
      NoWhitespaceConcat("/" + l.handle + "/status/", l.id);
    }
    NoWhitespaceConcat(SchemeText(l.secure), HostName(l.host));
    NoWhitespaceConcat(SchemeText(l.secure) + HostName(l.host), PathText(l.handle, l.id));
  }

  lemma {:induction false} SliceFramed(u: string, t: string, w: string, i: int, j: int)
    requires 0 <= i <= j <= |t|
    ensures (u + t + w)[i + |u|..j + |u|] == t[i..j]
  {
    var s := u + t + w;
    assert s[|u|..|u| + |t|] == t;
    assert s[i + |u|..j + |u|] == s[|u|..|u| + |t|][i..j];
  }

  /** A non-whitespace character of `u + t + w`, with whitespace `u` and
      `w`, lies inside `t`. */
  lemma {:induction false} InsideFrame(u: string, t: string, w: string, k: int)
    requires AllWhitespace(u) && AllWhitespace(w)
    requires 0 <= k < |u + t + w| && !IsWhitespace((u + t + w)[k])
    ensures |u| <= k < |u| + |t|
  {
    var s := u + t + w;
    forall k' | 0 <= k' < |u| ensures IsWhitespace(s[k']) {
      assert s[k'] == u[k'];
    }
    forall k' | |u| + |t| <= k' < |s| ensures IsWhitespace(s[k']) {
      assert s[k'] == w[k' - |u| - |t|];
    }
  }

  /** A link inside `u + t + w`, with whitespace `u` and `w`, lies inside `t`. */
  lemma {:induction false} LinkInFrame(u: string, t: string, w: string, i: int, j: int)
    requires AllWhitespace(u) && AllWhitespace(w) && LinkAt(u + t + w, i, j)
    ensures |u| <= i && j <= |u| + |t| && LinkAt(t, i - |u|, j - |u|)
  {
    var s := u + t + w;
    LinkHasNoWhitespace(s[i..j]);
    assert !IsWhitespace(s[i]) by { assert s[i..j][0] == s[i]; }
    InsideFrame(u, t, w, i);
    assert !IsWhitespace(s[j - 1]) by { assert s[i..j][j - 1 - i] == s[j - 1]; }
    InsideFrame(u, t, w, j - 1);
    SliceFramed(u, t, w, i - |u|, j - |u|);
  }

  /** A link inside `t` is one inside `u + t + w`, shifted by `|u|`. */
  lemma {:induction false} LinkIntoFrame(u: string, t: string, w: string, i: int, j: int)
    requires LinkAt(t, i, j)
    ensures LinkAt(u + t + w, i + |u|, j + |u|)
  {
    SliceFramed(u, t, w, i, j);
  }

  /** The leftmost-longest link of `t` is, shifted, that of `u + t + w`. */
  lemma {:induction false} LeftmostLongestFramed(u: string, t: string, w: string, i: int, j: int)
    requires AllWhitespace(u) && AllWhitespace(w) && LeftmostLongest(t, i, j)
    ensures LeftmostLongest(u + t + w, i + |u|, j + |u|)
  {
    var s := u + t + w;
    var a, b := i + |u|, j + |u|;
    LinkIntoFrame(u, t, w, i, j);
    forall i', j' | LinkAt(s, i', j') ensures a <= i' {
      LinkInFrame(u, t, w, i', j');
    }
    forall j' | LinkAt(s, a, j') ensures j' <= b {
      LinkInFrame(u, t, w, a, j');
    }
  }

  lemma {:induction false} NoLinkFramed(u: string, t: string, w: string)
    requires AllWhitespace(u) && AllWhitespace(w) && !ContainsLink(t)
    ensures !ContainsLink(u + t + w)
  {
    forall i, j | LinkAt(u + t + w, i, j) ensures LinkAt(t, i - |u|, j - |u|) {
      LinkInFrame(u, t, w, i, j);
    }
  }

  lemma {:induction false} ExtractFramedSome(u: string, t: string, w: string, s: string, i: int, j: int)
    requires s == u + t + w
    requires AllWhitespace(u) && AllWhitespace(w) && LeftmostLongest(t, i, j)
    ensures Extract(s) == Some(t[i..j])
  {
    var a, b := i + |u|, j + |u|;
    assert Extract(s) == Some(s[a..b]) by {
      LeftmostLongestFramed(u, t, w, i, j);
      LeftmostLongestExtracted(s, a, b);
    }
    assert s[a..b] == t[i..j] by {
      SliceFramed(u, t, w, i, j);
    }
  }

  /** Whitespace around a text does not change what `extractXLink` finds. */
  lemma {:induction false} ExtractFramed(u: string, t: string, w: string)
    requires AllWhitespace(u) && AllWhitespace(w)
    ensures Extract(u + t + w) == Extract(t)
  {
    if Extract(t).Some? {
      ExtractSome(t);
      var i, j :| LeftmostLongest(t, i, j) && Extract(t).value == t[i..j];
      ExtractFramedSome(u, t, w, u + t + w, i, j);
    } else {
      ExtractNoneIff(t);
      NoLinkFramed(u, t, w);
      ExtractNoneIff(u + t + w);
    }
  }

  /** `extractXLink(body.trim())` finds what `extractXLink(body)` finds. */
  lemma {:induction false} ExtractTrimmed(s: string)
    ensures Extract(Trim(s)) == Extract(s)
  {
    var lead, trail :| AllWhitespace(lead) && AllWhitespace(trail) && s == lead + Trim(s) + trail;
    ExtractFramed(lead, Trim(s), trail);
  }

  /** Both facts the handler relies on for a plain-text body: trimming does
      not change the result, and the result is absent exactly when there is
      no link. */
  lemma {:induction false} ExtractTrimmedIff(s: string)
    ensures Extract(Trim(s)) == Extract(s)
    ensures Extract(s).None? <==> !ContainsLink(s)
  {
    ExtractTrimmed(s);
    ExtractNoneIff(s);
  }
}
