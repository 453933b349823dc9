/** Short-URL derivation (URLsController.SetShortUrl) and the collision check
    on the generated token (URLsController.CheckHashedValue), as functions of
    the stored records. The controller's methods are proved against them. */
module Shortening {
  import opened Wrappers
  import opened Segments
  import opened Records

  /** The token generator `HashMap.GetHashedValue`, whose code is not part of
      this model: any function of the hashed segment. It also receives the
      retry depth, so a generator that varies between calls can be expressed;
      one that ignores it is deterministic, like a plain hash. */
  type Generator = (string, nat) -> Option<string>

  /** Outcome of the collision check: the accepted value (None when the
      generator gave null), or Exhausted once the retry budget is spent. */
  datatype Checked = Found(value: Option<string>) | Exhausted

  /** The exceptions the source throws on its way to a short URL. */
  datatype Fault =
    | NullShortUrl      // `url.ShortUrl.Split` on a record without a short URL
    | IndexOutOfRange   // `fullUrl[2]` when the full URL has only two segments
    | RetriesExhausted  // the collision retry ran out of budget (the source recurses forever)
    | NullEntity        // `_context.Urls.Update(null)` after a rejected URL
    | TrackingConflict  // `_context.Urls.Update(url)` while the context tracks another record with that key

  /** Outcome of SetShortUrl: the record to store, the null that marks a URL
      without any '/', or an exception. */
  datatype SetResult = Shortened(url: URL) | WrongFormat | Failed(fault: Fault)

  /** No stored short URL equals `token`, compared as the source compares. */
  predicate Fresh(urls: seq<URL>, token: string)
  {
    forall k :: 0 <= k < |urls| ==> urls[k].ShortUrl != Some(token)
  }

  predicate FreshFrom(urls: seq<URL>, i: nat, token: string)
  {
    forall k :: i <= k < |urls| ==> urls[k].ShortUrl != Some(token)
  }

  /** CheckHashedValue: generate a token for `segment`; when it is not null,
      scan every stored record and regenerate, one retry deeper, whenever a
      stored short URL equals the current token. `retries` bounds the depth
      of that retry. */
  function Check(urls: seq<URL>, gen: Generator, segment: string, attempt: nat, retries: nat): (r: Checked)
    ensures gen(segment, attempt).None? ==> r == Found(None)
    ensures gen(segment, attempt).Some? && Fresh(urls, gen(segment, attempt).value) ==> r == Found(gen(segment, attempt))
    ensures r.Found? && r.value.Some? ==> Fresh(urls, r.value.value)
    decreases retries, 1, 0
  {
    var candidate := gen(segment, attempt);
    if candidate.None? then Found(None)
    else Scan(urls, gen, segment, attempt, retries, 0, candidate)
  }

  /** The `foreach` of CheckHashedValue from record `i` on, with `current` the
      token accepted so far. After a nested retry the scan goes on from the
      next record with the token that retry returned. */
  function Scan(urls: seq<URL>, gen: Generator, segment: string, attempt: nat, retries: nat,
                i: nat, current: Option<string>): (r: Checked)
    requires i <= |urls|
    ensures current.Some? && FreshFrom(urls, i, current.value) ==> r == Found(current)
    ensures r.Found? && r.value.Some? ==>
              FreshFrom(urls, i, r.value.value) && (r.value == current || Fresh(urls, r.value.value))
    decreases retries, 0, |urls| - i
  {
    if i == |urls| then Found(current)
    else if urls[i].ShortUrl == current then
      if retries == 0 then Exhausted
      else
        match Check(urls, gen, segment, attempt + 1, retries - 1)
        case Exhausted => Exhausted
        case Found(next) => Scan(urls, gen, segment, attempt, retries, i + 1, next)
    else Scan(urls, gen, segment, attempt, retries, i + 1, current)
  }

  /** The first `n` segments, each followed by '/': the loop of SetShortUrl. */
  function StablePrefix(segments: seq<string>, n: nat): string
    requires n <= |segments|
  {
    if n == 0 then "" else StablePrefix(segments, n - 1) + segments[n - 1] + "/"
  }

  /** The first three segments (scheme, empty, host), each followed by '/':
      what the loop of SetShortUrl builds. */
  function HostPrefix(segments: seq<string>): string
    requires |segments| >= 3
  {
    segments[0] + "/" + segments[1] + "/" + segments[2] + "/"
  }

  /** C# appends nothing for a null string. */
  function TokenText(token: Option<string>): string
  {
    if token.Some? then token.value else ""
  }

  /** SetShortUrl: reject a full URL without '/', keep a record whose short
      URL already has more than three segments, otherwise check the token for
      the last segment and compose the first three segments with it. */
  function Shorten(urls: seq<URL>, gen: Generator, retries: nat, url: URL): (r: SetResult)
    ensures r == WrongFormat <==> '/' !in url.FullUrl
    ensures r == Failed(NullShortUrl) <==> '/' in url.FullUrl && url.ShortUrl.None?
    ensures '/' in url.FullUrl && AlreadyShortened(url) ==> r == Shortened(url)
    ensures r.Shortened? ==> r.url.Id == url.Id && r.url.FullUrl == url.FullUrl && r.url.ShortUrl.Some?
    ensures r == Failed(IndexOutOfRange) ==> Occurrences(url.FullUrl, '/') == 1
    ensures Occurrences(url.FullUrl, '/') == 1 && url.ShortUrl.Some? && !AlreadyShortened(url) ==>
              r == Failed(IndexOutOfRange) || r == Failed(RetriesExhausted)
    ensures r.Failed? ==> r.fault == NullShortUrl || r.fault == IndexOutOfRange || r.fault == RetriesExhausted
    ensures r == Failed(RetriesExhausted) <==>
              && '/' in url.FullUrl && url.ShortUrl.Some? && !AlreadyShortened(url)
              && Check(urls, gen, LastSegment(url.FullUrl), 0, retries) == Exhausted
  {
    var segments := Split(url.FullUrl, '/');
    if |segments| == 1 then WrongFormat
    else if url.ShortUrl.None? then Failed(NullShortUrl)
    else if |Split(url.ShortUrl.value, '/')| > 3 then Shortened(url)
    else
      match Check(urls, gen, segments[|segments| - 1], 0, retries)
      case Exhausted => Failed(RetriesExhausted)
      case Found(token) =>
        if |segments| < 3 then Failed(IndexOutOfRange)
        else Shortened(url.(ShortUrl := Some(HostPrefix(segments) + TokenText(token))))
  }

  /** The segment after the last '/': what SetShortUrl hashes. */
  function LastSegment(fullUrl: string): string
  {
    var segments := Split(fullUrl, '/');
    segments[|segments| - 1]
  }

  /** Whether SetShortUrl reads the table through the database context: on
      the rewrite path, CheckHashedValue lists every stored record as soon as
      the first token is not null. The context then tracks all of them. */
  predicate ReadsTable(gen: Generator, url: URL)
  {
    && '/' in url.FullUrl && url.ShortUrl.Some? && !AlreadyShortened(url)
    && gen(LastSegment(url.FullUrl), 0).Some?
  }

  /** Whether SetShortUrl leaves the record as it is: its short URL already
      has more than three segments. */
  predicate AlreadyShortened(url: URL)
  {
    url.ShortUrl.Some? && |Split(url.ShortUrl.value, '/')| > 3
  }

  /** The loop of SetShortUrl, run three times, builds the host prefix. */
  lemma StablePrefixThree(segments: seq<string>)
    requires |segments| >= 3
    ensures StablePrefix(segments, 3) == HostPrefix(segments)
  {
    assert StablePrefix(segments, 1) == segments[0] + "/";
    assert StablePrefix(segments, 2) == segments[0] + "/" + segments[1] + "/";
  }

  /** The host prefix followed by a token, regrouped to the right. */
  lemma HostPrefixThen(segments: seq<string>, token: string)
    requires |segments| >= 3
    ensures HostPrefix(segments) + token == segments[0] + "/" + (segments[1] + "/" + (segments[2] + "/" + token))
  {
  }

  /** Three '/'-free segments, each followed by '/', then a token: split on
      '/', the three segments followed by the token's segments. */
  lemma ComposedSplit(a: string, b: string, c: string, token: string)
    requires '/' !in a && '/' !in b && '/' !in c
    ensures Split(a + "/" + (b + "/" + (c + "/" + token)), '/') == [a] + ([b] + ([c] + Split(token, '/')))
  {
    SplitAfterSegment(c, '/', token);
    SplitAfterSegment(b, '/', c + "/" + token);
    SplitAfterSegment(a, '/', b + "/" + (c + "/" + token));
  }

  lemma PrependThree(segments: seq<string>, rest: seq<string>)
    requires |segments| >= 3
    ensures [segments[0]] + ([segments[1]] + ([segments[2]] + rest)) == segments[..3] + rest
  {
  }

  lemma StablePrefixSplit(segments: seq<string>, token: string)
    requires |segments| >= 3
    requires forall k :: 0 <= k < |segments| ==> '/' !in segments[k]
    ensures Split(HostPrefix(segments) + token, '/') == segments[..3] + Split(token, '/')
  {
    HostPrefixThen(segments, token);
    ComposedSplit(segments[0], segments[1], segments[2], token);
    PrependThree(segments, Split(token, '/'));
  }

  /** The first three segments of a full URL, each followed by '/', then a
      token: split on '/', those segments followed by the token's segments. */
  lemma FullUrlPrefixSplit(fullUrl: string, token: string)
    requires |Split(fullUrl, '/')| >= 3
    ensures Split(HostPrefix(Split(fullUrl, '/')) + token, '/') == Split(fullUrl, '/')[..3] + Split(token, '/')
  {
    SegmentsFree(fullUrl, '/');
    StablePrefixSplit(Split(fullUrl, '/'), token);
  }

  /** On the rewrite path the new short URL keeps the first three segments of
      the full URL (scheme, empty, host) and continues with the checked
      token, which matches no stored short URL. */
  lemma ShortenComposes(urls: seq<URL>, gen: Generator, retries: nat, url: URL)
    requires Shorten(urls, gen, retries, url).Shortened?
    requires !AlreadyShortened(url)
    ensures var segments := Split(url.FullUrl, '/');
            var token := Check(urls, gen, segments[|segments| - 1], 0, retries);
            && |segments| >= 3
            && token.Found?
            && Shorten(urls, gen, retries, url).url.ShortUrl
               == Some(segments[0] + "/" + segments[1] + "/" + segments[2] + "/" + TokenText(token.value))
            && (token.value.Some? ==> Fresh(urls, token.value.value))
  {
    var segments := Split(url.FullUrl, '/');
    var token := Check(urls, gen, segments[|segments| - 1], 0, retries);
    RewritePathTaken(urls, gen, retries, url, segments);
    ShortenRewrite(urls, gen, retries, url, segments, token.value);
  }

  /** A record that Shorten returns without reading the table was already
      shortened, or its null token left the short URL as the bare host
      prefix. */
  lemma RewriteWithoutRead(urls: seq<URL>, gen: Generator, retries: nat, url: URL)
    requires Shorten(urls, gen, retries, url).Shortened?
    requires !ReadsTable(gen, url)
    ensures AlreadyShortened(url)
            || Shorten(urls, gen, retries, url).url.ShortUrl == Some(HostPrefix(Split(url.FullUrl, '/')))
  {
    if !AlreadyShortened(url) {
      var segments := Split(url.FullUrl, '/');
      RewritePathTaken(urls, gen, retries, url, segments);
      assert gen(segments[|segments| - 1], 0).None?;
      ShortenRewrite(urls, gen, retries, url, segments, None);
      assert HostPrefix(segments) + TokenText(None) == HostPrefix(segments);
    }
  }

  /** A record Shorten rewrites has at least three segments and a token
      that the check found. */
  lemma RewritePathTaken(urls: seq<URL>, gen: Generator, retries: nat, url: URL, segments: seq<string>)
    requires Shorten(urls, gen, retries, url).Shortened?
    requires !AlreadyShortened(url)
    requires segments == Split(url.FullUrl, '/')
    ensures |segments| >= 3 && url.ShortUrl.Some?
    ensures Check(urls, gen, segments[|segments| - 1], 0, retries).Found?
  {
  }

  /** SetShortUrl is idempotent: whatever record it produces is left
      unchanged by a second application, whatever the store and generator
      are by then. */
  lemma ShortenIdempotent(urls: seq<URL>, gen: Generator, retries: nat, url: URL,
                          urls': seq<URL>, gen': Generator, retries': nat)
    requires Shorten(urls, gen, retries, url).Shortened?
    ensures var once := Shorten(urls, gen, retries, url).url;
            AlreadyShortened(once) && Shorten(urls', gen', retries', once) == Shortened(once)
  {
    var once := Shorten(urls, gen, retries, url).url;
    if !AlreadyShortened(url) {
      var segments := Split(url.FullUrl, '/');
      RewritePathTaken(urls, gen, retries, url, segments);
      var token := Check(urls, gen, segments[|segments| - 1], 0, retries);
      ShortenRewrite(urls, gen, retries, url, segments, token.value);
      FullUrlPrefixSplit(url.FullUrl, TokenText(token.value));
    }
  }

  /** A retry of a deterministic generator yields the same token again, so
      once the first token collides the check can only run out of retries:
      the source, which retries without bound, never returns. */
  lemma {:induction false} DeterministicCollisionExhausts(urls: seq<URL>, gen: Generator, segment: string,
                                                         attempt: nat, retries: nat, token: string, k: nat)
    requires forall n: nat :: gen(segment, n) == Some(token)
    requires k < |urls| && urls[k].ShortUrl == Some(token)
    ensures Check(urls, gen, segment, attempt, retries) == Exhausted
    decreases retries, 1, 0
  {
    ScanMeetsCollision(urls, gen, segment, attempt, retries, 0, token, k);
  }

  lemma {:induction false} ScanMeetsCollision(urls: seq<URL>, gen: Generator, segment: string,
                                              attempt: nat, retries: nat, i: nat, token: string, k: nat)
    requires forall n: nat :: gen(segment, n) == Some(token)
    requires i <= k < |urls| && urls[k].ShortUrl == Some(token)
    ensures Scan(urls, gen, segment, attempt, retries, i, Some(token)) == Exhausted
    decreases retries, 0, |urls| - i
  {
    if urls[i].ShortUrl == Some(token) {
      if retries > 0 {
        DeterministicCollisionExhausts(urls, gen, segment, attempt + 1, retries - 1, token, k);
      }
    } else {
      ScanMeetsCollision(urls, gen, segment, attempt, retries, i + 1, token, k);
    }
  }

  /** The token generated at retry depth `n` is not null and equals a stored
      short URL. */
  predicate Collides(urls: seq<URL>, gen: Generator, segment: string, n: nat)
  {
    gen(segment, n).Some? && !Fresh(urls, gen(segment, n).value)
  }

  /** Progress of the retry: when the tokens at depths `attempt` up to
      `attempt + d - 1` all collide and the one at depth `attempt + d` is
      fresh, the check returns that fresh token, provided the budget
      reaches depth `d`. */
  lemma {:induction false} RetryFindsFresh(urls: seq<URL>, gen: Generator, segment: string,
                                           attempt: nat, retries: nat, d: nat)
    requires d <= retries
    requires forall n: nat :: attempt <= n < attempt + d ==> Collides(urls, gen, segment, n)
    requires gen(segment, attempt + d).Some? && Fresh(urls, gen(segment, attempt + d).value)
    ensures Check(urls, gen, segment, attempt, retries) == Found(gen(segment, attempt + d))
    decreases d
  {
    if d > 0 {
      RetryFindsFresh(urls, gen, segment, attempt + 1, retries - 1, d - 1);
      assert Collides(urls, gen, segment, attempt);
      var token := gen(segment, attempt).value;
      var k :| 0 <= k < |urls| && urls[k].ShortUrl == Some(token);
      ScanRetriesToFresh(urls, gen, segment, attempt, retries, 0, Some(token), gen(segment, attempt + d).value);
    }
  }

  /** The scan, with a nested retry that returns the fresh token `next`,
      ends on `next` when its current token is `fresh` or still collides
      with a record from `i` on. */
  lemma {:induction false} ScanRetriesToFresh(urls: seq<URL>, gen: Generator, segment: string,
                                              attempt: nat, retries: nat, i: nat,
                                              current: Option<string>, next: string)
    requires retries > 0 && Check(urls, gen, segment, attempt + 1, retries - 1) == Found(Some(next))
    requires Fresh(urls, next)
    requires i <= |urls|
    requires current == Some(next) || exists k :: i <= k < |urls| && urls[k].ShortUrl == current
    ensures Scan(urls, gen, segment, attempt, retries, i, current) == Found(Some(next))
    decreases |urls| - i
  {
    if current != Some(next) && i < |urls| {
      if urls[i].ShortUrl == current {
        ScanRetriesToFresh(urls, gen, segment, attempt, retries, i + 1, Some(next), next);
      } else {
        ScanRetriesToFresh(urls, gen, segment, attempt, retries, i + 1, current, next);
      }
    }
  }

  /** When every token within the budget collides, the check is exhausted. */
  lemma {:induction false} AllCollideExhausts(urls: seq<URL>, gen: Generator, segment: string,
                                              attempt: nat, retries: nat)
    requires forall n: nat :: attempt <= n <= attempt + retries ==> Collides(urls, gen, segment, n)
    ensures Check(urls, gen, segment, attempt, retries) == Exhausted
    decreases retries
  {
    if retries > 0 {
      AllCollideExhausts(urls, gen, segment, attempt + 1, retries - 1);
    }
    assert Collides(urls, gen, segment, attempt);
    var token := gen(segment, attempt).value;
    var k :| 0 <= k < |urls| && urls[k].ShortUrl == Some(token);
    ScanHitsExhausted(urls, gen, segment, attempt, retries, 0, token, k);
  }

  /** The scan meets a colliding record at `k` and its nested retry, if any
      budget is left, is exhausted: the scan is exhausted. */
  lemma {:induction false} ScanHitsExhausted(urls: seq<URL>, gen: Generator, segment: string,
                                             attempt: nat, retries: nat, i: nat, token: string, k: nat)
    requires i <= k < |urls| && urls[k].ShortUrl == Some(token)
    requires retries == 0 || Check(urls, gen, segment, attempt + 1, retries - 1) == Exhausted
    ensures Scan(urls, gen, segment, attempt, retries, i, Some(token)) == Exhausted
    decreases |urls| - i
  {
    if urls[i].ShortUrl != Some(token) {
      ScanHitsExhausted(urls, gen, segment, attempt, retries, i + 1, token, k);
    }
  }

  /** The check compares the bare token with stored short URLs, which SetShortUrl
      always composes with '/'. A token without '/' therefore never collides
      with such a store, and the first token is accepted without a scan hit. */
  lemma BareTokenNeverCollides(urls: seq<URL>, gen: Generator, segment: string, attempt: nat, retries: nat)
    requires forall k :: 0 <= k < |urls| && urls[k].ShortUrl.Some? ==> '/' in urls[k].ShortUrl.value
    requires gen(segment, attempt).Some? && '/' !in gen(segment, attempt).value
    ensures Check(urls, gen, segment, attempt, retries) == Found(gen(segment, attempt))
  {
  }

  /** Because of that comparison, the short URL SetShortUrl composes can equal
      one already stored: with a store holding "http://a/T" and a generator
      that always yields "T", shortening "http://a/y" yields "http://a/T"
      again. */
  lemma BareTokenAdmitsDuplicate(stored: URL, url: URL, gen: Generator)
    requires stored == URL(1, "http://a/x", Some("http://a/T"))
    requires url == URL(2, "http://a/y", Some(""))
    requires forall s, n :: gen(s, n) == Some("T")
    ensures Shorten([stored], gen, 0, url) == Shortened(url.(ShortUrl := stored.ShortUrl))
  {
    SampleSegments(url);
    var segments := Split(url.FullUrl, '/');
    SampleTokenAccepted(stored, gen);
    SamplePrefix(stored, segments);
    SplitSegment(url.ShortUrl.value, '/');
    assert segments[|segments| - 1] == "y";
    ShortenRewrite([stored], gen, 0, url, segments, Some("T"));
  }

  lemma SampleSegments(url: URL)
    requires url == URL(2, "http://a/y", Some(""))
    ensures Split(url.FullUrl, '/') == ["http:", "", "a", "y"]
  {
    SplitSampleUrl(url.FullUrl, "a" + "/" + "y", "" + "/" + ("a" + "/" + "y"));
  }

  lemma SampleTokenAccepted(stored: URL, gen: Generator)
    requires stored == URL(1, "http://a/x", Some("http://a/T"))
    requires forall s, n :: gen(s, n) == Some("T")
    ensures Check([stored], gen, "y", 0, 0) == Found(Some("T"))
  {
    assert gen("y", 0) == Some("T");
    assert Fresh([stored], "T");
  }

  lemma SamplePrefix(stored: URL, segments: seq<string>)
    requires stored == URL(1, "http://a/x", Some("http://a/T"))
    requires segments == ["http:", "", "a", "y"]
    ensures HostPrefix(segments) + TokenText(Some("T")) == stored.ShortUrl.value
  {
    HostPrefixThen(segments, "T");
  }

  /** The rewrite path of Shorten, for use on concrete records. */
  lemma ShortenRewrite(urls: seq<URL>, gen: Generator, retries: nat, url: URL,
                       segments: seq<string>, token: Option<string>)
    requires segments == Split(url.FullUrl, '/') && |segments| >= 3
    requires url.ShortUrl.Some? && !AlreadyShortened(url)
    requires Check(urls, gen, segments[|segments| - 1], 0, retries) == Found(token)
    ensures Shorten(urls, gen, retries, url)
            == Shortened(url.(ShortUrl := Some(HostPrefix(segments) + TokenText(token))))
  {
    assert |Split(url.ShortUrl.value, '/')| <= 3;
  }

  lemma SplitSampleUrl(u: string, t1: string, t2: string)
    requires t1 == "a" + "/" + "y" && t2 == "" + "/" + t1 && u == "http:" + "/" + t2
    ensures Split(u, '/') == ["http:", "", "a", "y"]
  {
    SplitSegment("y", '/');
    SplitAfterSegment("a", '/', "y");
    SplitAfterSegment("", '/', t1);
    SplitAfterSegment("http:", '/', t2);
  }
}
