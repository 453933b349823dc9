/** URLsController: the actions over the `Urls` table. The table is a field
    the actions update in place; the token generator, `Uri.UnescapeDataString`
    and the retry budget of the collision check are given at construction. */
module Controller {
  import opened Wrappers
  import opened Segments
  import opened Records
  import opened Shortening

  const NotFoundMessage := "URL Not Found"
  const WrongFormatMessage := "Url is in wrong format"

  /** What an action answers: a value, a created record, an empty success,
      a client error with an optional message, a missing record, or an
      exception that escapes the action. */
  datatype ActionResult<T> =
    | Ok(value: T)
    | Created(value: T)
    | NoContent
    | BadRequest(message: Option<string>)
    | NotFound
    | Thrown(fault: Fault)

  class URLsController {
    /** The `Urls` table, in store order. */
    var urls: seq<URL>
    const generator: Generator
    const unescape: string -> string
    const maxRetries: nat

    /** Id is the table's primary key. */
    ghost predicate Valid()
      reads this
    {
      UniqueIds(urls)
    }

    constructor (initial: seq<URL>, generator: Generator, unescape: string -> string, maxRetries: nat)
      requires UniqueIds(initial)
      ensures Valid() && urls == initial
      ensures this.generator == generator && this.unescape == unescape && this.maxRetries == maxRetries
    {
      urls := initial;
      this.generator := generator;
      this.unescape := unescape;
      this.maxRetries := maxRetries;
    }

    /** The whole table, in store order. */
    method GetUrls() returns (r: seq<URL>)
      ensures r == urls
    {
      r := urls;
    }

    /** The record with primary key `id`, or NotFound. */
    method GetURLWithId(id: int) returns (r: ActionResult<URL>)
      ensures !HasId(urls, id) ==> r == NotFound
      ensures HasId(urls, id) ==> r.Ok? && r.value.Id == id && r.value in urls
      ensures r == (match FindById(urls, id) case Some(u) => Ok(u) case None => NotFound)
    {
      var url := FindById(urls, id);
      if url.None? {
        return NotFound;
      }
      return Ok(url.value);
    }

    /** The short URL of the first record whose full URL is the unescaped
        argument, or "URL Not Found". */
    method GetURLWithFullUrl(fullUrl: string) returns (r: ActionResult<Option<string>>)
      ensures r == (match ForwardLookup(urls, unescape(fullUrl))
                    case Some(s) => Ok(s)
                    case None => BadRequest(Some(NotFoundMessage)))
    {
      var key := unescape(fullUrl);
      var all := GetUrls();
      for i := 0 to |all|
        invariant ForwardLookup(all, key) == ForwardLookup(all[i..], key)
      {
        assert all[i..][1..] == all[i + 1..];
        if all[i].FullUrl == key {
          return Ok(all[i].ShortUrl);
        }
      }
      return BadRequest(Some(NotFoundMessage));
    }

    /** The full URL of the first record whose short URL is the unescaped
        argument, or "URL Not Found". */
    method GetURLWithShortUrl(shortUrl: string) returns (r: ActionResult<string>)
      ensures r == (match ReverseLookup(urls, unescape(shortUrl))
                    case Some(s) => Ok(s)
                    case None => BadRequest(Some(NotFoundMessage)))
    {
      var key := unescape(shortUrl);
      var all := GetUrls();
      for i := 0 to |all|
        invariant ReverseLookup(all, key) == ReverseLookup(all[i..], key)
      {
        assert all[i..][1..] == all[i + 1..];
        if all[i].ShortUrl == Some(key) {
          return Ok(all[i].FullUrl);
        }
      }
      return BadRequest(Some(NotFoundMessage));
    }

    /** The update of record `id`: a client error when the id in the route
        and in the body differ; otherwise the record is shortened and stored
        over the record with that key, or NotFound when there is none. */
    method PutURL(id: int, url: URL) returns (r: ActionResult<()>)
      requires Valid()
      modifies this
      ensures Valid()
      ensures id != url.Id ==> r == BadRequest(None) && urls == old(urls)
      ensures id == url.Id ==>
                match Shorten(old(urls), generator, maxRetries, url)
                case WrongFormat => r == Thrown(NullEntity) && urls == old(urls)
                case Failed(f) => r == Thrown(f) && urls == old(urls)
                case Shortened(u) =>
                  if !HasId(old(urls), id) then r == NotFound && urls == old(urls)
                  else if ReadsTable(generator, url) then r == Thrown(TrackingConflict) && urls == old(urls)
                  else r == NoContent && urls == ReplaceId(old(urls), u)
    {
      if id != url.Id {
        return BadRequest(None);
      }
      var shortened, read := SetShortUrl(url);
      match shortened
      case WrongFormat =>
        return Thrown(NullEntity);
      case Failed(f) =>
        return Thrown(f);
      case Shortened(u) =>
        // Update attaches the request's record; when SetShortUrl has read the
        // table, the context already tracks the stored record with this key.
        if read && URLExists(id) {
          return Thrown(TrackingConflict);
        }
        // Saving an update of a missing key touches no row; the handler then
        // finds that the record does not exist and answers NotFound.
        if !URLExists(id) {
          return NotFound;
        }
        ReplaceIdKeepsKeys(urls, u);
        urls := ReplaceId(urls, u);
        return NoContent;
    }

    /** The creation of a record: "Url is in wrong format" when the full URL
        has no '/', otherwise the shortened record is appended under a key
        that is not yet in use. */
    method PostURL(url: URL) returns (r: ActionResult<URL>)
      requires Valid()
      modifies this
      ensures Valid()
      ensures match Shorten(old(urls), generator, maxRetries, url)
              case WrongFormat => r == BadRequest(Some(WrongFormatMessage)) && urls == old(urls)
              case Failed(f) => r == Thrown(f) && urls == old(urls)
              case Shortened(u) =>
                && r == Created(u.(Id := NextId(old(urls))))
                && !HasId(old(urls), r.value.Id)
                && urls == old(urls) + [r.value]
    {
      var shortened, _ := SetShortUrl(url);
      match shortened
      case WrongFormat =>
        return BadRequest(Some(WrongFormatMessage));
      case Failed(f) =>
        return Thrown(f);
      case Shortened(u) =>
        var stored := u.(Id := NextId(urls));
        AppendFresh(urls, stored);
        urls := urls + [stored];
        return Created(stored);
    }

    /** SetShortUrl: the record with its short URL derived from its full URL,
        and whether the derivation read the table through the context. */
    method SetShortUrl(url: URL) returns (r: SetResult, read: bool)
      ensures r == Shorten(urls, generator, maxRetries, url)
      ensures read == ReadsTable(generator, url)
    {
      read := false;
      var fullUrl := Split(url.FullUrl, '/');
      if |fullUrl| == 1 {
        return WrongFormat, read;
      }
      if url.ShortUrl.None? {
        return Failed(NullShortUrl), read;
      }
      if |Split(url.ShortUrl.value, '/')| > 3 {
        return Shortened(url), read;
      }
      var checked;
      checked, read := CheckHashedValue(fullUrl[|fullUrl| - 1], 0, maxRetries);
      if checked.Exhausted? {
        return Failed(RetriesExhausted), read;
      }
      var shortUrl := "";
      for i := 0 to 3
        invariant i <= |fullUrl|
        invariant shortUrl == StablePrefix(fullUrl, i)
      {
        if i >= |fullUrl| {
          return Failed(IndexOutOfRange), read;
        }
        shortUrl := shortUrl + fullUrl[i] + "/";
      }
      StablePrefixThree(fullUrl);
      shortUrl := shortUrl + TokenText(checked.value);
      return Shortened(url.(ShortUrl := Some(shortUrl))), read;
    }

    /** CheckHashedValue: the token for `urlFull`, regenerated one retry
        deeper whenever a stored short URL equals it; `retries` bounds how
        deep. `read` tells whether the table was listed, which happens as
        soon as the token is not null. */
    method CheckHashedValue(urlFull: string, attempt: nat, retries: nat) returns (r: Checked, read: bool)
      ensures r == Check(urls, generator, urlFull, attempt, retries)
      ensures read <==> generator(urlFull, attempt).Some?
      decreases retries
    {
      var shortUrl := generator(urlFull, attempt);
      read := false;
      if shortUrl.Some? {
        var all := GetUrls();
        read := true;
        for i := 0 to |all|
          invariant Check(all, generator, urlFull, attempt, retries)
                    == Scan(all, generator, urlFull, attempt, retries, i, shortUrl)
        {
          if all[i].ShortUrl == shortUrl {
            if retries == 0 {
              return Exhausted, read;
            }
            var next, _ := CheckHashedValue(urlFull, attempt + 1, retries - 1);
            if next.Exhausted? {
              return Exhausted, read;
            }
            shortUrl := next.value;
          }
        }
      }
      return Found(shortUrl), read;
    }

    /** The removal of record `id`, or NotFound when there is none. */
    method DeleteURL(id: int) returns (r: ActionResult<()>)
      requires Valid()
      modifies this
      ensures Valid()
      ensures !HasId(old(urls), id) ==> r == NotFound && urls == old(urls)
      ensures HasId(old(urls), id) ==>
                && r == NoContent
                && urls == RemoveId(old(urls), id)
                && |urls| == |old(urls)| - 1
                && !HasId(urls, id)
    {
      var url := FindById(urls, id);
      if url.None? {
        return NotFound;
      }
      RemoveIdDropsOne(urls, id);
      RemoveIdKeepsUnique(urls, id);
      urls := RemoveId(urls, url.value.Id);
      return NoContent;
    }

    /** The removal of every record, one at a time. */
    method DeleteAllURL() returns (r: ActionResult<()>)
      requires Valid()
      modifies this
      ensures Valid() && urls == [] && r == NoContent
    {
      var all := GetUrls();
      for i := 0 to |all|
        invariant urls == all[i..]
        invariant Valid()
      {
        RemoveFirst(urls);
        UniqueTail(urls);
        urls := RemoveId(urls, all[i].Id);
      }
      return NoContent;
    }

    /** Whether a record with key `id` is stored. */
    function URLExists(id: int): (b: bool)
      reads this
      ensures b <==> FindById(urls, id).Some?
    {
      exists k :: 0 <= k < |urls| && urls[k].Id == id
    }
  }
}
