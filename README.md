# URL shortener: the controller's shortening and store operations

This project models `URLsController`, the one class of the URL shortener with real
logic, in Dafny. It covers:

- the derivation of a short URL from a full URL (`SetShortUrl`): split on `'/'`,
  reject a URL without `'/'`, keep a record whose short URL already has more than
  three segments, otherwise hash the last segment and put the first three segments
  (scheme, empty, host) in front of the token;
- the collision check on the generated token (`CheckHashedValue`);
- the actions over the `Urls` table: list, get by id, forward and reverse lookup,
  create, update, delete one and delete all.

Modules:

- `Wrappers`: `Option`, for the source's nullable values.
- `Segments`: `String.Split(char)`, with `Join` as its inverse.
- `Records`: the `URL` record (`Id`, required `FullUrl`, nullable `ShortUrl`) and the
  queries over the table as functions: lookup by key, fresh key, removal, update,
  first-match forward and reverse lookup.
- `Shortening`: the collision check (`Check` and its scan `Scan`) and the derivation
  (`Shorten`) as functions, with the lemmas about them.
- `Controller`: the class `URLsController`. Its field `urls` is the table, which the
  actions update in place. Its methods keep the source's loops and its recursive
  retry, and each method's contract gives its result and the new table, through the
  functions above where one specifies it.

The token generator (`HashMap.GetHashedValue`, whose code is not part of this model)
is any function from the hashed segment and the retry depth to an optional token. `Uri.UnescapeDataString`
is any function on strings. Both are given to the controller's constructor.

The code behaves in these ways that matter for the model:

- A null token is not a failure in the code. `url.ShortUrl += null` appends nothing,
  so the short URL ends in `'/'` (`TokenText`).
- The code retries a collision by hashing the same segment again. That retry never
  ends when the hash is deterministic. The model gives the generator the retry depth,
  so a generator that varies with the retry depth can be expressed. It also bounds the depth
  by `maxRetries` and fails with `RetriesExhausted` when the bound is reached.
  `DeterministicCollisionExhausts` shows that a deterministic generator always ends
  there once its token collides.
- The code does not keep short URLs unique. The check compares the bare token
  (`URLsController.cs:143`) with stored short URLs, and those always contain `'/'`.
  `BareTokenNeverCollides` shows that such a token is accepted at once.
  `BareTokenAdmitsDuplicate` gives a store where the composed short URL equals one
  already stored.
- Delete-all removes the records one by one in a loop.
- An update of a stored record throws when the collision check has listed the table.
  Listing makes the database context track every stored record, and `Update` then
  meets a second record with the same key. So `PutURL` replaces a record only when
  the derivation did not read the table (`ReadsTable`): the record was already
  shortened, or its first token was null.

## Model

| member | source | states |
|---|---|---|
| `Segments.Split` | URLShortening/Controllers/URLsController.cs:115 | splitting on `'/'` yields one more segment than there are `'/'` |
| `Segments.SegmentsFree` | URLShortening/Controllers/URLsController.cs:115 | no segment produced by splitting on `'/'` contains `'/'` |
| `Segments.JoinSplit` | URLShortening/Controllers/URLsController.cs:115 | joining the segments with `'/'` gives back the split string |
| `Segments.SplitJoin` | URLShortening/Controllers/URLsController.cs:126-130 | splitting a join of `'/'`-free segments gives back those segments |
| `Segments.SingleSegment` | URLShortening/Controllers/URLsController.cs:115-119 | a string splits into exactly one segment if and only if it has no `'/'`, and that segment is the whole string |
| `Segments.SplitAfterSegment` | URLShortening/Controllers/URLsController.cs:126-130 | a `'/'`-free segment followed by `'/'` splits off as the first segment |
| `Records.FindById` | URLShortening/Controllers/URLsController.cs:34 | lookup by key finds a record if and only if one with that key is stored, and the record found has that key |
| `Records.NextId` | URLShortening/Migrations/UrlDbContextModelSnapshot.cs:21-23 | the key given to a new record is larger than every stored key, so it is not in use |
| `Records.RemoveId` | URLShortening/Controllers/URLsController.cs:161 | after removal the table holds exactly the old records whose key differs from the removed one |
| `Records.RemoveIdKeepsUnique` | URLShortening/Controllers/URLsController.cs:161-162 | removing a key keeps the keys unique |
| `Records.RemoveIdDropsOne` | URLShortening/Controllers/URLsController.cs:155-162 | with unique keys, removing a stored key removes exactly one record, and removing an absent key changes nothing |
| `Records.RemoveFirst` | URLShortening/Controllers/URLsController.cs:172-174 | with unique keys, removing the first record's key leaves the rest of the table in order |
| `Records.AppendFresh` | URLShortening/Controllers/URLsController.cs:108 | appending a record under an unused key keeps the keys unique |
| `Records.ReplaceIdKeepsKeys` | URLShortening/Controllers/URLsController.cs:80-85 | an update keeps every key in place and changes only the record with the updated key |
| `Records.ForwardLookup` | URLShortening/Controllers/URLsController.cs:48-55 | forward lookup returns the short URL of the first record whose full URL matches, and None only when no record matches |
| `Records.ReverseLookup` | URLShortening/Controllers/URLsController.cs:63-70 | reverse lookup returns the full URL of the first record whose short URL matches, and a record without a short URL never matches |
| `Records.ForwardAfterAppend` | URLShortening/Controllers/URLsController.cs:44-56 | a new record whose full URL is not yet stored is found by forward lookup of that full URL once appended |
| `Records.ReverseAfterAppend` | URLShortening/Controllers/URLsController.cs:59-71 | a new record whose short URL is not yet stored is found by reverse lookup of that short URL once appended |
| `Records.LookupsStableUnderAppend` | URLShortening/Controllers/URLsController.cs:48-54 | appending records never changes a lookup that already finds something: the oldest match wins |
| `Shortening.Check` | URLShortening/Controllers/URLsController.cs:135-150 | a null hash is returned at once; a token that no stored short URL equals is accepted as it is; any token returned is equal to no stored short URL |
| `Shortening.Scan` | URLShortening/Controllers/URLsController.cs:141-147 | a token returned by the scan from record `i` on matches no record from `i` on, and it is either the current token or matches no record at all |
| `Shortening.Shorten` | URLShortening/Controllers/URLsController.cs:113-133 | rejects (null) exactly when the full URL has no `'/'`; fails on a missing short URL exactly when the full URL has `'/'` and the short URL is null; keeps an already shortened record unchanged; never changes `Id` or `FullUrl`; fails only with `NullShortUrl`, `IndexOutOfRange` or `RetriesExhausted`; an index fault means the full URL has exactly one `'/'`, and a full URL with exactly one `'/'` on the rewrite path always ends in an index fault or in running out of retries; running out of retries happens exactly on the rewrite path when the collision check on the last segment is exhausted |
| `Shortening.ShortenComposes` | URLShortening/Controllers/URLsController.cs:124-130 | on the rewrite path the full URL has at least three segments, the check found a token, and the short URL is segments 0, 1, 2 of the full URL, each followed by `'/'`, then the token; a non-null token matches no stored short URL |
| `Shortening.RewriteWithoutRead` | URLShortening/Controllers/URLsController.cs:120-140 | a record derived without reading the table was already shortened, or its null token left the short URL as the bare host prefix |
| `Shortening.StablePrefixThree` | URLShortening/Controllers/URLsController.cs:125-129 | the three-step loop builds `seg[0] + "/" + seg[1] + "/" + seg[2] + "/"` |
| `Shortening.FullUrlPrefixSplit` | URLShortening/Controllers/URLsController.cs:115-130 | the composed short URL, split on `'/'`, is the full URL's first three segments followed by the token's own segments |
| `Shortening.StablePrefixSplit` | URLShortening/Controllers/URLsController.cs:125-130 | three `'/'`-free segments, each followed by `'/'`, then a token, split into those segments followed by the token's segments |
| `Shortening.ShortenIdempotent` | URLShortening/Controllers/URLsController.cs:120-123 | every record produced by the derivation is already shortened and is returned unchanged by a second derivation, whatever the table and generator are by then |
| `Shortening.RetryFindsFresh` | URLShortening/Controllers/URLsController.cs:137-147 | when the tokens at the first `d` retry depths all collide and the next one is fresh, the check returns that fresh token, provided the budget reaches depth `d` |
| `Shortening.AllCollideExhausts` | URLShortening/Controllers/URLsController.cs:137-147 | when every token within the retry budget collides, the check is exhausted |
| `Shortening.DeterministicCollisionExhausts` | URLShortening/Controllers/URLsController.cs:137-146 | with a generator that ignores the retry depth, a first token that collides makes the check use up every retry, so the unbounded source recursion never returns |
| `Shortening.BareTokenNeverCollides` | URLShortening/Controllers/URLsController.cs:143 | when every stored short URL contains `'/'` and the token does not, the first token is accepted |
| `Shortening.BareTokenAdmitsDuplicate` | URLShortening/Controllers/URLsController.cs:124-143 | with `http://a/T` stored and a generator that yields `T`, shortening `http://a/y` yields `http://a/T` again |
| `Controller.URLsController.constructor` | URLShortening/Controllers/URLsController.cs:20-23 | the controller starts over the given table, with unique keys |
| `Controller.URLsController.GetUrls` | URLShortening/Controllers/URLsController.cs:26-29 | listing returns the whole table in store order |
| `Controller.URLsController.GetURLWithId` | URLShortening/Controllers/URLsController.cs:32-41 | NotFound when no record has the key; otherwise the stored record with that key |
| `Controller.URLsController.GetURLWithFullUrl` | URLShortening/Controllers/URLsController.cs:44-56 | the scan answers the forward lookup of the unescaped argument, or "URL Not Found" |
| `Controller.URLsController.GetURLWithShortUrl` | URLShortening/Controllers/URLsController.cs:59-71 | the scan answers the reverse lookup of the unescaped argument, or "URL Not Found" |
| `Controller.URLsController.PutURL` | URLShortening/Controllers/URLsController.cs:74-99 | an id mismatch is a BadRequest and leaves the table unchanged; a rejected URL or a fault throws and leaves it unchanged; an absent key is NotFound and leaves it unchanged; a stored key after a derivation that read the table throws the tracking conflict and leaves it unchanged; otherwise the derived record replaces the record with that key; keys stay unique |
| `Controller.URLsController.PostURL` | URLShortening/Controllers/URLsController.cs:102-111 | a URL without `'/'` gets "Url is in wrong format" and a fault throws, both with the table unchanged; otherwise the derived record is appended under an unused key and returned; keys stay unique |
| `Controller.URLsController.SetShortUrl` | URLShortening/Controllers/URLsController.cs:113-133 | the early returns and the three-step loop compute the derivation `Shortening.Shorten` over the current table, and report a table read exactly when `Shortening.ReadsTable` holds |
| `Controller.URLsController.CheckHashedValue` | URLShortening/Controllers/URLsController.cs:135-150 | the scan and its recursive retry compute `Shortening.Check` over the current table, and the table is read exactly when the first token is not null |
| `Controller.URLsController.DeleteURL` | URLShortening/Controllers/URLsController.cs:153-165 | NotFound with the table unchanged when no record has the key; otherwise exactly that record is removed and all others are kept |
| `Controller.URLsController.DeleteAllURL` | URLShortening/Controllers/URLsController.cs:168-178 | the loop removes every record and leaves the table empty |
| `Controller.URLsController.URLExists` | URLShortening/Controllers/URLsController.cs:180-183 | true exactly when lookup by that key finds a record |

## Left out

- Async tasks, `SaveChangesAsync`, `ToListAsync`, HTTP routing and the `ActionResult` wrappers are left out. Each action returns an `ActionResult` value and changes the table directly.
- EF Core's change tracker is modelled only as far as `PutURL` needs it: whether the derivation listed the table, which makes `Update` meet a tracked record with the same key (`TrackingConflict`).
- The rethrow branch of `PutURL` (`URLsController.cs:95`) is left out. It needs a concurrent change between the save and the existence check. Races between concurrent requests are left out for the same reason.
- Controller.URLsController.CheckHashedValue: the retry depth is bounded by `maxRetries` and runs out as `RetriesExhausted`. The source has no bound and never returns on a collision with a deterministic hash.
- Shortening.Check: the same retry bound as `CheckHashedValue`; the generator is also passed the retry depth, which the source's generator does not receive. The generator is a function of the segment and the depth, so two retries at the same depth yield the same token; a generator that differs on every call, as a fresh `HashMap` may, cannot be expressed.
- Controller.URLsController.PostURL: the model assigns the largest key plus one, which is one fresh key; the store may pick another unused key. A key the client sets in the body is not modelled.
- `HashMap.GetHashedValue` is not part of this model. It is any function of the segment and the retry depth.
- `Uri.UnescapeDataString` is any function on strings.
- `SetShortUrl` writes to the request's `URL` object in place. The model returns an updated record value instead. No stored record can alias the request object, because it is only added to the table afterwards.
- The `URL` entity class is not part of this model. A null `ShortUrl` reaching `url.ShortUrl.Split` is modelled as the `NullShortUrl` exception.
- `UrlDbContext.cs` holds only the SQLite connection configuration and is not part of this model.
