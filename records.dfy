/** The one stored entity and the queries the controller runs over the list of
    stored records (URLsController.cs). The list keeps the store's order, so a
    linear scan's first match is well defined. */
module Records {
  import opened Wrappers

  /** A stored mapping: a store-assigned integer key, the required full URL
      and the nullable short URL (UrlDbContextModelSnapshot.cs:21-30). */
  datatype URL = URL(Id: int, FullUrl: string, ShortUrl: Option<string>)

  predicate HasId(urls: seq<URL>, id: int)
  {
    exists k :: 0 <= k < |urls| && urls[k].Id == id
  }

  /** Id is the table's primary key: no two stored records share it. */
  predicate UniqueIds(urls: seq<URL>)
  {
    forall i, j :: 0 <= i < j < |urls| ==> urls[i].Id != urls[j].Id
  }

  /** Lookup by primary key (`FindAsync`). */
  function FindById(urls: seq<URL>, id: int): (r: Option<URL>)
    ensures r.Some? <==> HasId(urls, id)
    ensures r.Some? ==> r.value.Id == id && r.value in urls
  {
    if urls == [] then None
    else if urls[0].Id == id then Some(urls[0])
    else
      var r := FindById(urls[1..], id);
      assert forall k :: 1 <= k < |urls| ==> urls[k] == urls[1..][k - 1];
      r
  }

  /** The key the store gives a newly added record: one more than the largest
      stored key, 1 in an empty store. */
  function NextId(urls: seq<URL>): (id: int)
    ensures forall k :: 0 <= k < |urls| ==> urls[k].Id < id
  {
    if urls == [] then 1
    else
      var rest := NextId(urls[1..]);
      assert forall k :: 1 <= k < |urls| ==> urls[k] == urls[1..][k - 1];
      if urls[0].Id < rest then rest else urls[0].Id + 1
  }

  /** The store after removing the record(s) keyed `id`, order kept. */
  function RemoveId(urls: seq<URL>, id: int): (r: seq<URL>)
    ensures forall u :: u in r <==> u in urls && u.Id != id
    ensures |r| <= |urls|
  {
    if urls == [] then []
    else
      assert forall u :: u in urls <==> u == urls[0] || u in urls[1..];
      (if urls[0].Id == id then [] else [urls[0]]) + RemoveId(urls[1..], id)
  }

  /** The store after an update of the record keyed `u.Id` with `u`. */
  function ReplaceId(urls: seq<URL>, u: URL): (r: seq<URL>)
  {
    seq(|urls|, k requires 0 <= k < |urls| => if urls[k].Id == u.Id then u else urls[k])
  }

  /** Forward lookup: the short URL of the first record, in store order, whose
      full URL is `key`; None when there is none. */
  function ForwardLookup(urls: seq<URL>, key: string): (r: Option<Option<string>>)
    ensures r.None? ==> forall k :: 0 <= k < |urls| ==> urls[k].FullUrl != key
    ensures r.Some? ==> exists k :: 0 <= k < |urls| && urls[k].FullUrl == key && urls[k].ShortUrl == r.value
                                    && forall j :: 0 <= j < k ==> urls[j].FullUrl != key
  {
    if urls == [] then None
    else if urls[0].FullUrl == key then Some(urls[0].ShortUrl)
    else
      var r := ForwardLookup(urls[1..], key);
      assert forall k :: 1 <= k < |urls| ==> urls[k] == urls[1..][k - 1];
      r
  }

  /** Reverse lookup: the full URL of the first record whose short URL is
      `key`; a record without a short URL never matches. */
  function ReverseLookup(urls: seq<URL>, key: string): (r: Option<string>)
    ensures r.None? ==> forall k :: 0 <= k < |urls| ==> urls[k].ShortUrl != Some(key)
    ensures r.Some? ==> exists k :: 0 <= k < |urls| && urls[k].ShortUrl == Some(key) && urls[k].FullUrl == r.value
                                    && forall j :: 0 <= j < k ==> urls[j].ShortUrl != Some(key)
  {
    if urls == [] then None
    else if urls[0].ShortUrl == Some(key) then Some(urls[0].FullUrl)
    else
      var r := ReverseLookup(urls[1..], key);
      assert forall k :: 1 <= k < |urls| ==> urls[k] == urls[1..][k - 1];
      r
  }

  /** A store with unique keys: its tail has unique keys and lacks the head's key. */
  lemma UniqueTail(urls: seq<URL>)
    requires urls != [] && UniqueIds(urls)
    ensures UniqueIds(urls[1..]) && !HasId(urls[1..], urls[0].Id)
  {
    var tail := urls[1..];
    forall i, j | 0 <= i < j < |tail| ensures tail[i].Id != tail[j].Id {
      assert tail[i] == urls[i + 1] && tail[j] == urls[j + 1];
    }
    forall k | 0 <= k < |tail| ensures tail[k].Id != urls[0].Id {
      assert tail[k] == urls[k + 1];
    }
  }

  /** A record put in front of a store with unique keys that lack its key. */
  lemma UniqueCons(u: URL, rest: seq<URL>)
    requires UniqueIds(rest) && !HasId(rest, u.Id)
    ensures UniqueIds([u] + rest)
  {
    var r := [u] + rest;
    forall i, j | 0 <= i < j < |r| ensures r[i].Id != r[j].Id {
      assert r[j] == rest[j - 1];
      if i > 0 {
        assert r[i] == rest[i - 1];
      }
    }
  }

  /** Appending a record under a key not in use keeps the keys unique. */
  lemma AppendFresh(urls: seq<URL>, u: URL)
    requires UniqueIds(urls) && !HasId(urls, u.Id)
    ensures UniqueIds(urls + [u])
  {
    var r := urls + [u];
    forall i, j | 0 <= i < j < |r| ensures r[i].Id != r[j].Id {
      assert r[i] == urls[i];
      if j < |urls| {
        assert r[j] == urls[j];
      }
    }
  }

  /** Removing a key keeps the keys unique. */
  lemma {:induction false} RemoveIdKeepsUnique(urls: seq<URL>, id: int)
    requires UniqueIds(urls)
    ensures UniqueIds(RemoveId(urls, id))
  {
    if urls != [] {
      UniqueTail(urls);
      RemoveIdKeepsUnique(urls[1..], id);
      var rest := RemoveId(urls[1..], id);
      if urls[0].Id != id {
        forall k | 0 <= k < |rest| ensures rest[k].Id != urls[0].Id {
          assert rest[k] in urls[1..];
        }
        UniqueCons(urls[0], rest);
      }
    }
  }

  /** Removing a key present in a store with unique keys removes exactly one
      record; removing an absent key changes nothing. */
  lemma {:induction false} RemoveIdDropsOne(urls: seq<URL>, id: int)
    requires UniqueIds(urls)
    ensures HasId(urls, id) ==> |RemoveId(urls, id)| == |urls| - 1
    ensures !HasId(urls, id) ==> RemoveId(urls, id) == urls
  {
    if urls != [] {
      var tail := urls[1..];
      UniqueTail(urls);
      RemoveIdDropsOne(tail, id);
      if urls[0].Id != id {
        assert HasId(urls, id) <==> HasId(tail, id) by {
          if HasId(urls, id) {
            var k :| 0 <= k < |urls| && urls[k].Id == id;
            assert tail[k - 1] == urls[k];
          }
          if HasId(tail, id) {
            var k :| 0 <= k < |tail| && tail[k].Id == id;
            assert urls[k + 1] == tail[k];
          }
        }
        assert [urls[0]] + tail == urls;
      }
    }
  }

  /** Removing the first record's key from a store with unique keys leaves the
      rest of the store as it was. */
  lemma RemoveFirst(urls: seq<URL>)
    requires urls != [] && UniqueIds(urls)
    ensures RemoveId(urls, urls[0].Id) == urls[1..]
  {
    UniqueTail(urls);
    RemoveIdDropsOne(urls[1..], urls[0].Id);
  }

  /** An update keeps every key in place, so the keys stay unique, and it
      changes only the record keyed `u.Id`. */
  lemma ReplaceIdKeepsKeys(urls: seq<URL>, u: URL)
    requires UniqueIds(urls)
    ensures |ReplaceId(urls, u)| == |urls|
    ensures forall k :: 0 <= k < |urls| ==> ReplaceId(urls, u)[k].Id == urls[k].Id
    ensures forall k :: 0 <= k < |urls| && urls[k].Id != u.Id ==> ReplaceId(urls, u)[k] == urls[k]
    ensures UniqueIds(ReplaceId(urls, u))
  {
  }

  /** A new record whose full URL is not yet stored is what forward lookup of
      that full URL finds once the record is appended. */
  lemma {:induction false} ForwardAfterAppend(urls: seq<URL>, u: URL)
    requires forall k :: 0 <= k < |urls| ==> urls[k].FullUrl != u.FullUrl
    ensures ForwardLookup(urls + [u], u.FullUrl) == Some(u.ShortUrl)
  {
    if urls != [] {
      assert (urls + [u])[1..] == urls[1..] + [u];
      ForwardAfterAppend(urls[1..], u);
    }
  }

  /** A new record whose short URL is not yet stored is what reverse lookup of
      that short URL finds once the record is appended. */
  lemma {:induction false} ReverseAfterAppend(urls: seq<URL>, u: URL)
    requires u.ShortUrl.Some?
    requires forall k :: 0 <= k < |urls| ==> urls[k].ShortUrl != u.ShortUrl
    ensures ReverseLookup(urls + [u], u.ShortUrl.value) == Some(u.FullUrl)
  {
    if urls != [] {
      assert (urls + [u])[1..] == urls[1..] + [u];
      ReverseAfterAppend(urls[1..], u);
    }
  }

  /** Appending records never changes a lookup that already finds something:
      the oldest matching record wins. */
  lemma {:induction false} LookupsStableUnderAppend(urls: seq<URL>, more: seq<URL>, key: string)
    ensures ForwardLookup(urls, key).Some? ==> ForwardLookup(urls + more, key) == ForwardLookup(urls, key)
    ensures ReverseLookup(urls, key).Some? ==> ReverseLookup(urls + more, key) == ReverseLookup(urls, key)
  {
    if urls != [] {
      assert (urls + more)[1..] == urls[1..] + more;
      LookupsStableUnderAppend(urls[1..], more, key);
    }
  }
}
