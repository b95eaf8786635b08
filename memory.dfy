/** The in-memory repository: an ordered list of short URLs, searched
    linearly. Inserting checks that the short is absent, then appends. */
module Memory {
  import opened Results
  import opened Errors
  import opened Models

  /** No two stored entries share a short. */
  ghost predicate UniqueShorts(urls: seq<ShortUrl>) {
    forall i, j :: 0 <= i < j < |urls| ==> urls[i].short != urls[j].short
  }

  /** How many entries of `urls` have the short `short`. */
  function CountShort(urls: seq<ShortUrl>, short: Short): (n: nat)
    ensures n <= |urls|
    ensures n > 0 ==> exists i :: 0 <= i < |urls| && urls[i].short == short
  {
    if urls == [] then 0
    else CountShort(urls[..|urls| - 1], short) + (if urls[|urls| - 1].short == short then 1 else 0)
  }

  /** The first entry whose short, as a string, equals `short`. */
  function Lookup(urls: seq<ShortUrl>, short: string): (r: Result<ShortUrl, UrlclawError>)
    ensures r.Err? ==> r.error == UrlNotFound
    ensures r.Ok? ==> r.value in urls && AsStr(r.value.short) == short
  {
    if urls == [] then Err(UrlNotFound)
    else if AsStr(urls[0].short) == short then Ok(urls[0])
    else Lookup(urls[1..], short)
  }

  /** No entry has a given short exactly when the count is zero. */
  lemma {:induction false} CountShortZeroIffAbsent(urls: seq<ShortUrl>, short: Short)
    ensures CountShort(urls, short) == 0 <==> forall i :: 0 <= i < |urls| ==> urls[i].short != short
  {
    if urls != [] {
      var init := urls[..|urls| - 1];
      CountShortZeroIffAbsent(init, short);
      assert forall i :: 0 <= i < |init| ==> init[i] == urls[i];
    }
  }

  /** Lookup finds the first match and fails only when there is none. */
  lemma {:induction false} LookupFindsFirst(urls: seq<ShortUrl>, short: string)
    ensures Lookup(urls, short).Ok? <==> exists i :: 0 <= i < |urls| && AsStr(urls[i].short) == short
    ensures Lookup(urls, short).Err? ==> Lookup(urls, short).error == UrlNotFound
    ensures Lookup(urls, short).Ok? ==>
              exists i :: && 0 <= i < |urls|
                          && urls[i] == Lookup(urls, short).value
                          && AsStr(urls[i].short) == short
                          && forall j :: 0 <= j < i ==> AsStr(urls[j].short) != short
  {
    if urls != [] && AsStr(urls[0].short) != short {
      var tail := urls[1..];
      LookupFindsFirst(tail, short);
      assert forall i :: 1 <= i < |urls| ==> tail[i - 1] == urls[i];
      if Lookup(tail, short).Ok? {
        var k :| && 0 <= k < |tail|
                 && tail[k] == Lookup(tail, short).value
                 && AsStr(tail[k].short) == short
                 && forall j :: 0 <= j < k ==> AsStr(tail[j].short) != short;
        assert forall j :: 0 <= j < k + 1 ==> AsStr(urls[j].short) != short by {
          forall j | 0 <= j < k + 1 ensures AsStr(urls[j].short) != short {
            if j > 0 { assert urls[j] == tail[j - 1]; }
          }
        }
      }
    }
  }

  /** Under the uniqueness invariant, looking up a stored short yields that
      entry and no other. */
  lemma {:induction false} LookupUnique(urls: seq<ShortUrl>, i: nat)
    requires UniqueShorts(urls)
    requires i < |urls|
    ensures Lookup(urls, AsStr(urls[i].short)) == Ok(urls[i])
  {
    if i > 0 {
      assert urls[0].short != urls[i].short;
      var tail := urls[1..];
      assert UniqueShorts(tail) by {
        forall a, b | 0 <= a < b < |tail| ensures tail[a].short != tail[b].short {
          assert tail[a] == urls[a + 1] && tail[b] == urls[b + 1];
        }
      }
      assert tail[i - 1] == urls[i];
      LookupUnique(tail, i - 1);
    }
  }

  /** Appending an entry whose short is new keeps the shorts unique. */
  lemma AppendFreshKeepsUnique(urls: seq<ShortUrl>, shortUrl: ShortUrl)
    requires UniqueShorts(urls)
    requires CountShort(urls, shortUrl.short) == 0
    ensures UniqueShorts(urls + [shortUrl])
  {
    CountShortZeroIffAbsent(urls, shortUrl.short);
  }

  /** After appending an entry whose short is new, looking that short up
      returns the appended entry. */
  lemma {:induction false} LookupAfterAppend(urls: seq<ShortUrl>, shortUrl: ShortUrl)
    requires CountShort(urls, shortUrl.short) == 0
    ensures Lookup(urls + [shortUrl], AsStr(shortUrl.short)) == Ok(shortUrl)
  {
    CountShortZeroIffAbsent(urls, shortUrl.short);
    LookupFindsFirst(urls + [shortUrl], AsStr(shortUrl.short));
    var all := urls + [shortUrl];
    assert all[|urls|] == shortUrl;
    var k :| && 0 <= k < |all|
             && all[k] == Lookup(all, AsStr(shortUrl.short)).value
             && AsStr(all[k].short) == AsStr(shortUrl.short)
             && forall j :: 0 <= j < k ==> AsStr(all[j].short) != AsStr(shortUrl.short);
    assert k == |urls|;
  }

  class InMemoryRepository {
    var urls: seq<ShortUrl>

    ghost predicate Valid()
      reads this
    {
      UniqueShorts(urls)
    }

    /** The default, empty repository. */
    constructor ()
      ensures urls == [] && Valid()
    {
      urls := [];
    }

    /** A copy of the first stored entry whose short equals `short`,
        compared case-sensitively as strings. Nothing is modified. */
    method GetFromShort(short: string) returns (r: Result<ShortUrl, UrlclawError>)
      ensures r.Ok? <==> exists i :: 0 <= i < |urls| && AsStr(urls[i].short) == short
      ensures r.Ok? ==>
                exists i :: && 0 <= i < |urls|
                            && urls[i] == r.value
                            && AsStr(urls[i].short) == short
                            && forall j :: 0 <= j < i ==> AsStr(urls[j].short) != short
      ensures r.Err? ==> r.error == UrlNotFound
      ensures r == Lookup(urls, short)
    {
      LookupFindsFirst(urls, short);
      var i := 0;
      while i < |urls|
        invariant 0 <= i <= |urls|
        invariant forall j :: 0 <= j < i ==> AsStr(urls[j].short) != short
      {
        if AsStr(urls[i].short) == short {
          return Ok(urls[i]);
        }
        i := i + 1;
      }
      return Err(UrlNotFound);
    }

    /** Stores a copy of `shortUrl` at the end, unless an entry with the same
        short is already stored, in which case nothing changes. */
    method CreateShorturl(shortUrl: ShortUrl) returns (r: Result<(), UrlclawError>)
      modifies this
      ensures r.Ok? <==> forall i :: 0 <= i < |old(urls)| ==> old(urls)[i].short != shortUrl.short
      ensures r.Ok? <==> CountShort(old(urls), shortUrl.short) == 0
      ensures r.Ok? ==> urls == old(urls) + [shortUrl]
      ensures r.Err? ==> r.error == ShortAlreadyExists && urls == old(urls)
      ensures old(Valid()) ==> Valid()
    {
      var count := 0;
      var i := 0;
      while i < |urls|
        invariant 0 <= i <= |urls|
        invariant count == CountShort(urls[..i], shortUrl.short)
      {
        assert urls[..i + 1][..i] == urls[..i];
        if urls[i].short == shortUrl.short {
          count := count + 1;
        }
        i := i + 1;
      }
      assert urls[..i] == urls;
      CountShortZeroIffAbsent(urls, shortUrl.short);
      if count == 0 {
        if Valid() {
          AppendFreshKeepsUnique(urls, shortUrl);
        }
        urls := urls + [shortUrl];
        r := Ok(());
      } else {
        r := Err(ShortAlreadyExists);
      }
    }
  }
}
