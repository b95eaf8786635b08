/** The two use cases: creating a short URL from raw strings, and resolving
    a short. The repository is the in-memory one; every call is sequential. */
module Service {
  import opened Results
  import opened External
  import opened Errors
  import opened Models
  import opened Memory

  /** Turning the raw inputs into a short URL: the target is parsed first,
      so its error wins when both inputs are bad; then the short. */
  function Validate(id: Uuid, short: string, target: string, parseUrl: UrlParser)
    : (r: Result<ShortUrl, UrlclawError>)
    ensures r.Ok? <==> parseUrl(target).Ok? && IsValidShort(short)
    ensures parseUrl(target).Err? ==> r == Err(InvalidTarget(parseUrl(target).error))
    ensures parseUrl(target).Ok? && !IsValidShort(short) ==>
              r == Err(InvalidShort(FromStr(short).error))
    ensures r.Ok? ==>
              && r.value.id == id
              && AsStr(r.value.short) == short
              && r.value.target == parseUrl(target).value
  {
    match parseUrl(target)
    case Err(e) => Err(InvalidTarget(e))
    case Ok(url) => New(id, short, url)
  }

  /** Creates a short URL and stores it. A validation error leaves the
      repository untouched; an insert error is passed through; on success
      the stored value is the one returned. */
  method CreateShorturl(repository: InMemoryRepository, id: Uuid, short: string, target: string,
                        parseUrl: UrlParser)
    returns (r: Result<ShortUrl, UrlclawError>)
    modifies repository
    ensures Validate(id, short, target, parseUrl).Err? ==>
              && r == Validate(id, short, target, parseUrl)
              && repository.urls == old(repository.urls)
    ensures Validate(id, short, target, parseUrl).Ok? ==>
              var shortUrl := Validate(id, short, target, parseUrl).value;
              if CountShort(old(repository.urls), shortUrl.short) == 0 then
                r == Ok(shortUrl) && repository.urls == old(repository.urls) + [shortUrl]
              else
                r == Err(ShortAlreadyExists) && repository.urls == old(repository.urls)
    ensures old(repository.Valid()) ==> repository.Valid()
  {
    var shortUrl := Validate(id, short, target, parseUrl);
    if shortUrl.Err? {
      return shortUrl;
    }
    var created := repository.CreateShorturl(shortUrl.value);
    if created.Err? {
      return Err(created.error);
    }
    return shortUrl;
  }

  /** Resolves a short: exactly the repository's answer, success or error. */
  method GetShorturlTarget(repository: InMemoryRepository, short: string)
    returns (r: Result<ShortUrl, UrlclawError>)
    ensures r == Lookup(repository.urls, short)
  {
    r := repository.GetFromShort(short);
  }

  /** A session against a fresh repository: creating "rust" succeeds,
      creating it again with another target fails, and resolving "rust"
      still gives the first short URL; an unknown short is not found. */
  method RustSession(parseUrl: UrlParser, firstId: Uuid, secondId: Uuid)
    returns (first: Result<ShortUrl, UrlclawError>, second: Result<ShortUrl, UrlclawError>,
             resolved: Result<ShortUrl, UrlclawError>, missing: Result<ShortUrl, UrlclawError>)
    requires parseUrl("https://rust-lang.org").Ok?
    requires parseUrl("https://example.org").Ok?
    ensures first.Ok? && AsStr(first.value.short) == "rust"
    ensures first.value.target == parseUrl("https://rust-lang.org").value
    ensures second == Err(ShortAlreadyExists)
    ensures resolved == first
    ensures missing == Err(UrlNotFound)
  {
    var repository := new InMemoryRepository();
    assert IsValidShort("rust") by {
      assert CheckShortIsSafe("rust");
    }
    first := CreateShorturl(repository, firstId, "rust", "https://rust-lang.org", parseUrl);
    second := CreateShorturl(repository, secondId, "rust", "https://example.org", parseUrl);
    resolved := GetShorturlTarget(repository, "rust");
    missing := GetShorturlTarget(repository, "missing");
  }
}
