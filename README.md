# urlclaw core in Dafny

A model of the core of urlclaw, a URL-shortening service. It covers the short-code
domain (the validated `Short` token and the `ShortUrl` entity), the in-memory
repository that stores short URLs, and the service layer that validates raw input
and hands it to the repository.

Modules, one per source file or component:

- `Results`: the `Result` type (`Ok` / `Err`) used for every fallible operation.
- `External`: stand-ins for the `uuid` and `url` crates. `Uuid` is a 128-bit
  newtype. `Url` is a parsed URL. URL parsing is a parameter of type
  `UrlParser = string -> Result<Url, ParseError>` that callers supply.
- `Errors`: `InvalidShortError` (`TooLong`, `TooShort`, `InvalidCharacters`) and the
  crate error `UrlclawError`. A failed short parse is propagated with `?` in the
  source. The `From` conversion that does it is not part of this model, so
  `UrlclawError` has an extra variant `InvalidShort(reason)` that carries the parse
  error.
- `Utf8`: the UTF-8 byte length of a string (RFC 3629, section 3). The source measures
  a short's length with `str::len`, which counts bytes, not characters.
- `Models`: the allowed alphabet (the unreserved set of RFC 3986, section 2.3), the
  character check, the length-then-characters parser `FromStr`, and the `ShortUrl`
  constructors `New` and `FromDb`. `Short` is a subset type of its representation
  `ShortValue`: the type itself holds the length and character invariant, so no
  value of type `Short` can wrap an invalid string. Everything here is a pure function. The
  accessors `uuid`, `short_url` and `target_url` are the datatype's destructors
  `id`, `short` and `target`.
- `Memory`: the class `InMemoryRepository`. Its field `urls: seq<ShortUrl>` is the
  source's vector. It has two methods, each with a linear-scan loop.
  `GetFromShort` has no `modifies` clause, so the verifier checks that it changes
  nothing. The specification functions `Lookup` (first match) and `CountShort`
  (number of matches) describe the two scans. The invariant `Valid()` (no two
  entries share a short) holds for the empty repository, and `CreateShorturl`
  preserves it.
- `Service`: `CreateShorturl` and `GetShorturlTarget`. The pure first step of
  creation is `Validate`. It parses the target first, then builds the short URL.

What the code does at its edges:

- A short's length is its UTF-8 byte count (`str::len`), although the error messages
  at urlclaw-core/src/models.rs:55-61 speak of characters. Every accepted short is
  ASCII (`ValidShortIsAscii`), so the two counts agree on accepted shorts. They differ
  only in which error a non-ASCII input gets: 40 copies of `é` are 80 bytes, and the
  result is `TooLong` (`FromStrCountsBytes`).
- `from_db` validates the stored short again. A failure is reported as the short
  error, before the target is parsed.
- The in-memory lookup returns the first match.
- The service parses the target before the short. When both are invalid, the
  target error is reported.

## Model

| member | source | states |
|---|---|---|
| `Utf8.ByteLen` | urlclaw-core/src/models.rs:95-97 | the byte length lies between the character count and four times it, and is zero exactly for the empty string |
| `Utf8.ByteLenIsLengthIffAscii` | urlclaw-core/src/models.rs:95-97 | byte length equals character count exactly when every character is ASCII |
| `Models.LowercaseAreLetters` | urlclaw-core/src/models.rs:77-78 | the lowercase part of the alphabet, in its unusual order, holds exactly `a`..`z` |
| `Models.UppercaseAreLetters` | urlclaw-core/src/models.rs:77-78 | the uppercase part of the alphabet holds exactly `A`..`Z` |
| `Models.DigitsAreDigits` | urlclaw-core/src/models.rs:77-78 | the digit part of the alphabet holds exactly `0`..`9` |
| `Models.AllowedCharactersAreUnreserved` | urlclaw-core/src/models.rs:76-78 | a character is in the allowed alphabet iff it is an RFC 3986 unreserved character |
| `Models.CheckShortIsSafe` | urlclaw-core/src/models.rs:47-49 | true iff every character is a letter, a digit, `-`, `.`, `_` or `~` |
| `Models.FromStr` | urlclaw-core/src/models.rs:94-104 | over 64 bytes gives `TooLong` whatever the characters; empty gives `TooShort`; `InvalidCharacters` iff 1..64 bytes with a non-unreserved character; success iff 1..64 bytes and all unreserved; the short holds the input |
| `Models.AsStr` | urlclaw-core/src/models.rs:80-82 | the string a short gives back is always a valid short, 1 to 64 characters; with `ShortRoundTrip`, it is the parsed input |
| `Models.IntoString` | urlclaw-core/src/models.rs:85-89 | the owned string a short converts into is always a valid short, 1 to 64 characters; with `ShortRoundTrip`, it is the parsed input |
| `Models.ShortRoundTrip` | urlclaw-core/src/models.rs:80-104 | a parsed short gives back its input through `as_str` and the `String` conversion, and reparses to itself |
| `Models.ValidShortIsAscii` | urlclaw-core/src/models.rs:94-104 | every accepted short is ASCII, so its byte length is its character count |
| `Models.Repeat` | urlclaw-core/src/models.rs:139-143 | `n` copies of a character, as `str::repeat` builds them in the tests |
| `Models.ByteLenRepeat` | urlclaw-core/src/models.rs:139-143 | `n` copies of `c` take `n` times the width of `c` in bytes |
| `Models.FromStrEmptyIsTooShort` | urlclaw-core/src/models.rs:137 | the empty string is `TooShort` |
| `Models.FromStrMaxLengthAccepted` | urlclaw-core/src/models.rs:139 | 64 copies of `a` are accepted |
| `Models.FromStrOverMaxLengthTooLong` | urlclaw-core/src/models.rs:140-143 | 65 copies of `a` are `TooLong` |
| `Models.FromStrQuestionMarkRefused` | urlclaw-core/src/models.rs:145-148 | `a?b` is `InvalidCharacters` |
| `Models.FromStrCountsBytes` | urlclaw-core/src/models.rs:95-96 | 40 two-byte characters (at most 64 characters) are `TooLong`, not `InvalidCharacters` |
| `Models.CheckShortIsSafeAcceptsWords` | urlclaw-core/src/models.rs:121-123 | `rusty` and `Rusty` pass the character check |
| `Models.CheckShortIsSafeAcceptsDigits` | urlclaw-core/src/models.rs:122-124 | `Rusty42` and `1234` pass the character check |
| `Models.CheckShortIsSafeAcceptsTildes` | urlclaw-core/src/models.rs:126 | `~ferris~` passes the character check |
| `Models.CheckShortIsSafeRefuses` | urlclaw-core/src/models.rs:125-132 | `rusty!`, `ferris is cool`, `cool/stuff`, `a?b`, `a&b`, `a#b` and `a%20` fail the character check |
| `Models.New` | urlclaw-core/src/models.rs:18-24 | succeeds iff the short is valid; keeps the given id and target unchanged and the short's text; otherwise the short's parse error, converted |
| `Models.FromDb` | urlclaw-core/src/models.rs:26-32 | succeeds iff the short is valid and the target parses; keeps the id; an invalid short is reported before a bad target |
| `Memory.CountShort` | urlclaw-core/src/repository/memory.rs:27-32 | the number of entries with an equal short is at most the number of entries, and is positive only if some entry has that short; `CountShortZeroIffAbsent` gives the full equivalence |
| `Memory.Lookup` | urlclaw-core/src/repository/memory.rs:15-23 | an error is always `UrlNotFound`; a success is a stored entry whose short equals the string; `LookupFindsFirst` adds that it is the first such entry and that success happens exactly when one exists |
| `Memory.CountShortZeroIffAbsent` | urlclaw-core/src/repository/memory.rs:27-33 | the filtered count is zero exactly when no entry has that short |
| `Memory.LookupFindsFirst` | urlclaw-core/src/repository/memory.rs:15-23 | lookup succeeds iff some entry's short equals the string; it returns the first such entry; otherwise `UrlNotFound` |
| `Memory.LookupUnique` | urlclaw-core/src/repository/memory.rs:14-24 | with unique shorts, looking up a stored entry's short returns that entry |
| `Memory.AppendFreshKeepsUnique` | urlclaw-core/src/repository/memory.rs:27-35 | appending an entry whose short is absent keeps shorts unique |
| `Memory.LookupAfterAppend` | urlclaw-core/src/repository/memory.rs:47-56 | after appending an entry with a new short, looking that short up returns the entry |
| `Memory.InMemoryRepository.constructor` | urlclaw-core/src/repository/memory.rs:7-10 | the default repository is empty and satisfies the uniqueness invariant |
| `Memory.InMemoryRepository.GetFromShort` | urlclaw-core/src/repository/memory.rs:14-24 | returns the first entry whose short equals the argument exactly, or `UrlNotFound` when none does; `urls` is unchanged |
| `Memory.InMemoryRepository.CreateShorturl` | urlclaw-core/src/repository/memory.rs:26-39 | with an absent short, appends exactly the argument and returns `Ok`; otherwise returns `ShortAlreadyExists` with `urls` unchanged; preserves uniqueness |
| `Service.Validate` | urlclaw-core/src/service.rs:10 | a target parse failure gives `InvalidTarget` even when the short is bad too; with a good target, a bad short gives its parse error; success iff both are valid, with the given id, short and parsed target |
| `Service.CreateShorturl` | urlclaw-core/src/service.rs:5-15 | a validation error is returned and the repository is left untouched; an insert error is passed through and nothing is stored; on success the returned value is exactly the one appended |
| `Service.GetShorturlTarget` | urlclaw-core/src/service.rs:17-24 | returns exactly the repository's lookup result, success or error |
| `Service.RustSession` | urlclaw-core/src/repository/memory.rs:47-56 | on a fresh repository, creating `rust` succeeds; creating it again fails with `ShortAlreadyExists`; resolving `rust` returns the first value; `missing` is `UrlNotFound` |

## Left out

- The repository trait `ShortUrlRepository`: the service is written against `InMemoryRepository` directly, because the model has no interface types; the service's contracts are therefore stated over the in-memory store.
- `urlclaw-core/src/repository/sqlx.rs` (the Postgres repository): database I/O; its decision logic duplicates the in-memory one.
- URL parsing and canonicalisation by the `url` crate: a foreign call, taken as the `parseUrl` parameter; trailing-slash normalisation is not modelled.
- `Uuid::new_v4()`: randomness; the identifier is a parameter.
- `async`/`await`: every call is sequential; the in-memory repository's lack of locking is outside the model.
- `TryFrom<&str> for Short`: it only delegates to `from_str` and is not modelled separately.
- The error messages (`Display` strings) of both error enums, and the payloads of `Database` and `Other`, which are opaque descriptions here.
- urlclaw-server/src/auth.rs and urlclaw-server/src/main.rs are not part of this model: login, cookies, HTTP routing and process bootstrap.
