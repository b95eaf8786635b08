/** The short-code domain: the validated `Short` token and the `ShortUrl`
    entity that links a short to its target. Everything here is a value;
    nothing is mutated. */
module Models {
  import opened Results
  import opened External
  import opened Errors
  import Utf8

  /** Bounds on the length of a short, counted in UTF-8 bytes. */
  const MinLength: nat := 1
  const MaxLength: nat := 64

  /** The characters a short may contain, in the order the source lists them
      (split into its four groups; the concatenation is the source's string). */
  const Lowercase: string := "abcdefghjkilmnopqrstuvwxyz"
  const Uppercase: string := "ABCDEFGHIJKLMNOPQRSTUVWXYZ"
  const Digits: string := "0123456789"
  const Marks: string := "-._~"
  const AllowedCharacters: string := Lowercase + Uppercase + Digits + Marks

  /** Reference definition: the unreserved characters of RFC 3986, section
      2.3 (ALPHA / DIGIT / "-" / "." / "_" / "~"). */
  predicate IsUnreserved(c: char) {
    || 'a' <= c <= 'z'
    || 'A' <= c <= 'Z'
    || '0' <= c <= '9'
    || c == '-' || c == '.' || c == '_' || c == '~'
  }

  lemma LowercaseAreLetters(c: char)
    ensures c in Lowercase <==> 'a' <= c <= 'z'
  {
  }

  lemma UppercaseAreLetters(c: char)
    ensures c in Uppercase <==> 'A' <= c <= 'Z'
  {
  }

  lemma DigitsAreDigits(c: char)
    ensures c in Digits <==> '0' <= c <= '9'
  {
  }

  /** The allowed-character constant is exactly the unreserved set: no letter
      is missing from it despite its unusual order, and nothing else is in it. */
  lemma AllowedCharactersAreUnreserved(c: char)
    ensures c in AllowedCharacters <==> IsUnreserved(c)
  {
    LowercaseAreLetters(c);
    UppercaseAreLetters(c);
    DigitsAreDigits(c);
  }

  /** Whether every character of `short` is allowed. */
  function CheckShortIsSafe(short: string): (safe: bool)
    ensures safe <==> forall i :: 0 <= i < |short| ==> IsUnreserved(short[i])
  {
    if short == [] then true
    else
      AllowedCharactersAreUnreserved(short[0]);
      assert forall i :: 1 <= i < |short| ==> short[1..][i - 1] == short[i];
      short[0] in AllowedCharacters && CheckShortIsSafe(short[1..])
  }

  /** What an acceptable short is: 1 to 64 bytes long, all characters unreserved. */
  ghost predicate IsValidShort(s: string) {
    && MinLength <= Utf8.ByteLen(s) <= MaxLength
    && forall i :: 0 <= i < |s| ==> IsUnreserved(s[i])
  }

  /** The representation of a short: the string it wraps. */
  datatype ShortValue = Short(value: string)

  /** A validated short. The type carries the invariant that its string is
      1 to 64 bytes long and every character is unreserved, so no value of
      this type can hold an invalid string. */
  type Short = s: ShortValue | IsValidShort(s.value) ghost witness Short("a")

  /** The short as a string slice. It is always a valid short. */
  function AsStr(short: Short): (s: string)
    ensures IsValidShort(s)
    ensures 1 <= |s| <= MaxLength
  {
    ValidShortIsAscii(short.value);
    short.value
  }

  /** Converting a short back into an owned string. It is always a valid short. */
  function IntoString(short: Short): (s: string)
    ensures IsValidShort(s)
    ensures 1 <= |s| <= MaxLength
  {
    ValidShortIsAscii(short.value);
    short.value
  }

  /** Parsing a short. The length checks come first, the character check last. */
  function FromStr(s: string): (r: Result<Short, InvalidShortError>)
    ensures Utf8.ByteLen(s) > MaxLength ==> r == Err(TooLong)
    ensures s == [] ==> r == Err(TooShort)
    ensures r == Err(InvalidCharacters) <==>
              && Utf8.ByteLen(s) <= MaxLength
              && s != []
              && exists i :: 0 <= i < |s| && !IsUnreserved(s[i])
    ensures r.Ok? <==> IsValidShort(s)
    ensures r.Ok? ==> AsStr(r.value) == s
  {
    if Utf8.ByteLen(s) > MaxLength then Err(TooLong)
    else if Utf8.ByteLen(s) < MinLength then Err(TooShort)
    else if !CheckShortIsSafe(s) then Err(InvalidCharacters)
    else
      var short: Short := Short(s);
      Ok(short)
  }

  /** A parsed short gives back the string it was parsed from, through either
      accessor, and parsing that string again yields the same short. */
  lemma ShortRoundTrip(s: string)
    ensures FromStr(s).Ok? ==>
              && AsStr(FromStr(s).value) == s
              && IntoString(FromStr(s).value) == s
              && FromStr(AsStr(FromStr(s).value)) == FromStr(s)
  {
  }

  /** Every accepted short is pure ASCII, so its byte length is also its
      number of characters. */
  lemma ValidShortIsAscii(s: string)
    requires IsValidShort(s)
    ensures Utf8.IsAscii(s) && Utf8.ByteLen(s) == |s|
  {
    assert forall i :: 0 <= i < |s| ==> s[i] as int < 0x80 by {
      forall i | 0 <= i < |s| ensures s[i] as int < 0x80 {
        assert IsUnreserved(s[i]);
      }
    }
    Utf8.ByteLenIsLengthIffAscii(s);
  }

  /** `n` copies of `c`. */
  function Repeat(c: char, n: nat): (s: string)
    ensures |s| == n
    ensures forall i :: 0 <= i < n ==> s[i] == c
  {
    if n == 0 then [] else [c] + Repeat(c, n - 1)
  }

  lemma {:induction false} ByteLenRepeat(c: char, n: nat)
    ensures Utf8.ByteLen(Repeat(c, n)) == n * Utf8.Width(c)
  {
    if n > 0 {
      assert Repeat(c, n)[1..] == Repeat(c, n - 1);
      ByteLenRepeat(c, n - 1);
    }
  }

  /** The boundary cases of the parser: the empty string is too short, 64
      letters are accepted, 65 are too long, and a question mark is refused. */
  lemma FromStrEmptyIsTooShort()
    ensures FromStr("") == Err(TooShort)
  {
  }

  lemma FromStrMaxLengthAccepted()
    ensures FromStr(Repeat('a', MaxLength)).Ok?
  {
    ByteLenRepeat('a', MaxLength);
  }

  lemma FromStrOverMaxLengthTooLong()
    ensures FromStr(Repeat('a', MaxLength + 1)) == Err(TooLong)
  {
    ByteLenRepeat('a', MaxLength + 1);
  }

  lemma FromStrQuestionMarkRefused()
    ensures FromStr("a?b") == Err(InvalidCharacters)
  {
    assert !IsUnreserved("a?b"[1]);
  }

  /** Length is measured in bytes: forty two-byte characters make an 80-byte
      string, which is too long although it has only forty characters, and
      the length error wins over the character error. */
  lemma FromStrCountsBytes()
    ensures |Repeat('\U{E9}', 40)| <= MaxLength
    ensures FromStr(Repeat('\U{E9}', 40)) == Err(TooLong)
  {
    ByteLenRepeat('\U{E9}', 40);
  }

  /** The character check on the strings the source's own tests accept ... */
  lemma CheckShortIsSafeAcceptsWords()
    ensures CheckShortIsSafe("rusty") && CheckShortIsSafe("Rusty")
  {
  }

  lemma CheckShortIsSafeAcceptsDigits()
    ensures CheckShortIsSafe("Rusty42") && CheckShortIsSafe("1234")
  {
  }

  lemma CheckShortIsSafeAcceptsTildes()
    ensures CheckShortIsSafe("~ferris~")
  {
  }

  /** ... and on those they refuse. */
  lemma CheckShortIsSafeRefuses()
    ensures !CheckShortIsSafe("rusty!") && !CheckShortIsSafe("ferris is cool")
    ensures !CheckShortIsSafe("cool/stuff") && !CheckShortIsSafe("a?b")
    ensures !CheckShortIsSafe("a&b") && !CheckShortIsSafe("a#b")
    ensures !CheckShortIsSafe("a%20")
  {
    assert !IsUnreserved("rusty!"[5]);
    assert !IsUnreserved("ferris is cool"[6]);
    assert !IsUnreserved("cool/stuff"[4]);
    assert !IsUnreserved("a?b"[1]);
    assert !IsUnreserved("a&b"[1]);
    assert !IsUnreserved("a#b"[1]);
    assert !IsUnreserved("a%20"[1]);
  }

  /** A short URL: an identifier, a validated short and a parsed target.
      The accessors of the source are the destructors `id`, `short` and
      `target`. */
  datatype ShortUrl = ShortUrl(id: Uuid, short: Short, target: Url)

  /** Building a short URL from a raw short and an already parsed target.
      The identifier, random in the source, is a parameter. */
  function New(id: Uuid, short: string, target: Url): (r: Result<ShortUrl, UrlclawError>)
    ensures r.Ok? <==> IsValidShort(short)
    ensures r.Ok? ==> r.value.id == id && AsStr(r.value.short) == short && r.value.target == target
    ensures r.Err? ==> r.error == InvalidShort(FromStr(short).error)
  {
    match FromStr(short)
    case Err(e) => Err(InvalidShort(e))
    case Ok(s) => Ok(ShortUrl(id, s, target))
  }

  /** Rebuilding a short URL from a stored row: the short is validated again
      and the target parsed again; the short is checked first. */
  function FromDb(id: Uuid, short: string, target: string, parseUrl: UrlParser)
    : (r: Result<ShortUrl, UrlclawError>)
    ensures r.Ok? <==> IsValidShort(short) && parseUrl(target).Ok?
    ensures r.Ok? ==>
              && r.value.id == id
              && AsStr(r.value.short) == short
              && r.value.target == parseUrl(target).value
    ensures !IsValidShort(short) ==> r == Err(InvalidShort(FromStr(short).error))
    ensures IsValidShort(short) && parseUrl(target).Err? ==>
              r == Err(InvalidTarget(parseUrl(target).error))
  {
    match FromStr(short)
    case Err(e) => Err(InvalidShort(e))
    case Ok(s) =>
      match parseUrl(target)
      case Err(e) => Err(InvalidTarget(e))
      case Ok(u) => Ok(ShortUrl(id, s, u))
  }
}
