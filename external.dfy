/** Stand-ins for the third-party types the core uses: 128-bit identifiers
    and parsed URLs. The URL parser itself is not modelled; callers pass it
    in as a total function from strings to a parse outcome. */
module External {
  import opened Results

  /** A 128-bit identifier. Generating a random one is left to the caller. */
  newtype Uuid = x: int | 0 <= x < 0x1_0000_0000_0000_0000_0000_0000_0000_0000

  /** A parsed, absolute URL, represented by its serialization. */
  datatype Url = Url(serialization: string)

  /** The diagnostic a URL parser reports for a malformed target. */
  datatype ParseError = ParseError(description: string)

  /** Parsing a string into a URL: deterministic, may fail. */
  type UrlParser = string -> Result<Url, ParseError>
}
