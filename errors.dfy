/** The error types of the core. */
module Errors {
  import opened External

  /** Why a string is not an acceptable short. */
  datatype InvalidShortError = InvalidCharacters | TooShort | TooLong

  /** The crate-wide error. `InvalidShort` is the error a failed short parse
      is converted into when it is propagated with `?`; that conversion is not
      part of this model's sources, so it is represented here as a separate
      variant carrying the reason. The payloads of the database and catch-all
      variants are opaque descriptions. */
  datatype UrlclawError =
    | ShortUrlInvalid
    | ShortAlreadyExists
    | UrlNotFound
    | InvalidTarget(parseError: ParseError)
    | Database(detail: string)
    | Other(detail: string)
    | InvalidShort(reason: InvalidShortError)
}
