/**
 * The records the breach service exchanges. The Go `models` package that
 * declares them is not part of this model; its field names are taken from
 * their uses, an ID is an integer and every other scalar is a string.
 */
module Models {

  /** A Go `error`, reduced to its message. */
  datatype Error = Error(message: string)

  /** One row of `breach_metadata`: a breached service and the fields its dump holds. */
  datatype BreachMetadata = BreachMetadata(
    id: int,
    name: string,
    date: string,
    description: string,
    severity: string,
    fields: seq<string>,
    link: string)

  /** The request of the sensitive-data lookup: which field, and the digest prefix. */
  datatype SensitiveSearchRequest = SensitiveSearchRequest(field: string, hash: string)

  /** One breach as the client sees it, with a match status per field of the dump. */
  datatype BreachMatch = BreachMatch(
    id: int,
    name: string,
    date: string,
    description: string,
    severity: string,
    link: string,
    fields: map<string, string>)

  datatype NormalSearchResponse = NormalSearchResponse(matches: seq<BreachMatch>)

  /** Full digest -> the breaches whose tables hold that digest. */
  datatype SensitiveSearchResponse =
    SensitiveSearchResponse(potentialPasswords: map<string, NormalSearchResponse>)
}
