/** The parts of an inbound HTTP request that authentication reads. */
module Http {

  /** A header set or a parsed query string: each key maps to its values, in order. */
  type Values = map<string, seq<string>>

  /** The first value stored under `key`, or "" when the key is absent or has no values. */
  function Get(v: Values, key: string): string
  {
    if key in v && |v[key]| > 0 then v[key][0] else ""
  }

  /** A request as the authenticator sees it: its headers and its parsed URL query. */
  datatype Request = Request(header: Values, query: Values)

  /** The header that carries HTTP Basic credentials. */
  const Authorization: string := "Authorization"
}
