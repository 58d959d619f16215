/**
 * What a CGI script prints back, and the request pieces every script reads
 * the same way.
 */
module Http {
  import opened Wrappers

  /**
   * The JSON object a script prints:
   *  - `Preflight`: `{"status": "ok"}`, the answer to `OPTIONS`;
   *  - `Ok`: `{"success": true, "message"?: …, "data"?: …}`;
   *  - `Err`: `{"success": false, "error": …}`;
   *  - `Bare`: `{"error": …}` with no `success` field (the marketing endpoints).
   */
  datatype Reply<D> = Preflight | Ok(message: Option<string>, data: D) | Err(error: string) | Bare(error: string)

  /** Python's truthiness for an optional form or header value: absent or empty is false. */
  predicate Present(v: Option<string>) {
    v.Some? && v.value != ""
  }

  /** `d.get(k)`. */
  function Get(m: map<string, string>, k: string): (r: Option<string>)
    ensures r.Some? <==> k in m
    ensures r.Some? ==> r.value == m[k]
  {
    if k in m then Some(m[k]) else None
  }

  /** `d.get(k, '')`. */
  function GetOrEmpty(m: map<string, string>, k: string): (r: string)
    ensures k in m ==> r == m[k]
    ensures k !in m ==> r == ""
  {
    Get(m, k).GetOr("")
  }

  /** The reply to a method a script has no branch for. */
  function MethodNotAllowed(verb: string): string {
    "Method " + verb + " not allowed."
  }
}
