/** What one request brings in and what the middleware answers or records. */
module Events {
  import opened Signature

  /** The four strings `monitor_request` reads from the Flask request. */
  datatype Request = Request(ip: string, body: string, query: string, headers: string)

  /** `sources = [body, query, headers]`, in the order they are scanned. */
  function Sources(req: Request): seq<string> {
    [req.body, req.query, req.headers]
  }

  /** A recorded attack: the IDS.py dict and the IDS_Network.py `Attack` row carry the same four fields. */
  datatype Attack = Attack(ip: string, kind: string, payload: string, time: int)

  /** `None` from the before-request hook lets the request through; the others are JSON errors. */
  datatype Response = Allow | Deny(status: int, error: string)

  const Forbidden := 403
  const TooManyRequests := 429

  const AccessBlocked: Response := Deny(Forbidden, "Access blocked")
  const RateDenied: Response := Deny(TooManyRequests, "Too many requests")

  function SignatureDenied(kind: Label): Response {
    Deny(Forbidden, kind.Name() + " detected")
  }

  function SignatureAttack(ip: string, hit: Hit, now: int): Attack {
    Attack(ip, hit.kind.Name(), hit.payload, now)
  }

  function BruteForceAttack(ip: string, now: int): Attack {
    Attack(ip, "Brute-force", "Too many requests", now)
  }
}
