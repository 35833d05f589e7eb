/**
 * IDS_Network.py: the database-backed middleware. The `BlockedIP` table is the
 * sequence of its `ip` column (unique, filled only behind an existence check),
 * the `Attack` table an append-only log; `ip_requests` stays an in-memory map.
 */
module IdsNetwork {
  import opened Wrappers
  import opened Signature
  import opened Window
  import opened Events

  datatype Snapshot = Snapshot(ipRequests: map<string, seq<int>>, blockedIps: seq<string>, attacks: seq<Attack>)

  const Initial := Snapshot(map[], [], [])

  /** No IP is stored twice: the `unique=True` column of `BlockedIP`. */
  ghost predicate Unique(rows: seq<string>) {
    forall i, j :: 0 <= i < j < |rows| ==> rows[i] != rows[j]
  }

  /** `detect_bruteforce(ip)`: the row is added only when flagged and not already present. */
  function BruteforceStep(s: Snapshot, ip: string, now: int): (bool, Snapshot) {
    var w := Slide(Lookup(s.ipRequests, ip), now);
    var flagged := Exceeds(w);
    (flagged, s.(ipRequests := s.ipRequests[ip := w],
                 blockedIps := if flagged && ip !in s.blockedIps then s.blockedIps + [ip] else s.blockedIps))
  }

  /** `monitor_request` for one request: the response and the new state. */
  function MonitorStep(s: Snapshot, req: Request, now: int): (Response, Snapshot) {
    if req.ip in s.blockedIps then (AccessBlocked, s)
    else match FirstHit(Sources(req))
      case Some(hit) =>
        (SignatureDenied(hit.kind), s.(attacks := s.attacks + [SignatureAttack(req.ip, hit, now)]))
      case None =>
        var (flagged, s1) := BruteforceStep(s, req.ip, now);
        if flagged then (RateDenied, s1.(attacks := s1.attacks + [BruteForceAttack(req.ip, now)]))
        else (Allow, s1)
  }

  function Run(s: Snapshot, trace: seq<(Request, int)>): Snapshot
    decreases |trace|
  {
    if |trace| == 0 then s
    else
      var last := trace[|trace| - 1];
      MonitorStep(Run(s, trace[..|trace| - 1]), last.0, last.1).1
  }

  /**
   * The guarded insert keeps the column unique; a flagged IP is in the table
   * afterwards, and the table only ever gains `ip` at its end.
   */
  lemma BruteforceKeepsRowsUnique(s: Snapshot, ip: string, now: int)
    requires Unique(s.blockedIps)
    ensures var (flagged, s') := BruteforceStep(s, ip, now);
      && Unique(s'.blockedIps)
      && (flagged ==> ip in s'.blockedIps)
      && (ip in s'.blockedIps <==> ip in s.blockedIps || flagged)
      && s.blockedIps <= s'.blockedIps
      && |s'.blockedIps| <= |s.blockedIps| + 1
      && (flagged <==> |Lookup(s'.ipRequests, ip)| > MaxRequestsPerMin)
      && Lookup(s'.ipRequests, ip) == Fresh(Lookup(s.ipRequests, ip), now) + [now]
      && (s'.blockedIps == s.blockedIps || (flagged && ip !in s.blockedIps && s'.blockedIps == s.blockedIps + [ip]))
      && (forall other :: other != ip ==> Lookup(s'.ipRequests, other) == Lookup(s.ipRequests, other))
      && s'.attacks == s.attacks
  {
    var s' := BruteforceStep(s, ip, now).1;
    if s'.blockedIps != s.blockedIps {
      forall i, j | 0 <= i < j < |s'.blockedIps| ensures s'.blockedIps[i] != s'.blockedIps[j] {
        if j == |s.blockedIps| {
          assert s.blockedIps[i] in s.blockedIps;
        }
      }
    }
  }

  /** A request from a blocked IP gets 403, adds no `Attack` row and leaves the window alone. */
  lemma BlockedRequestIsInert(s: Snapshot, req: Request, now: int)
    requires req.ip in s.blockedIps
    ensures MonitorStep(s, req, now) == (AccessBlocked, s)
  {
  }

  /** The first flagged surface adds exactly one `Attack` row with that surface as payload; no rate accounting. */
  lemma SignatureHitAppendsOneRow(s: Snapshot, req: Request, now: int, i: int, h: Hit)
    requires req.ip !in s.blockedIps
    requires FirstHitAt(Sources(req), i, h)
    ensures var (resp, s') := MonitorStep(s, req, now);
      && resp == Deny(Forbidden, h.kind.Name() + " detected")
      && s'.attacks == s.attacks + [Attack(req.ip, h.kind.Name(), Sources(req)[i], now)]
      && s'.ipRequests == s.ipRequests
      && s'.blockedIps == s.blockedIps
  {
    FirstHitIsFirst(Sources(req));
    var j :| FirstHitAt(Sources(req), j, FirstHit(Sources(req)).value);
  }

  /**
   * A request with no signature: past the threshold it gets 429 and one
   * brute-force row; otherwise it is let through and its only effect is one
   * more timestamp in its own window.
   */
  lemma CleanRequestIsRateChecked(s: Snapshot, req: Request, now: int)
    requires req.ip !in s.blockedIps
    requires forall j :: 0 <= j < |Sources(req)| ==> Detect(Sources(req)[j]).None?
    ensures var (resp, s') := MonitorStep(s, req, now);
      var w := Fresh(Lookup(s.ipRequests, req.ip), now) + [now];
      && s'.ipRequests == s.ipRequests[req.ip := w]
      && (|w| > MaxRequestsPerMin ==>
            && resp == Deny(TooManyRequests, "Too many requests")
            && s'.attacks == s.attacks + [Attack(req.ip, "Brute-force", "Too many requests", now)]
            && s'.blockedIps == s.blockedIps + [req.ip])
      && (|w| <= MaxRequestsPerMin ==> resp == Allow && s' == s.(ipRequests := s.ipRequests[req.ip := w]))
  {
    FirstHitIsFirst(Sources(req));
  }

  /** Over any sequence of requests the blocklist stays duplicate-free and never loses a row. */
  lemma {:induction false} RowsStayUnique(s: Snapshot, trace: seq<(Request, int)>)
    requires Unique(s.blockedIps)
    ensures Unique(Run(s, trace).blockedIps)
    ensures s.blockedIps <= Run(s, trace).blockedIps
    decreases |trace|
  {
    if |trace| > 0 {
      var before := Run(s, trace[..|trace| - 1]);
      var last := trace[|trace| - 1];
      RowsStayUnique(s, trace[..|trace| - 1]);
      BruteforceKeepsRowsUnique(before, last.0.ip, last.1);
    }
  }

  /** Over any sequence of requests the `Attack` table only grows at its end. */
  lemma {:induction false} AttacksAreAppendOnly(s: Snapshot, trace: seq<(Request, int)>)
    ensures s.attacks <= Run(s, trace).attacks
    ensures |Run(s, trace).attacks| <= |s.attacks| + |trace|
    decreases |trace|
  {
    if |trace| > 0 {
      AttacksAreAppendOnly(s, trace[..|trace| - 1]);
    }
  }

  /** The IDS_Network.py state: the two tables and the in-memory windows. */
  class Middleware {
    var ipRequests: map<string, seq<int>>
    var blockedIps: seq<string>
    var attacks: seq<Attack>

    ghost predicate Valid()
      reads this
    {
      Unique(blockedIps)
    }

    ghost function State(): Snapshot
      reads this
    {
      Snapshot(ipRequests, blockedIps, attacks)
    }

    constructor ()
      ensures Valid() && State() == Initial
    {
      ipRequests := map[];
      blockedIps := [];
      attacks := [];
    }

    /** `detect_bruteforce(ip)`. */
    method DetectBruteforce(ip: string, now: int) returns (flagged: bool)
      requires Valid()
      modifies this
      ensures Valid()
      ensures (flagged, State()) == BruteforceStep(old(State()), ip, now)
    {
      ghost var w := Slide(Lookup(ipRequests, ip), now);
      ipRequests := ipRequests[ip := Fresh(Lookup(ipRequests, ip), now)];
      ipRequests := ipRequests[ip := ipRequests[ip] + [now]];
      assert ipRequests == old(ipRequests)[ip := w];
      flagged := |ipRequests[ip]| > MaxRequestsPerMin;
      if flagged {
        if ip !in blockedIps {
          blockedIps := blockedIps + [ip];
        }
      }
      BruteforceKeepsRowsUnique(old(State()), ip, now);
    }

    /** `monitor_request`. */
    method MonitorRequest(req: Request, now: int) returns (resp: Response)
      requires Valid()
      modifies this
      ensures Valid()
      ensures (resp, State()) == MonitorStep(old(State()), req, now)
    {
      if req.ip in blockedIps {
        return AccessBlocked;
      }
      var hit := ScanSources(Sources(req));
      if hit.Some? {
        attacks := attacks + [SignatureAttack(req.ip, hit.value, now)];
        return SignatureDenied(hit.value.kind);
      }
      var flagged := DetectBruteforce(req.ip, now);
      if flagged {
        attacks := attacks + [BruteForceAttack(req.ip, now)];
        return RateDenied;
      }
      return Allow;
    }
  }
}
