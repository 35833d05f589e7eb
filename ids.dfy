/**
 * IDS.py: the in-memory middleware. State is the `ip_requests` defaultdict,
 * the `BLOCKED_IPS` set and the capped `recent_attacks` list.
 */
module Ids {
  import opened Wrappers
  import opened Signature
  import opened Window
  import opened RecentAttacks
  import opened Events

  /** The module-level state of IDS.py, as one value. */
  datatype Snapshot = Snapshot(ipRequests: map<string, seq<int>>, blocked: set<string>, recent: seq<Attack>)

  const Initial := Snapshot(map[], {}, [])

  /** `detect_bruteforce(ip)` with the clock read as `now`: the verdict and the new state. */
  function BruteforceStep(s: Snapshot, ip: string, now: int): (bool, Snapshot) {
    var w := Slide(Lookup(s.ipRequests, ip), now);
    var flagged := Exceeds(w);
    (flagged, s.(ipRequests := s.ipRequests[ip := w],
                 blocked := if flagged then s.blocked + {ip} else s.blocked))
  }

  /** `monitor_request` for one request: the response and the new state. */
  function MonitorStep(s: Snapshot, req: Request, now: int): (Response, Snapshot) {
    if req.ip in s.blocked then (AccessBlocked, s)
    else match FirstHit(Sources(req))
      case Some(hit) =>
        (SignatureDenied(hit.kind), s.(recent := Push(s.recent, SignatureAttack(req.ip, hit, now))))
      case None =>
        var (flagged, s1) := BruteforceStep(s, req.ip, now);
        if flagged then (RateDenied, s1.(recent := Push(s1.recent, BruteForceAttack(req.ip, now))))
        else (Allow, s1)
  }

  /** The state after handling the requests of `trace` (each with its arrival time) in order. */
  function Run(s: Snapshot, trace: seq<(Request, int)>): Snapshot
    decreases |trace|
  {
    if |trace| == 0 then s
    else
      var last := trace[|trace| - 1];
      MonitorStep(Run(s, trace[..|trace| - 1]), last.0, last.1).1
  }

  /** The window update touches only `ip`'s list, and flags exactly when it holds more than 20 entries. */
  lemma BruteforceUpdatesOnlyItsWindow(s: Snapshot, ip: string, now: int)
    ensures var (flagged, s') := BruteforceStep(s, ip, now);
      && Lookup(s'.ipRequests, ip) == Fresh(Lookup(s.ipRequests, ip), now) + [now]
      && (forall other :: other != ip ==> Lookup(s'.ipRequests, other) == Lookup(s.ipRequests, other))
      && (flagged <==> |Lookup(s'.ipRequests, ip)| > MaxRequestsPerMin)
      && s'.recent == s.recent
  {
  }

  /** The blocklist never shrinks; it gains `ip` exactly when the call flags it, and nothing else. */
  lemma BruteforceGrowsBlocklist(s: Snapshot, ip: string, now: int)
    ensures var (flagged, s') := BruteforceStep(s, ip, now);
      && s.blocked <= s'.blocked
      && s'.blocked - s.blocked <= {ip}
      && (ip in s'.blocked <==> ip in s.blocked || flagged)
  {
  }

  /** A request from a blocked IP gets 403 and changes nothing. */
  lemma BlockedRequestIsInert(s: Snapshot, req: Request, now: int)
    requires req.ip in s.blocked
    ensures MonitorStep(s, req, now) == (AccessBlocked, s)
  {
  }

  /**
   * The first flagged surface (body, then query, then headers) is recorded once,
   * at the front of the buffer, with that surface as payload; the answer is
   * 403 "<label> detected" and no window or blocklist is touched.
   */
  lemma SignatureHitIsRecordedOnce(s: Snapshot, req: Request, now: int, i: int, h: Hit)
    requires req.ip !in s.blocked
    requires |s.recent| <= Capacity
    requires FirstHitAt(Sources(req), i, h)
    ensures var (resp, s') := MonitorStep(s, req, now);
      && resp == Deny(Forbidden, h.kind.Name() + " detected")
      && s'.recent == [Attack(req.ip, h.kind.Name(), Sources(req)[i], now)] + s.recent[..Min(|s.recent|, Capacity - 1)]
      && s'.ipRequests == s.ipRequests
      && s'.blocked == s.blocked
  {
    FirstHitIsFirst(Sources(req));
    var j :| FirstHitAt(Sources(req), j, FirstHit(Sources(req)).value);
  }

  /** With no signature, the rate check decides between 429 with a brute-force record and letting the request through. */
  lemma CleanRequestIsRateChecked(s: Snapshot, req: Request, now: int)
    requires req.ip !in s.blocked
    requires |s.recent| <= Capacity
    requires forall j :: 0 <= j < |Sources(req)| ==> Detect(Sources(req)[j]).None?
    ensures var (resp, s') := MonitorStep(s, req, now);
      var w := Fresh(Lookup(s.ipRequests, req.ip), now) + [now];
      && s'.ipRequests == s.ipRequests[req.ip := w]
      && (|w| > MaxRequestsPerMin ==>
            && resp == Deny(TooManyRequests, "Too many requests")
            && s'.blocked == s.blocked + {req.ip}
            && s'.recent == [Attack(req.ip, "Brute-force", "Too many requests", now)] + s.recent[..Min(|s.recent|, Capacity - 1)])
      && (|w| <= MaxRequestsPerMin ==> resp == Allow && s'.blocked == s.blocked && s'.recent == s.recent)
  {
    FirstHitIsFirst(Sources(req));
  }

  /** Over any sequence of requests the buffer stays within 50 entries. */
  lemma {:induction false} RecentStaysBounded(s: Snapshot, trace: seq<(Request, int)>)
    requires |s.recent| <= Capacity
    ensures |Run(s, trace).recent| <= Capacity
    decreases |trace|
  {
    if |trace| > 0 {
      RecentStaysBounded(s, trace[..|trace| - 1]);
    }
  }

  /** Over any sequence of requests no IP leaves the blocklist. */
  lemma {:induction false} BlocklistIsPermanent(s: Snapshot, trace: seq<(Request, int)>)
    ensures s.blocked <= Run(s, trace).blocked
    decreases |trace|
  {
    if |trace| > 0 {
      BlocklistIsPermanent(s, trace[..|trace| - 1]);
    }
  }

  /** The IDS.py module state, updated in place by each request. */
  class Middleware {
    var ipRequests: map<string, seq<int>>
    var blocked: set<string>
    var recentAttacks: seq<Attack>

    ghost predicate Valid()
      reads this
    {
      |recentAttacks| <= Capacity
    }

    ghost function State(): Snapshot
      reads this
    {
      Snapshot(ipRequests, blocked, recentAttacks)
    }

    constructor ()
      ensures Valid() && State() == Initial
    {
      ipRequests := map[];
      blocked := {};
      recentAttacks := [];
    }

    /** `detect_bruteforce(ip)`. */
    method DetectBruteforce(ip: string, now: int) returns (flagged: bool)
      modifies this
      ensures (flagged, State()) == BruteforceStep(old(State()), ip, now)
    {
      ghost var w := Slide(Lookup(ipRequests, ip), now);
      ipRequests := ipRequests[ip := Fresh(Lookup(ipRequests, ip), now)];
      ipRequests := ipRequests[ip := ipRequests[ip] + [now]];
      assert ipRequests == old(ipRequests)[ip := w];
      flagged := |ipRequests[ip]| > MaxRequestsPerMin;
      if flagged {
        blocked := blocked + {ip};
      }
    }

    /** `recent_attacks.insert(0, a)`, then `pop()` past the cap. */
    method RecordAttack(a: Attack)
      requires Valid()
      modifies this
      ensures Valid()
      ensures State() == old(State()).(recent := Push(old(recentAttacks), a))
    {
      recentAttacks := [a] + recentAttacks;
      if |recentAttacks| > Capacity {
        recentAttacks := recentAttacks[..|recentAttacks| - 1];
      }
    }

    /** `monitor_request`. */
    method MonitorRequest(req: Request, now: int) returns (resp: Response)
      requires Valid()
      modifies this
      ensures Valid()
      ensures (resp, State()) == MonitorStep(old(State()), req, now)
    {
      if req.ip in blocked {
        return AccessBlocked;
      }
      var hit := ScanSources(Sources(req));
      if hit.Some? {
        RecordAttack(SignatureAttack(req.ip, hit.value, now));
        return SignatureDenied(hit.value.kind);
      }
      var flagged := DetectBruteforce(req.ip, now);
      if flagged {
        RecordAttack(BruteForceAttack(req.ip, now));
        return RateDenied;
      }
      return Allow;
    }
  }
}
