/**
 * The per-IP sliding window of `detect_bruteforce` (IDS.py and IDS_Network.py):
 * the timestamps younger than a minute, in arrival order, then the new one.
 */
module Window {
  const WindowSeconds := 60
  const MaxRequestsPerMin := 20

  /** `ip_requests[ip]` of a defaultdict(list): a missing key reads as empty. */
  function Lookup(m: map<string, seq<int>>, ip: string): seq<int> {
    if ip in m then m[ip] else []
  }

  /** The list comprehension `[t for t in ts if now - t < 60]`. */
  function Fresh(ts: seq<int>, now: int): (r: seq<int>)
    ensures |r| <= |ts|
    ensures forall t :: t in r ==> now - t < WindowSeconds
    ensures forall t :: multiset(r)[t] == if now - t < WindowSeconds then multiset(ts)[t] else 0
  {
    if |ts| == 0 then []
    else
      assert ts == [ts[0]] + ts[1..];
      (if now - ts[0] < WindowSeconds then [ts[0]] else []) + Fresh(ts[1..], now)
  }

  /** Eviction, then `append(now)`. */
  function Slide(ts: seq<int>, now: int): seq<int> {
    Fresh(ts, now) + [now]
  }

  /** The count comparison: more than MaxRequestsPerMin entries. */
  predicate Exceeds(ts: seq<int>) {
    |ts| > MaxRequestsPerMin
  }

  /** Eviction keeps the surviving timestamps in their original order. */
  lemma {:induction false} FreshAppend(a: seq<int>, b: seq<int>, now: int)
    ensures Fresh(a + b, now) == Fresh(a, now) + Fresh(b, now)
    decreases |a|
  {
    if |a| == 0 {
      assert a + b == b;
    } else {
      assert (a + b)[1..] == a[1..] + b;
      FreshAppend(a[1..], b, now);
    }
  }

  /** A window whose entries are all younger than a minute is kept whole. */
  lemma {:induction false} FreshKeepsRecent(ts: seq<int>, now: int)
    requires forall i :: 0 <= i < |ts| ==> now - ts[i] < WindowSeconds
    ensures Fresh(ts, now) == ts
    decreases |ts|
  {
    if |ts| > 0 {
      FreshKeepsRecent(ts[1..], now);
      assert ts == [ts[0]] + ts[1..];
    }
  }

  /** After a quiet minute the count restarts at one and nothing is flagged. */
  lemma {:induction false} GapRestartsCount(ts: seq<int>, now: int)
    requires forall i :: 0 <= i < |ts| ==> now - ts[i] >= WindowSeconds
    ensures Slide(ts, now) == [now]
    ensures !Exceeds(Slide(ts, now))
    decreases |ts|
  {
    if |ts| > 0 {
      GapRestartsCount(ts[1..], now);
    }
  }

  /** The first request of an IP never exceeds the threshold. */
  lemma FirstSightingNotFlagged(now: int)
    ensures Slide([], now) == [now]
    ensures !Exceeds(Slide([], now))
  {
  }

  /** The window after a series of requests at the times `nows`. */
  function Replay(ts: seq<int>, nows: seq<int>): seq<int>
    decreases |nows|
  {
    if |nows| == 0 then ts
    else Slide(Replay(ts, nows[..|nows| - 1]), nows[|nows| - 1])
  }

  /** Non-decreasing request times all within one minute of the first. */
  ghost predicate Burst(nows: seq<int>) {
    && (forall i, j :: 0 <= i <= j < |nows| ==> nows[i] <= nows[j])
    && (|nows| > 0 ==> nows[|nows| - 1] - nows[0] < WindowSeconds)
  }

  /** Within a burst nothing is evicted: the window holds every request. */
  lemma {:induction false} BurstIsKept(nows: seq<int>)
    requires Burst(nows)
    ensures Replay([], nows) == nows
    decreases |nows|
  {
    if |nows| > 0 {
      var n := |nows|;
      var prefix := nows[..n - 1];
      assert Burst(prefix);
      BurstIsKept(prefix);
      FreshKeepsRecent(prefix, nows[n - 1]);
      assert nows == prefix + [nows[n - 1]];
    }
  }

  /** In a burst from a new IP, call k is flagged exactly when k > 20: the 21st is the first. */
  lemma TwentyFirstRequestIsFirstFlagged(nows: seq<int>, k: nat)
    requires Burst(nows)
    requires 1 <= k <= |nows|
    ensures Exceeds(Replay([], nows[..k])) <==> k > MaxRequestsPerMin
  {
    assert Burst(nows[..k]);
    BurstIsKept(nows[..k]);
  }
}
