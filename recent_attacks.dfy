/**
 * The `recent_attacks` list of IDS.py: newest record first, capped at 50 by
 * `insert(0, record)` followed by one `pop()` when the list grew past the cap.
 */
module RecentAttacks {
  const Capacity := 50

  function Min(a: int, b: int): int {
    if a <= b then a else b
  }

  /** `insert(0, a)`, then `pop()` if the list is longer than Capacity. */
  function Push<T>(buf: seq<T>, a: T): (r: seq<T>)
    ensures |buf| <= Capacity ==> |r| <= Capacity
    ensures |buf| <= Capacity ==> r == [a] + buf[..Min(|buf|, Capacity - 1)]
  {
    var grown := [a] + buf;
    if |grown| > Capacity then grown[..|grown| - 1] else grown
  }

  /** Inserting the records `rs` one by one, oldest first. */
  function PushAll<T>(buf: seq<T>, rs: seq<T>): seq<T>
    decreases |rs|
  {
    if |rs| == 0 then buf
    else Push(PushAll(buf, rs[..|rs| - 1]), rs[|rs| - 1])
  }

  function Reversed<T>(s: seq<T>): seq<T>
    decreases |s|
  {
    if |s| == 0 then [] else [s[|s| - 1]] + Reversed(s[..|s| - 1])
  }

  lemma {:induction false} ReversedAt<T>(s: seq<T>)
    ensures |Reversed(s)| == |s|
    ensures forall k :: 0 <= k < |s| ==> Reversed(s)[k] == s[|s| - 1 - k]
    decreases |s|
  {
    if |s| > 0 {
      ReversedAt(s[..|s| - 1]);
    }
  }

  /** The newest Capacity entries of an append-only log, newest first. */
  function Newest<T>(log: seq<T>): seq<T> {
    ReversedAt(log);
    Reversed(log)[..Min(|log|, Capacity)]
  }

  /** Pushing onto the newest view of a log is the newest view of the longer log. */
  lemma PushNewest<T>(log: seq<T>, a: T)
    ensures Push(Newest(log), a) == Newest(log + [a])
  {
    var longer := log + [a];
    assert longer[..|longer| - 1] == log;
    assert Reversed(longer) == [a] + Reversed(log);
    ReversedAt(log);
  }

  /**
   * After any number of insertions into the empty buffer it holds the
   * min(n, 50) most recent records, newest first; older ones are gone.
   */
  lemma {:induction false} PushAllKeepsNewest<T>(rs: seq<T>)
    ensures PushAll([], rs) == Newest(rs)
    ensures |PushAll([], rs)| == Min(|rs|, Capacity)
    ensures forall k :: 0 <= k < Min(|rs|, Capacity) ==> PushAll([], rs)[k] == rs[|rs| - 1 - k]
    decreases |rs|
  {
    if |rs| > 0 {
      var n := |rs|;
      PushAllKeepsNewest(rs[..n - 1]);
      assert rs == rs[..n - 1] + [rs[n - 1]];
      PushNewest(rs[..n - 1], rs[n - 1]);
    }
    ReversedAt(rs);
  }
}
