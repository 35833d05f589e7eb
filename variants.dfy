/**
 * The two middlewares side by side: from corresponding states they answer
 * every request alike, and the capped IDS.py buffer is always the newest 50
 * rows of the IDS_Network.py `Attack` table, newest first.
 */
module Variants {
  import opened RecentAttacks
  import opened Events
  import Ids
  import IdsNetwork

  ghost predicate Correspond(s: Ids.Snapshot, n: IdsNetwork.Snapshot) {
    && s.ipRequests == n.ipRequests
    && s.blocked == (set ip | ip in n.blockedIps)
    && s.recent == Newest(n.attacks)
  }

  lemma StepsAgree(s: Ids.Snapshot, n: IdsNetwork.Snapshot, req: Request, now: int)
    requires Correspond(s, n)
    ensures Ids.MonitorStep(s, req, now).0 == IdsNetwork.MonitorStep(n, req, now).0
    ensures Correspond(Ids.MonitorStep(s, req, now).1, IdsNetwork.MonitorStep(n, req, now).1)
  {
    var (_, s') := Ids.MonitorStep(s, req, now);
    var (_, n') := IdsNetwork.MonitorStep(n, req, now);
    if req.ip !in s.blocked {
      if n'.attacks != n.attacks {
        assert n'.attacks == n.attacks + [n'.attacks[|n'.attacks| - 1]];
        PushNewest(n.attacks, n'.attacks[|n'.attacks| - 1]);
      }
      assert s'.blocked == (set ip | ip in n'.blockedIps);
    }
  }

  lemma {:induction false} RunsAgree(trace: seq<(Request, int)>)
    ensures Correspond(Ids.Run(Ids.Initial, trace), IdsNetwork.Run(IdsNetwork.Initial, trace))
    decreases |trace|
  {
    if |trace| == 0 {
      assert (set ip | ip in IdsNetwork.Initial.blockedIps) == {};
    } else {
      var last := trace[|trace| - 1];
      RunsAgree(trace[..|trace| - 1]);
      StepsAgree(Ids.Run(Ids.Initial, trace[..|trace| - 1]), IdsNetwork.Run(IdsNetwork.Initial, trace[..|trace| - 1]), last.0, last.1);
    }
  }
}
