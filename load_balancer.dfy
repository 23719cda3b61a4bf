/** The pool state of the load balancer: the `ServerList` with its servers and round-robin
    cursor, and the two operations that change it. */
module LoadBalancer {
  import opened Servers
  import opened Selection

  class ServerList {
    /** The admitted backends, in configuration order. */
    var servers: seq<Server>
    /** The round-robin cursor: 0 in a fresh list and -1 after `Init`; after a forward, the
        index of the backend used; after a failed probe, the index just probed. */
    var latest: int

    /** The cursor is never below -1 and, once the pool is non-empty, indexes it. */
    ghost predicate Valid()
      reads this
    {
      latest >= -1 && (|servers| > 0 ==> latest < |servers|)
    }

    /** The zero value of a Go `ServerList`: no servers, `Latest` 0. */
    constructor ()
      ensures servers == [] && latest == 0
      ensures Valid()
    {
      servers := [];
      latest := 0;
    }

    /** `init`: probe every route once, in order, appending the ones that answer; then
        reset the cursor so that the first request starts at index 0. The k-th probe is
        the one for `routes[k]`. */
    method Init(routes: seq<string>, probe: Probe)
      modifies this
      ensures servers == old(servers) + Admitted(routes, probe)
      ensures latest == -1 && (|servers| > 0 ==> NextServer(latest, |servers|) == 0)
      ensures Valid()
    {
      for k := 0 to |routes|
        invariant servers == old(servers) + Admitted(routes[..k], probe)
      {
        var local := Server(routes[k], false);
        var probed, up := IsAlive(local, probe(k));
        local := probed.(alive := up);
        if local.alive {
          servers := servers + [local];
        }
        assert routes[..k + 1][..k] == routes[..k];
      }
      assert routes[..|routes|] == routes;
      latest := -1;
    }

    /** `loadBalance`, without the HTTP plumbing: probe at most `len(Servers)` candidates,
        starting just after the cursor and going round cyclically; forward to the first that
        answers and make it the cursor, or answer 503 once all have failed, each failure having
        moved the cursor one step. `probes` counts the `isAlive` calls. Only the probed
        entries' `Alive` flags and the cursor change. */
    method LoadBalance(probe: Probe) returns (outcome: Outcome, probes: nat)
      requires latest >= -1
      modifies this
      ensures CallResult(outcome, latest, probes) == Select(old(latest), |old(servers)|, probe)
      ensures |old(servers)| == 0 ==> servers == old(servers)
      ensures |old(servers)| > 0 ==> servers == AfterProbes(old(servers), old(latest), probe, probes)
      ensures Valid()
    {
      var n := |servers|;
      if n > 0 {
        ghost var start, pool := latest, servers;
        var serverCount := 0;
        var index := NextServer(latest, n);
        while serverCount < n
          invariant 0 <= serverCount <= n && |servers| == n
          invariant latest == Advance(start, n, serverCount)
          invariant index == Candidate(start, n, serverCount)
          invariant forall j :: 0 <= j < serverCount ==> !probe(j)
          invariant servers == AfterProbes(pool, start, probe, serverCount)
        {
          var probed, up := IsAlive(servers[index], probe(serverCount));
          servers := servers[index := probed];
          assert servers == AfterProbes(pool, start, probe, serverCount + 1);
          if up {
            latest := index;
            SelectFound(start, n, probe, serverCount);
            return Forwarded(index), serverCount + 1;
          }
          serverCount := serverCount + 1;
          latest := NextServer(latest, n);
          index := NextServer(latest, n);
        }
        SelectNoneUp(start, n, probe);
        return Unavailable, serverCount;
      }
      return Unavailable, 0;
    }
  }
}
