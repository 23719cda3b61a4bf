/** The backends of the pool, their health probe, and which routes `init` admits. */
module Servers {

  /** One backend. Go keeps `Server` values by value in the pool's slice. The reverse
      proxy bound to the route is not modelled. */
  datatype Server = Server(route: string, alive: bool)

  /** What one `loadBalance` call does with a request: hand it to the backend at `index`,
      or answer 503 "No Servers Available". */
  datatype Outcome = Forwarded(index: int) | Unavailable

  /** The oracle that stands for the network: `probe(k)` is whether the k-th TCP dial of one
      operation reaches its backend within the one-second timeout. */
  type Probe = nat -> bool

  /** `(*Server).isAlive`: dial the route (its answer is `reachable`), record the answer in
      `Alive` and return it. The route is left alone. */
  method IsAlive(server: Server, reachable: bool) returns (probed: Server, up: bool)
    ensures up == reachable
    ensures probed.alive == up && probed.route == server.route
  {
    if !reachable {
      probed := server.(alive := false);
      return probed, false;
    }
    probed := server.(alive := true);
    return probed, true;
  }

  /** The servers that `init` appends for `routes`, where the k-th route is probed by the
      k-th dial: exactly the reachable routes, marked alive, in input order. */
  function Admitted(routes: seq<string>, probe: Probe): (r: seq<Server>)
    ensures |r| <= |routes|
    ensures forall j :: 0 <= j < |r| ==> r[j].alive && r[j].route in routes
  {
    if routes == [] then []
    else
      var k := |routes| - 1;
      var front := Admitted(routes[..k], probe);
      assert forall j :: 0 <= j < |front| ==> front[j].route in routes by {
        assert forall x :: x in routes[..k] ==> x in routes;
      }
      front + (if probe(k) then [Server(routes[k], true)] else [])
  }

  /** The positions below `m` whose probe succeeds, in increasing order. */
  function AliveIndices(probe: Probe, m: nat): (r: seq<nat>)
    ensures forall j :: 0 <= j < |r| ==> r[j] < m && probe(r[j])
    ensures forall a, b :: 0 <= a < b < |r| ==> r[a] < r[b]
    ensures forall k :: 0 <= k < m && probe(k) ==> k in r
  {
    if m == 0 then []
    else AliveIndices(probe, m - 1) + (if probe(m - 1) then [m - 1] else [])
  }

  /** `init` keeps a route exactly when its probe succeeded and keeps their relative order:
      the j-th admitted server is the route at the j-th successful position. */
  lemma {:induction false} AdmittedInOrder(routes: seq<string>, probe: Probe)
    ensures |Admitted(routes, probe)| == |AliveIndices(probe, |routes|)|
    ensures forall j :: 0 <= j < |Admitted(routes, probe)| ==>
              AliveIndices(probe, |routes|)[j] < |routes| &&
              Admitted(routes, probe)[j] == Server(routes[AliveIndices(probe, |routes|)[j]], true)
  {
    if routes != [] {
      var k := |routes| - 1;
      AdmittedInOrder(routes[..k], probe);
      assert |routes[..k]| == k;
    }
  }

  /** Membership form of the same fact: a route is admitted iff some position holding it
      was probed successfully, and everything admitted is marked alive. */
  lemma {:induction false} AdmittedMembership(routes: seq<string>, probe: Probe, s: Server)
    ensures s in Admitted(routes, probe) <==>
              s.alive && exists k :: 0 <= k < |routes| && routes[k] == s.route && probe(k)
  {
    AdmittedInOrder(routes, probe);
    var r, idx := Admitted(routes, probe), AliveIndices(probe, |routes|);
    if s in r {
      var j :| 0 <= j < |r| && r[j] == s;
      var k := idx[j];
      assert 0 <= k < |routes| && routes[k] == s.route && probe(k);
    }
    if s.alive && exists k :: 0 <= k < |routes| && routes[k] == s.route && probe(k) {
      var k :| 0 <= k < |routes| && routes[k] == s.route && probe(k);
      assert k in idx;
      var j :| 0 <= j < |idx| && idx[j] == k;
      assert r[j] == Server(routes[k], true) == s;
    }
  }
}
