/** The round-robin selection of `loadBalance`, stated as functions of the cursor `Latest`,
    the pool size `n` and the probe oracle, with the properties the loop guarantees. */
module Selection {
  import opened GoArith
  import opened Servers

  /** `nextServer`: the index after the cursor, `(Latest + 1) % len(Servers)` with Go's `%`.
      Go panics on a zero divisor; `loadBalance` only calls it on a non-empty pool. */
  function NextServer(latest: int, n: int): (r: int)
    requires n > 0
    ensures latest >= -1 ==> 0 <= r < n && r == (latest + 1) % n
    ensures latest == -1 ==> r == 0
    ensures 0 <= latest < n - 1 ==> r == latest + 1
    ensures latest == n - 1 ==> r == 0
    ensures latest < -1 ==> -n < r <= 0
  {
    Rem(latest + 1, n)
  }

  /** The cursor after `k` steps of `Latest = nextServer()`. */
  function Advance(latest: int, n: int, k: nat): (r: int)
    requires n > 0
    ensures latest >= -1 ==> r >= -1
    ensures latest >= -1 && k > 0 ==> 0 <= r < n
  {
    if k == 0 then latest else NextServer(Advance(latest, n, k - 1), n)
  }

  /** Stepping the cursor `k` times from `latest >= -1` is adding `k` modulo `n`. */
  lemma {:induction false} AdvanceClosedForm(latest: int, n: int, k: nat)
    requires n > 0 && latest >= -1 && k > 0
    ensures Advance(latest, n, k) == (latest + k) % n
  {
    if k > 1 {
      AdvanceClosedForm(latest, n, k - 1);
      ModAddLeft(latest + k - 1, 1, n);
    }
  }

  /** The index that the k-th probe (counting from 0) of one `loadBalance` call examines,
      when the call started with cursor `latest`. */
  function Candidate(latest: int, n: int, k: nat): (i: int)
    requires n > 0 && latest >= -1
    ensures 0 <= i < n
  {
    Advance(latest, n, k + 1)
  }

  /** Attempt `k` examines index `i` exactly when `i` lies `k + 1` places after the cursor,
      counting cyclically: the first `n` attempts visit every index once. */
  lemma CandidateOffset(latest: int, n: int, k: nat, i: int)
    requires n > 0 && latest >= -1 && k < n && 0 <= i < n
    ensures Candidate(latest, n, k) == i <==> (i - latest - 1) % n == k
  {
    AdvanceClosedForm(latest, n, k + 1);
    if i == (latest + 1 + k) % n {
      OffsetOfSum(latest + 1, k, n);
    }
    if (i - latest - 1) % n == k {
      SumOfOffset(latest + 1, i, n);
    }
  }

  lemma OffsetOfSum(a: int, k: int, n: int)
    requires n > 0 && 0 <= k < n
    ensures ((a + k) % n - a) % n == k
  {
    var q := (a + k) / n;
    var c := (a + k) % n;
    assert a + k == q * n + c;
    assert c - a == (-q) * n + k;
    ModUnique(c - a, n, -q, k);
  }

  lemma SumOfOffset(a: int, i: int, n: int)
    requires n > 0 && 0 <= i < n
    ensures (a + (i - a) % n) % n == i
  {
    var p := (i - a) / n;
    var k := (i - a) % n;
    assert i - a == p * n + k;
    assert a + k == (-p) * n + i;
    ModUnique(a + k, n, -p, i);
  }

  /** No two of the first `n` attempts examine the same index. */
  lemma CandidatesDistinct(latest: int, n: int, j: nat, k: nat)
    requires n > 0 && latest >= -1 && j < k < n
    ensures Candidate(latest, n, j) != Candidate(latest, n, k)
  {
    var i := Candidate(latest, n, j);
    CandidateOffset(latest, n, j, i);
    CandidateOffset(latest, n, k, i);
  }

  /** The first of the attempts `0 .. n-1` whose probe succeeds, if any. */
  function FirstUp(probe: Probe, n: nat): (r: Option<nat>)
    ensures r.Some? ==> r.value < n && probe(r.value)
    ensures r.Some? ==> forall j :: 0 <= j < r.value ==> !probe(j)
    ensures r.None? <==> forall j :: 0 <= j < n ==> !probe(j)
  {
    if n == 0 then None
    else match FirstUp(probe, n - 1)
      case Some(k) => Some(k)
      case None => if probe(n - 1) then Some(n - 1) else None
  }

  datatype Option<T> = None | Some(value: T)

  /** The observable result of one `loadBalance` call: the outcome, the cursor afterwards and
      how many probes were made. */
  datatype CallResult = CallResult(outcome: Outcome, cursor: int, probes: nat)

  /** One `loadBalance` call on a pool of `n` servers with cursor `latest`: forward to the
      first candidate that answers and move the cursor there; when none answers, the cursor
      has moved `n` steps and the answer is 503. An empty pool is never probed. */
  function Select(latest: int, n: nat, probe: Probe): (s: CallResult)
    requires latest >= -1
    ensures s.probes <= n
    ensures n == 0 ==> s == CallResult(Unavailable, latest, 0)
    ensures n > 0 ==> 0 <= s.cursor < n
    ensures s.outcome.Forwarded? ==> s.outcome.index == s.cursor && s.probes > 0 && probe(s.probes - 1)
    ensures forall j :: 0 <= j < s.probes - (if s.outcome.Forwarded? then 1 else 0) ==> !probe(j)
    ensures n > 0 && s.outcome == Unavailable ==> s.probes == n
  {
    if n == 0 then CallResult(Unavailable, latest, 0)
    else match FirstUp(probe, n)
      case Some(k) => CallResult(Forwarded(Candidate(latest, n, k)), Candidate(latest, n, k), k + 1)
      case None => CallResult(Unavailable, Advance(latest, n, n), n)
  }

  /** When attempt `k` is the first to succeed, the call forwards to attempt `k`'s candidate
      after `k + 1` probes. */
  lemma SelectFound(latest: int, n: nat, probe: Probe, k: nat)
    requires latest >= -1 && k < n && probe(k)
    requires forall j :: 0 <= j < k ==> !probe(j)
    ensures Select(latest, n, probe) ==
              CallResult(Forwarded(Candidate(latest, n, k)), Candidate(latest, n, k), k + 1)
  {
    assert FirstUp(probe, n) == Some(k);
  }

  /** When all `n` attempts fail, the call answers 503 after `n` probes and `n` cursor steps. */
  lemma SelectNoneUp(latest: int, n: nat, probe: Probe)
    requires latest >= -1 && n > 0
    requires forall j :: 0 <= j < n ==> !probe(j)
    ensures Select(latest, n, probe) == CallResult(Unavailable, Advance(latest, n, n), n)
  {
    assert FirstUp(probe, n) == None;
  }

  /** A request is forwarded to index `i` iff some attempt `k < n` succeeds, all attempts
      before it fail, and `i` is `k + 1` places after the cursor, taken cyclically. */
  lemma SelectForwardsFirstLive(latest: int, n: nat, probe: Probe, i: int)
    requires latest >= -1
    ensures Select(latest, n, probe).outcome == Forwarded(i) <==>
              exists k :: FirstLiveAt(probe, n, k) && i == (latest + 1 + k) % n
  {
    if n > 0 {
      match FirstUp(probe, n)
      case Some(k) =>
        AdvanceClosedForm(latest, n, k + 1);
        assert FirstLiveAt(probe, n, k);
        forall k' | FirstLiveAt(probe, n, k') ensures k' == k {
          if k' != k { assert false; }
        }
      case None =>
    }
  }

  /** Attempt `k` is the first of the `n` attempts whose probe succeeds. */
  ghost predicate FirstLiveAt(probe: Probe, n: nat, k: int)
  {
    0 <= k < n && probe(k) && forall j :: 0 <= j < k ==> !probe(j)
  }

  /** 503 is answered iff the pool is empty or every one of the `n` probes fails; then
      exactly `n` probes were made and the cursor is `(latest + n) % n`, which is `latest`
      itself for a cursor inside the pool and `n - 1` for the initial cursor -1. */
  lemma SelectExhausted(latest: int, n: nat, probe: Probe)
    requires latest >= -1
    ensures Select(latest, n, probe).outcome == Unavailable <==>
              forall k :: 0 <= k < n ==> !probe(k)
    ensures n > 0 && Select(latest, n, probe).outcome == Unavailable ==>
              Select(latest, n, probe).probes == n &&
              Select(latest, n, probe).cursor == (latest + n) % n &&
              (0 <= latest < n ==> Select(latest, n, probe).cursor == latest) &&
              (latest == -1 ==> Select(latest, n, probe).cursor == n - 1)
  {
    if n > 0 && FirstUp(probe, n).None? {
      AdvanceClosedForm(latest, n, n);
      if 0 <= latest < n {
        ModUnique(latest + n, n, 1, latest);
      }
      if latest == -1 {
        ModUnique(n - 1, n, 0, n - 1);
      }
    }
  }

  /** A pool of one backend uses it exactly when this call's own probe answers, whatever
      earlier calls observed. */
  lemma SingleServer(latest: int, probe: Probe)
    requires latest >= -1
    ensures Select(latest, 1, probe).outcome == if probe(0) then Forwarded(0) else Unavailable
    ensures Select(latest, 1, probe).probes == 1 && Select(latest, 1, probe).cursor == 0
  {
    if probe(0) {
      assert FirstUp(probe, 1) == Some(0);
    }
  }

  /** The pool after the first `m` probes of one call: each examined entry's `Alive` flag is
      that probe's answer. */
  function AfterProbes(s: seq<Server>, latest: int, probe: Probe, m: nat): (r: seq<Server>)
    requires |s| > 0 && latest >= -1
    ensures |r| == |s|
    ensures forall i :: 0 <= i < |r| ==> r[i].route == s[i].route
  {
    if m == 0 then s
    else
      var prev := AfterProbes(s, latest, probe, m - 1);
      var i := Candidate(latest, |s|, m - 1);
      prev[i := prev[i].(alive := probe(m - 1))]
  }

  /** After `m <= n` probes, an entry lying `d` places after the cursor holds the answer of
      probe `d` if `d < m`, and is untouched otherwise. */
  lemma {:induction false} AfterProbesAt(s: seq<Server>, latest: int, probe: Probe, m: nat, i: int)
    requires |s| > 0 && latest >= -1 && m <= |s| && 0 <= i < |s|
    ensures AfterProbes(s, latest, probe, m)[i] ==
              if (i - latest - 1) % |s| < m then s[i].(alive := probe((i - latest - 1) % |s|))
              else s[i]
  {
    if m > 0 {
      AfterProbesAt(s, latest, probe, m - 1, i);
      CandidateOffset(latest, |s|, m - 1, i);
    }
  }

  /** The outcomes of successive `loadBalance` calls, the i-th answered by `probes[i]`, each
      call starting from the cursor the previous one left. */
  function Serve(latest: int, n: nat, probes: seq<Probe>): (r: seq<Outcome>)
    requires latest >= -1
    decreases |probes|
    ensures |r| == |probes|
  {
    if probes == [] then []
    else
      var first := Select(latest, n, probes[0]);
      [first.outcome] + Serve(first.cursor, n, probes[1..])
  }

  /** A call whose first probe answers forwards to the index just after the cursor. */
  lemma SelectFirstUp(latest: int, n: nat, probe: Probe)
    requires latest >= -1 && n > 0 && probe(0)
    ensures Select(latest, n, probe) == CallResult(Forwarded((latest + 1) % n), (latest + 1) % n, 1)
  {
    assert FirstUp(probe, n) == Some(0);
    AdvanceClosedForm(latest, n, 1);
  }

  /** Round-robin order: when every backend answers every probe, the j-th of a run of
      requests goes to the index `j + 1` places after the starting cursor, cyclically. */
  lemma {:induction false} ServeAllUpIsCyclic(latest: int, n: nat, probes: seq<Probe>)
    requires latest >= -1 && n > 0
    requires forall c, k :: 0 <= c < |probes| ==> probes[c](k)
    ensures forall j :: 0 <= j < |probes| ==> Serve(latest, n, probes)[j] == Forwarded((latest + 1 + j) % n)
    decreases |probes|
  {
    if probes != [] {
      var next := (latest + 1) % n;
      SelectFirstUp(latest, n, probes[0]);
      var rest := probes[1..];
      assert forall c, k :: 0 <= c < |rest| ==> rest[c](k) by {
        forall c, k | 0 <= c < |rest| ensures rest[c](k) {
          assert rest[c] == probes[c + 1];
        }
      }
      ServeAllUpIsCyclic(next, n, rest);
      var r := Serve(latest, n, probes);
      assert r == [Forwarded(next)] + Serve(next, n, rest);
      forall j | 0 <= j < |probes|
        ensures r[j] == Forwarded((latest + 1 + j) % n)
      {
        if j > 0 {
          assert r[j] == Serve(next, n, rest)[j - 1];
          ModAddLeft(latest + 1, j, n);
        }
      }
    }
  }

  /** Starting from the cursor `init` leaves (-1), the j-th request goes to server `j % n`:
      with every backend up, each is used in turn. */
  lemma ServeFromInitIsRoundRobin(n: nat, probes: seq<Probe>)
    requires n > 0
    requires forall c, k :: 0 <= c < |probes| ==> probes[c](k)
    ensures forall j :: 0 <= j < |probes| ==> Serve(-1, n, probes)[j] == Forwarded(j % n)
  {
    ServeAllUpIsCyclic(-1, n, probes);
  }
}
