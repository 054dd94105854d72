/** Which processes a check may look at (guest/linuxlab-agent/src/validators/process.rs). */
module ProcessTree {
  datatype Process = Process(pid: nat, ppid: nat)

  const GENERATIONS := 4

  /** `chain` leads from `agent` down to `pid`: each process is the parent of the next. */
  ghost predicate Descends(all: seq<Process>, agent: nat, chain: seq<Process>, pid: nat)
    decreases |chain|
  {
    if chain == [] then pid == agent
    else
      var last := chain[|chain| - 1];
      last in all && last.pid == pid && Descends(all, agent, chain[..|chain| - 1], last.ppid)
  }

  /** `pid` is the agent, or at most `n` parent links below it. */
  ghost predicate Within(all: seq<Process>, agent: nat, n: nat, pid: nat) {
    exists chain :: |chain| <= n && Descends(all, agent, chain, pid)
  }

  /** The agent's whole tree, however deep. */
  ghost predicate InTree(all: seq<Process>, agent: nat, pid: nat) {
    exists chain :: Descends(all, agent, chain, pid)
  }

  /** What `collect` keeps of the processes whose pid the filter lets through. */
  function Filter(all: seq<Process>, drop: seq<nat>): (r: seq<Process>)
    ensures forall p :: p in r <==> p in all && p.pid !in drop
  {
    if all == [] then []
    else (if all[0].pid in drop then [] else [all[0]]) + Filter(all[1..], drop)
  }

  /** What is kept stays in its place. */
  lemma {:induction false} FilterKeepsOrder(a: seq<Process>, b: seq<Process>, drop: seq<nat>)
    ensures Filter(a + b, drop) == Filter(a, drop) + Filter(b, drop)
    ensures |a| == 1 ==> Filter(a, drop) == if a[0].pid in drop then [] else a
  {
    hide Filter;
    FilterNext(a, drop);
    if a == [] {
      assert a + b == b;
    } else {
      FilterNext(a + b, drop);
      FilterNext(a[1..], drop);
      assert (a + b)[1..] == a[1..] + b;
      FilterKeepsOrder(a[1..], b, drop);
    }
  }

  lemma FilterNext(all: seq<Process>, drop: seq<nat>)
    ensures all == [] ==> Filter(all, drop) == []
    ensures all != [] ==> Filter(all, drop) == (if all[0].pid in drop then [] else [all[0]]) + Filter(all[1..], drop)
  {
  }

  function Children(all: seq<Process>, tree: seq<nat>): (r: seq<nat>)
    ensures forall pid :: pid in r <==> exists p :: p in all && p.pid == pid && p.ppid in tree && pid !in tree
  {
    if all == [] then []
    else
      var rest := Children(all[1..], tree);
      if all[0].ppid in tree && all[0].pid !in tree then
        assert all[0] in all;
        [all[0].pid] + rest
      else rest
  }

  lemma WithinStep(all: seq<Process>, agent: nat, n: nat, pid: nat)
    ensures Within(all, agent, n + 1, pid)
       <==> Within(all, agent, n, pid) || exists p :: p in all && p.pid == pid && Within(all, agent, n, p.ppid)
  {
    if Within(all, agent, n + 1, pid) && !Within(all, agent, n, pid) {
      var chain: seq<Process> :| |chain| <= n + 1 && Descends(all, agent, chain, pid);
      assert |chain[..|chain| - 1]| <= n;
    }
    if exists p :: p in all && p.pid == pid && Within(all, agent, n, p.ppid) {
      var p :| p in all && p.pid == pid && Within(all, agent, n, p.ppid);
      var chain: seq<Process> :| |chain| <= n && Descends(all, agent, chain, p.ppid);
      assert (chain + [p])[..|chain|] == chain;
      assert Descends(all, agent, chain + [p], pid);
    }
  }

  /** A set of pids that holds the agent and all children of its members holds the tree. */
  lemma {:induction false} ClosedHoldsTree(all: seq<Process>, agent: nat, tree: seq<nat>, chain: seq<Process>, pid: nat)
    requires agent in tree && forall p :: p in all && p.ppid in tree ==> p.pid in tree
    requires Descends(all, agent, chain, pid)
    ensures pid in tree
    decreases |chain|
  {
    if chain != [] {
      var last := chain[|chain| - 1];
      ClosedHoldsTree(all, agent, tree, chain[..|chain| - 1], last.ppid);
    }
  }

  /** `candidate_processes`: the order is kept, and exactly the agent and the processes within
      four parent links of it are left out, parent cycles and repeated pids included. */
  method CandidateProcesses(all: seq<Process>, agentPid: nat) returns (kept: seq<Process>, ghost ownTree: seq<nat>)
    ensures kept == Filter(all, ownTree)
    ensures forall pid :: pid in ownTree <==> Within(all, agentPid, GENERATIONS, pid)
    ensures forall p :: p in kept <==> p in all && !Within(all, agentPid, GENERATIONS, p.pid)
  {
    var tree := [agentPid];
    ghost var closed := false;
    assert forall pid :: Within(all, agentPid, 0, pid) ==> pid == agentPid;
    assert Descends(all, agentPid, [], agentPid);
    for generation := 0 to GENERATIONS
      invariant forall pid :: pid in tree <==> Within(all, agentPid, generation, pid)
    {
      var children := Children(all, tree);
      if children == [] {
        // Nothing hangs below the tree, so the generations not walked are empty.
        forall pid ensures pid in tree <==> Within(all, agentPid, GENERATIONS, pid) {
          StoppingEarlyIsComplete(all, agentPid, tree, generation, pid);
        }
        break;
      }
      forall pid ensures pid in tree + children <==> Within(all, agentPid, generation + 1, pid) {
        WithinStep(all, agentPid, generation, pid);
      }
      tree := tree + children;
    }
    ownTree := tree;
    kept := Filter(all, tree);
  }

  lemma StoppingEarlyIsComplete(all: seq<Process>, agent: nat, tree: seq<nat>, n: nat, pid: nat)
    requires n <= GENERATIONS && Children(all, tree) == []
    requires forall q :: q in tree <==> Within(all, agent, n, q)
    ensures pid in tree <==> Within(all, agent, GENERATIONS, pid)
    ensures InTree(all, agent, pid) ==> pid in tree
  {
    assert Descends(all, agent, [], agent);
    forall p | p in all && p.ppid in tree ensures p.pid in tree {
      assert p.pid !in Children(all, tree);
    }
    if InTree(all, agent, pid) {
      var chain: seq<Process> :| Descends(all, agent, chain, pid);
      ClosedHoldsTree(all, agent, tree, chain, pid);
    }
    if Within(all, agent, n, pid) {
      var chain: seq<Process> :| |chain| <= n && Descends(all, agent, chain, pid);
    }
  }

  /** Four generations are enough exactly when no process is five parent links down and not
      nearer; then everything the agent started is left out. */
  lemma FourGenerationsSuffice(all: seq<Process>, agent: nat)
    ensures (forall pid :: InTree(all, agent, pid) ==> Within(all, agent, GENERATIONS, pid))
       <==> (forall pid :: Within(all, agent, GENERATIONS + 1, pid) ==> Within(all, agent, GENERATIONS, pid))
  {
    if forall pid :: Within(all, agent, GENERATIONS + 1, pid) ==> Within(all, agent, GENERATIONS, pid) {
      forall pid | InTree(all, agent, pid) ensures Within(all, agent, GENERATIONS, pid) {
        var chain: seq<Process> :| Descends(all, agent, chain, pid);
        ShortenChain(all, agent, chain, pid);
      }
    }
    forall pid | Within(all, agent, GENERATIONS + 1, pid) ensures InTree(all, agent, pid) {
    }
  }

  lemma {:induction false} ShortenChain(all: seq<Process>, agent: nat, chain: seq<Process>, pid: nat)
    requires forall q :: Within(all, agent, GENERATIONS + 1, q) ==> Within(all, agent, GENERATIONS, q)
    requires Descends(all, agent, chain, pid)
    ensures Within(all, agent, GENERATIONS, pid)
    decreases |chain|
  {
    if chain != [] {
      var last := chain[|chain| - 1];
      ShortenChain(all, agent, chain[..|chain| - 1], last.ppid);
      WithinStep(all, agent, GENERATIONS, pid);
    }
  }
}
