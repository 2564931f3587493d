/** The wait-for graph of the buffer pool: each blocked transaction points
    at the holders of the lock it waits for, and a depth-first search from a
    transaction aborts it when it can reach a cycle. */
module WaitFor {
  import opened Wrappers
  import opened LockTable

  type Graph = map<Tid, set<Tid>>

  /** Every transaction some edge points at. */
  ghost function Targets(g: Graph): set<Tid>
  {
    set k, u | k in g && u in g[k] :: u
  }

  /** `w` is a walk of at least one edge. */
  ghost predicate IsWalk(g: Graph, w: seq<Tid>)
  {
    |w| >= 2 && forall j :: 0 <= j < |w| - 1 ==> w[j] in g && w[j + 1] in g[w[j]]
  }

  /** There is a walk from `a` to `b`, possibly empty. */
  ghost predicate Reaches(g: Graph, a: Tid, b: Tid)
  {
    a == b || exists w :: IsWalk(g, w) && w[0] == a && w[|w| - 1] == b
  }

  /** `x` lies on a cycle (a self-edge included). */
  ghost predicate OnCycle(g: Graph, x: Tid)
  {
    exists c :: IsWalk(g, c) && c[0] == x && c[|c| - 1] == x
  }

  /** A cycle of the graph is reachable from `t`. */
  ghost predicate CycleReachable(g: Graph, t: Tid)
  {
    exists x :: Reaches(g, t, x) && OnCycle(g, x)
  }

  /** What `dfs(root, visit)` decides: some successor of `root` is already
      in `visit`, or the search from that successor, with it added to
      `visit`, aborts. A transaction without an entry has no successors. */
  ghost predicate DfsAborts(g: Graph, root: Tid, visit: set<Tid>)
    decreases Targets(g) - visit
  {
    root in g && exists i :: i in g[root] && (i in visit || (assert i in Targets(g); DfsAborts(g, i, visit + {i})))
  }

  /** The walk ends at a node it has met before, after its start, or at a
      node of `visit`. */
  ghost predicate Revisits(w: seq<Tid>, visit: set<Tid>)
    requires |w| >= 2
  {
    w[|w| - 1] in visit || w[|w| - 1] in w[1..|w| - 1]
  }

  /** The search aborts exactly when some walk from `root` revisits. */
  lemma {:induction false} DfsAbortsWalk(g: Graph, root: Tid, visit: set<Tid>)
    ensures DfsAborts(g, root, visit) <==> exists w :: IsWalk(g, w) && w[0] == root && Revisits(w, visit)
    decreases Targets(g) - visit
  {
    if DfsAborts(g, root, visit) {
      var i :| i in g[root] && (i in visit || DfsAborts(g, i, visit + {i}));
      if i in visit {
        var w := [root, i];
        assert IsWalk(g, w) && Revisits(w, visit);
      } else {
        assert i in Targets(g);
        DfsAbortsWalk(g, i, visit + {i});
        var w' :| IsWalk(g, w') && w'[0] == i && Revisits(w', visit + {i});
        var w := [root] + w';
        assert IsWalk(g, w) by {
          forall j | 0 <= j < |w| - 1 ensures w[j] in g && w[j + 1] in g[w[j]] {
            if j > 0 {
              assert w[j] == w'[j - 1] && w[j + 1] == w'[j];
            }
          }
        }
        assert w[1..|w| - 1] == w'[..|w'| - 1];
        assert w'[1..|w'| - 1] == w[2..|w| - 1];
        assert Revisits(w, visit) by {
          if w'[|w'| - 1] == i {
            assert w[1] == i;
          } else if w'[|w'| - 1] !in visit {
            assert w'[|w'| - 1] in w'[1..|w'| - 1];
          }
        }
      }
    }
    if w :| IsWalk(g, w) && w[0] == root && Revisits(w, visit) {
      var i := w[1];
      assert i in g[root];
      if i !in visit {
        assert i in Targets(g);
        var w' := w[1..];
        assert |w| > 2;
        assert IsWalk(g, w') by {
          forall j | 0 <= j < |w'| - 1 ensures w'[j] in g && w'[j + 1] in g[w'[j]] {
            assert w'[j] == w[j + 1] && w'[j + 1] == w[j + 2];
          }
        }
        assert w[1..|w| - 1] == [i] + w'[1..|w'| - 1];
        assert Revisits(w', visit + {i});
        DfsAbortsWalk(g, i, visit + {i});
      }
    }
  }

  /** Gluing a walk (or a single node) to a walk that starts where it
      ends gives a walk. */
  lemma JoinWalk(g: Graph, a: seq<Tid>, b: seq<Tid>)
    requires |a| >= 1 && (|a| == 1 || IsWalk(g, a)) && IsWalk(g, b) && a[|a| - 1] == b[0]
    ensures IsWalk(g, a + b[1..]) && (a + b[1..])[0] == a[0] && (a + b[1..])[|a| + |b| - 2] == b[|b| - 1]
  {
    var w := a + b[1..];
    var m := |a| - 1;
    forall k | 0 <= k < |w| - 1 ensures w[k] in g && w[k + 1] in g[w[k]] {
      if k < m {
        assert w[k] == a[k] && w[k + 1] == a[k + 1];
      } else {
        assert w[k] == b[k - m] && w[k + 1] == b[k - m + 1];
      }
    }
  }

  /** A walk from `t` that revisits a node leads to a cycle. */
  lemma RevisitGivesCycle(g: Graph, w: seq<Tid>)
    requires IsWalk(g, w) && Revisits(w, {})
    ensures CycleReachable(g, w[0])
  {
    var last := |w| - 1;
    var j :| 1 <= j < last && w[j] == w[last];
    var x := w[j];
    var p := w[..j + 1];
    assert IsWalk(g, p) by {
      forall k | 0 <= k < |p| - 1 ensures p[k] in g && p[k + 1] in g[p[k]] {
        assert p[k] == w[k] && p[k + 1] == w[k + 1];
      }
    }
    var c := w[j..];
    assert IsWalk(g, c) by {
      forall k | 0 <= k < |c| - 1 ensures c[k] in g && c[k + 1] in g[c[k]] {
        assert c[k] == w[j + k] && c[k + 1] == w[j + k + 1];
      }
    }
    assert Reaches(g, w[0], x) && OnCycle(g, x);
  }

  /** Following a walk `p` into a cycle `c`, round it once and along its
      first edge again ends at a node met before. */
  lemma RevisitFromCycle(g: Graph, p: seq<Tid>, c: seq<Tid>)
    requires |p| >= 1 && (|p| == 1 || IsWalk(g, p)) && IsWalk(g, c)
    requires c[0] == c[|c| - 1] && p[|p| - 1] == c[0]
    ensures IsWalk(g, p + c[1..] + [c[1]]) && (p + c[1..] + [c[1]])[0] == p[0] && Revisits(p + c[1..] + [c[1]], {})
  {
    var c' := c + [c[1]];
    JoinWalk(g, c, [c[0], c[1]]);
    assert [c[0], c[1]][1..] == [c[1]];
    JoinWalk(g, p, c');
    var w := p + c'[1..];
    assert w == p + c[1..] + [c[1]];
    assert w[|p|] == c[1] && w[|w| - 1] == c[1];
    assert w[|w| - 1] in w[1..|w| - 1];
  }

  /** A cycle reachable from `t` gives a walk from `t` that revisits. */
  lemma CycleGivesRevisit(g: Graph, t: Tid)
    requires CycleReachable(g, t)
    ensures exists w :: IsWalk(g, w) && w[0] == t && Revisits(w, {})
  {
    var x :| Reaches(g, t, x) && OnCycle(g, x);
    var c :| IsWalk(g, c) && c[0] == x && c[|c| - 1] == x;
    var p: seq<Tid> := if t == x then [x] else var p0 :| IsWalk(g, p0) && p0[0] == t && p0[|p0| - 1] == x; p0;
    RevisitFromCycle(g, p, c);
    var w := p + c[1..] + [c[1]];
    assert IsWalk(g, w) && w[0] == t && Revisits(w, {});
  }

  /** A walk from `t` that revisits a node is the same thing as a cycle
      reachable from `t`. */
  lemma RevisitIffCycle(g: Graph, t: Tid)
    ensures (exists w :: IsWalk(g, w) && w[0] == t && Revisits(w, {})) <==> CycleReachable(g, t)
  {
    if w :| IsWalk(g, w) && w[0] == t && Revisits(w, {}) {
      RevisitGivesCycle(g, w);
    }
    if CycleReachable(g, t) {
      CycleGivesRevisit(g, t);
    }
  }

  /** `checkDeadlock(tid)` aborts exactly when a cycle is reachable from
      `tid` in the wait-for graph. */
  lemma DeadlockIffCycle(g: Graph, t: Tid)
    ensures DfsAborts(g, t, {}) <==> CycleReachable(g, t)
  {
    DfsAbortsWalk(g, t, {});
    RevisitIffCycle(g, t);
  }

  /** A transaction waiting for itself (the refused upgrade of a shared
      lock it holds together with others) is deadlocked. */
  lemma SelfEdgeDeadlocks(g: Graph, t: Tid)
    requires t in g && t in g[t]
    ensures DfsAborts(g, t, {})
  {
    var w := [t, t, t];
    assert w[1..2] == [t];
    assert IsWalk(g, w) && Revisits(w, {});
    DfsAbortsWalk(g, t, {});
  }

  /** `DependencyGraph`: the wait-for edges of each transaction. */
  class DependencyGraph {
    var graph: Graph

    constructor ()
      ensures graph == map[]
    {
      graph := map[];
    }

    /** `updateGraph(tid, pid)`: the edges of `tid` become the holders of the
        page's lock, `holders` (None for a null `pid`: no edges). Every other
        transaction's edges are kept. */
    method UpdateGraph(tid: Tid, holders: Option<set<Tid>>)
      modifies this
      ensures graph == old(graph)[tid := if holders.Some? then holders.value else {}]
      ensures forall t :: t != tid ==> (t in graph <==> t in old(graph))
      ensures forall t :: t != tid && t in graph ==> graph[t] == old(graph)[t]
    {
      if tid !in graph {
        graph := graph[tid := {}];
      }
      graph := graph[tid := {}];
      if holders.None? {
        return;
      }
      assert graph[tid] + holders.value == holders.value;
      graph := graph[tid := graph[tid] + holders.value];
    }

    /** `checkDeadlock(tid)`: true where the source throws
        `TransactionAbortedException`. */
    method CheckDeadlock(tid: Tid) returns (abort: bool)
      ensures abort <==> CycleReachable(graph, tid)
    {
      abort := Dfs(tid, {});
      DeadlockIffCycle(graph, tid);
    }

    /** `dfs(root, visit)`: tries every successor of `root`; one already in
        `visit` aborts, any other is added to `visit` for the search from it
        and removed again afterwards. */
    method Dfs(root: Tid, visit: set<Tid>) returns (abort: bool)
      ensures abort == DfsAborts(graph, root, visit)
      decreases Targets(graph) - visit
    {
      if root !in graph {
        return false;
      }
      var vis := visit;
      var rest := graph[root];
      while rest != {}
        invariant rest <= graph[root]
        invariant vis == visit
        invariant forall j :: j in graph[root] && j !in rest ==> j !in visit && !DfsAborts(graph, j, visit + {j})
        decreases rest
      {
        ghost var some := HasElement(rest);
        var i :| i in rest;
        rest := rest - {i};
        if i in vis {
          return true;
        }
        vis := vis + {i};
        assert i in Targets(graph);
        abort := Dfs(i, vis);
        if abort {
          return;
        }
        vis := vis - {i};
      }
      return false;
    }
  }
}
