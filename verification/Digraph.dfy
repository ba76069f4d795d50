/** Directed graphs over package names, given by their set of edges. */
module Digraph {

  type Edges = set<(string, string)>

  /** A walk follows edges; a single node is a walk of length zero. */
  ghost predicate Walk(g: Edges, w: seq<string>) {
    && |w| > 0
    && forall i :: 0 <= i < |w| - 1 ==> (w[i], w[i + 1]) in g
  }

  ghost predicate ClosedWalk(g: Edges, w: seq<string>) {
    Walk(g, w) && |w| > 1 && w[0] == w[|w| - 1]
  }

  ghost predicate OnCycle(g: Edges, n: string) {
    exists w :: ClosedWalk(g, w) && w[0] == n
  }

  ghost predicate Acyclic(g: Edges) {
    forall w :: !ClosedWalk(g, w)
  }

  /** A rank climbs when every edge that leaves a ranked node reaches a ranked node of higher rank. */
  ghost predicate Climbs(g: Edges, rank: map<string, int>) {
    forall e :: e in g && e.0 in rank ==> e.1 in rank && rank[e.0] < rank[e.1]
  }

  lemma {:induction false} WalkClimbs(g: Edges, rank: map<string, int>, w: seq<string>)
    requires Climbs(g, rank) && Walk(g, w) && w[0] in rank
    ensures w[|w| - 1] in rank
    ensures |w| > 1 ==> rank[w[0]] < rank[w[|w| - 1]]
    decreases |w|
  {
    if |w| > 1 {
      assert (w[0], w[1]) in g;
      assert Walk(g, w[1..]) by {
        forall i | 0 <= i < |w[1..]| - 1 ensures (w[1..][i], w[1..][i + 1]) in g {
          assert (w[i + 1], w[i + 2]) in g;
        }
      }
      WalkClimbs(g, rank, w[1..]);
    }
  }

  /** A ranked node lies on no cycle. */
  lemma RankedNodeOffCycle(g: Edges, rank: map<string, int>, n: string)
    requires Climbs(g, rank) && n in rank
    ensures !OnCycle(g, n)
  {
    forall w | ClosedWalk(g, w) && w[0] == n ensures false {
      WalkClimbs(g, rank, w);
    }
  }

  /** No edge leaves the set. */
  ghost predicate ClosedUnder(g: Edges, s: set<string>) {
    forall e :: e in g && e.0 in s ==> e.1 in s
  }

  lemma {:induction false} WalkStaysInside(g: Edges, s: set<string>, w: seq<string>)
    requires ClosedUnder(g, s) && Walk(g, w) && w[0] in s
    ensures w[|w| - 1] in s
    decreases |w|
  {
    if |w| > 1 {
      assert (w[0], w[1]) in g;
      assert Walk(g, w[1..]) by {
        forall i | 0 <= i < |w[1..]| - 1 ensures (w[1..][i], w[1..][i + 1]) in g {
          assert (w[i + 1], w[i + 2]) in g;
        }
      }
      WalkStaysInside(g, s, w[1..]);
    }
  }

  /** A node whose edges all lead into a closed set without it lies on no cycle. */
  lemma NodeBesideClosedSet(g: Edges, s: set<string>, n: string)
    requires ClosedUnder(g, s) && n !in s && forall m :: (n, m) in g ==> m in s
    ensures !OnCycle(g, n)
  {
    forall w | Walk(g, w) && |w| > 1 && w[0] == n ensures w[|w| - 1] in s {
      assert (w[0], w[1]) in g;
      var rest := w[1..];
      forall i | 0 <= i < |rest| - 1 ensures (rest[i], rest[i + 1]) in g {
        assert (w[i + 1], w[i + 2]) in g;
      }
      WalkStaysInside(g, s, rest);
    }
  }

  ghost predicate Reaches(g: Edges, a: string, b: string) {
    exists w :: Walk(g, w) && w[0] == a && w[|w| - 1] == b
  }

  lemma ReachesSelf(g: Edges, n: string)
    ensures Reaches(g, n, n)
  {
    assert Walk(g, [n]) && [n][0] == n;
  }

  /** Removing edges creates no cycle. */
  lemma FewerEdgesOffCycle(g: Edges, h: Edges, n: string)
    requires h <= g && !OnCycle(g, n)
    ensures !OnCycle(h, n)
  {
    forall w | ClosedWalk(h, w) && w[0] == n ensures false {
      assert ClosedWalk(g, w);
    }
  }

  lemma FewerEdgesAcyclic(g: Edges, h: Edges)
    requires h <= g && Acyclic(g)
    ensures Acyclic(h)
  {
    forall w | ClosedWalk(h, w) ensures false {
      assert ClosedWalk(g, w);
    }
  }

  /** An acyclic graph has, in every nonempty set of nodes, one with no edge into the set:
      extend a walk inside the set until it stops, which it must before repeating a node. */
  lemma {:induction false} ExtendToSink(g: Edges, nodes: set<string>, w: seq<string>) returns (sink: string)
    requires Acyclic(g) && Walk(g, w) && forall x :: x in w ==> x in nodes
    requires forall i, j :: 0 <= i < j < |w| ==> w[i] != w[j]
    ensures sink in nodes && forall m :: m in nodes ==> (sink, m) !in g
    decreases nodes - set x | x in w
  {
    var last := w[|w| - 1];
    assert last in w;
    if m :| m in nodes && (last, m) in g {
      if m in w {
        var i :| 0 <= i < |w| && w[i] == m;
        var c := w[i..] + [m];
        assert ClosedWalk(g, c);
        assert false;
      }
      assert m in nodes - (set x | x in w);
      sink := ExtendToSink(g, nodes, w + [m]);
    } else {
      sink := last;
    }
  }

  lemma Sink(g: Edges, nodes: set<string>) returns (sink: string)
    requires Acyclic(g) && nodes != {}
    ensures sink in nodes && forall m :: m in nodes ==> (sink, m) !in g
  {
    var n :| n in nodes;
    sink := ExtendToSink(g, nodes, [n]);
  }
}
