/** A package on no cycle that loses a require to the cycle detector, for every order of the roots. */
module CycleCuts {
  import opened Wrappers
  import opened Digraph
  import opened ThinPackages
  import opened CycleDetector

  /** The walk has pushed names of the set only, and cut requires of its packages only. */
  ghost predicate StayedIn(inside: set<string>, s: seq<string>, reqs: Requires, t: Trail) {
    && s <= t.stack && t.reqs.Keys == reqs.Keys
    && (forall x :: x in t.stack[|s|..] ==> x in inside)
    && (forall k :: k in reqs && k !in inside ==> t.reqs[k] == reqs[k])
    && EdgesOf(t.reqs) <= EdgesOf(reqs)
  }

  lemma StayedInTransitive(inside: set<string>, s: seq<string>, reqs: Requires, t: Trail, t': Trail)
    requires StayedIn(inside, s, reqs, t) && StayedIn(inside, t.stack, t.reqs, t')
    ensures StayedIn(inside, s, reqs, t')
  {
    assert t'.stack[|s|..] == t.stack[|s|..] + t'.stack[|t.stack|..];
  }

  /** A walk that starts inside a set that no require leaves stays inside it. */
  lemma {:induction false} TraceStaysIn(inside: set<string>, p: string, s: seq<string>, reqs: Requires,
                                        injected: set<string>)
    requires p in reqs && p in inside && ClosedUnder(EdgesOf(reqs), inside)
    ensures StayedIn(inside, s, reqs, Trace(p, s, reqs, injected))
    decreases Unvisited(reqs.Keys, s), if p in s then 2 else 0, 0
  {
    NestedVisitProgress(reqs, p, s);
    var reqs1 := Pushed(reqs, p, s);
    assert forall r :: r in reqs1[p] && r in reqs ==> (p, r) in EdgesOf(reqs);
    TraceAllStaysIn(inside, reqs1[p], s + [p], reqs1, injected);
    var t := Trace(p, s, reqs, injected);
    StayedInTransitive(inside, s, reqs, Trail(true, s + [p], reqs1), t);
  }

  lemma {:induction false} TraceAllStaysIn(inside: set<string>, list: seq<string>, s: seq<string>, reqs: Requires,
                                           injected: set<string>)
    requires ClosedUnder(EdgesOf(reqs), inside) && forall r :: r in list && r in reqs ==> r in inside
    ensures StayedIn(inside, s, reqs, TraceAll(list, s, reqs, injected))
    decreases Unvisited(reqs.Keys, s), Level(list, s, reqs.Keys), |list|
  {
    if list != [] {
      assert forall r :: r in list[1..] ==> r in list;
      if list[0] in reqs {
        var t := Trace(list[0], s, reqs, injected);
        TraceStaysIn(inside, list[0], s, reqs, injected);
        HeadProgress(list, s, reqs, injected);
        if t.ok {
          TraceAllStaysIn(inside, list[1..], t.stack, t.reqs, injected);
          StayedInTransitive(inside, s, reqs, t, TraceAll(list, s, reqs, injected));
        }
      } else if list[0] in injected {
        LevelOfTail(list, s, reqs.Keys);
        TraceAllStaysIn(inside, list[1..], s, reqs, injected);
      }
    }
  }

  /** A walk along a list gets on: the visit of its head leaves fewer packages unvisited, or none of them is new. */
  lemma HeadProgress(list: seq<string>, s: seq<string>, reqs: Requires, injected: set<string>)
    requires list != [] && list[0] in reqs
    ensures var t := Trace(list[0], s, reqs, injected);
      && list[0] in t.stack
      && (Unvisited(reqs.Keys, t.stack) < Unvisited(reqs.Keys, s)
          || (Unvisited(reqs.Keys, t.stack) == Unvisited(reqs.Keys, s) && list[0] in s))
  {
    var t := Trace(list[0], s, reqs, injected);
    UnvisitedShrinks(reqs.Keys, s, t.stack);
    assert list[0] in t.stack by {
      assert list[0] in s + [list[0]];
    }
  }

  // ---------- the example ----------

  const Graph: Requires := map["r" := ["x", "y"], "x" := ["p"], "y" := ["p"], "p" := ["q"], "q" := ["a"], "a" := ["b"],
                               "b" := ["c"], "c" := ["a"]]
  const Below: set<string> := {"q", "a", "b", "c"}

  /** The requires outside the cycle are those of the graph. */
  ghost predicate Intact(reqs: Requires) {
    && reqs.Keys == Graph.Keys && ClosedUnder(EdgesOf(reqs), Below) && QueueClosed(reqs, {})
    && reqs["r"] == ["x", "y"] && reqs["x"] == ["p"] && reqs["y"] == ["p"] && reqs["p"] == ["q"]
  }

  /** A walk below p changes nothing above. */
  ghost predicate Harmless(p: string, s: seq<string>, t: Trail) {
    && t.ok && Intact(t.reqs) && s + [p] <= t.stack && OnQueue(t.stack, Graph.Keys)
    && forall x :: x in t.stack ==> x in s || x == p || x == "p" || x in Below
  }

  lemma FromBelow(p: string, s: seq<string>, reqs: Requires, injected: set<string>)
    requires Intact(reqs) && OnQueue(s, reqs.Keys) && p in Below
    ensures Harmless(p, s, Trace(p, s, reqs, injected))
  {
    var t := Trace(p, s, reqs, injected);
    TraceStaysIn(Below, p, s, reqs, injected);
    TraceFacts(p, s, reqs, injected);
    ThinnedKeepsClosed(reqs, t.reqs, {});
    assert t.stack == s + t.stack[|s|..];
  }

  /** The first visit of a package walks all that it requires. */
  lemma FirstVisit(p: string, s: seq<string>, reqs: Requires, injected: set<string>)
    requires p in reqs && p !in s
    ensures Trace(p, s, reqs, injected) == TraceAll(reqs[p], s + [p], reqs, injected)
  {
  }

  /** The first visit of a package with one require goes there and nowhere else. */
  lemma OneRequire(p: string, r: string, s: seq<string>, reqs: Requires, injected: set<string>)
    requires p in reqs && r in reqs && reqs[p] == [r] && p !in s
    ensures Trace(p, s, reqs, injected) == Trace(r, s + [p], reqs, injected)
  {
    FirstVisit(p, s, reqs, injected);
    OneToWalk(r, s + [p], reqs, injected);
  }

  lemma OneToWalk(r: string, s: seq<string>, reqs: Requires, injected: set<string>)
    requires r in reqs
    ensures TraceAll([r], s, reqs, injected) == Trace(r, s, reqs, injected)
  {
    hide Trace, TraceAll;
    var t := Trace(r, s, reqs, injected);
    assert [r][0..] == [r] && [r][1..] == [];
    TraceStep([r], 0, s, reqs, injected);
    TraceEnd(t.stack, t.reqs, injected);
  }

  lemma FromP(s: seq<string>, reqs: Requires, injected: set<string>)
    requires Intact(reqs) && OnQueue(s, reqs.Keys) && "p" !in s
    ensures Harmless("p", s, Trace("p", s, reqs, injected)) && "q" in Trace("p", s, reqs, injected).stack
  {
    OneRequire("p", "q", s, reqs, injected);
    FromBelow("q", s + ["p"], reqs, injected);
    assert "q" in s + ["p"] + ["q"];
  }

  lemma FromUser(u: string, s: seq<string>, reqs: Requires, injected: set<string>)
    requires Intact(reqs) && OnQueue(s, reqs.Keys) && "p" !in s && u !in s && (u == "x" || u == "y")
    ensures Harmless(u, s, Trace(u, s, reqs, injected))
    ensures "p" in Trace(u, s, reqs, injected).stack && "q" in Trace(u, s, reqs, injected).stack
  {
    OneRequire(u, "p", s, reqs, injected);
    FromP(s + [u], reqs, injected);
    assert "p" in s + [u] + ["p"];
  }

  /** A package met again, with its only require on the stack, is left without it. */
  lemma MetAgain(p: string, r: string, s: seq<string>, reqs: Requires, injected: set<string>)
    requires p in reqs && OnQueue(s, reqs.Keys) && p in s && r in s
    ensures r !in Trace(p, s, reqs, injected).reqs[p]
  {
    PushIsGrown(reqs, p, s, injected);
    var reqs1 := Pushed(reqs, p, s);
    TraceAllFacts(reqs1[p], s + [p], reqs1, injected);
  }

  lemma FromR(reqs: Requires, injected: set<string>)
    requires Intact(reqs)
    ensures "q" !in Trace("r", [], reqs, injected).reqs["p"]
  {
    hide Trace, TraceAll;
    var s := ["r"];
    var first := Trace("x", s, reqs, injected);
    FromUser("x", s, reqs, injected);
    SecondUser(first.stack, first.reqs, injected);
    var t := Trace("y", first.stack, first.reqs, injected);
    FirstVisit("r", [], reqs, injected);
    assert [] + ["r"] == s;
    assert ["x", "y"][0..] == ["x", "y"] && ["x", "y"][1..] == ["y"];
    TraceStep(["x", "y"], 0, s, reqs, injected);
    OneToWalk("y", first.stack, first.reqs, injected);
  }

  lemma SecondUser(s: seq<string>, reqs: Requires, injected: set<string>)
    requires Intact(reqs) && OnQueue(s, reqs.Keys) && "p" in s && "q" in s && "y" !in s
    ensures "q" !in Trace("y", s, reqs, injected).reqs["p"]
  {
    OneRequire("y", "p", s, reqs, injected);
    MetAgain("p", "q", s + ["y"], reqs, injected);
  }

  /** Before the walk from r p keeps its require; it never gets it back. */
  lemma {:induction false} RootsCut(roots: seq<string>, reqs: Requires, injected: set<string>)
    requires reqs.Keys == Graph.Keys && forall x :: x in roots ==> x in reqs
    requires "q" in reqs["p"] ==> Intact(reqs) && "r" in roots
    ensures "q" !in Detect(roots, reqs, injected).1["p"]
  {
    if roots != [] {
      var root := roots[0];
      var t := Trace(root, [], reqs, injected);
      TraceFacts(root, [], reqs, injected);
      if "q" in reqs["p"] && "q" in t.reqs["p"] {
        assert roots == [root] + roots[1..];
        if root in Below {
          FromBelow(root, [], reqs, injected);
        } else if root == "p" {
          FromP([], reqs, injected);
        } else if root == "r" {
          FromR(reqs, injected);
        } else {
          FromUser(root, [], reqs, injected);
        }
      }
      if t.ok {
        RootsCut(roots[1..], t.reqs, injected);
      }
    }
  }

  /** Whatever the order of the roots, the detector drops the require of q by p, which lies on no cycle: the walk from
      r visits p twice, and q is on the stack by then. */
  lemma OffCycleExample(roots: seq<string>, injected: set<string>)
    requires Enumerates(roots, Graph.Keys)
    ensures !OnCycle(EdgesOf(Graph), "p") && "q" in Graph["p"]
    ensures "q" !in Detect(roots, Graph, injected).1["p"]
  {
    NodeBesideClosedSet(EdgesOf(Graph), Below, "p");
    RootsCut(roots, Graph, injected);
  }
}
