/** The fallback cycle detector of the dependency sorter.  It walks the requires of every queued
    package with a stack that is never popped, and breaks the requires of a package it meets again. */
module CycleDetector {
  import opened Wrappers
  import opened Digraph
  import opened ThinPackages

  /** The stack shared by all frames of one traversal. */
  class Stack {
    var names: seq<string>

    constructor ()
      ensures names == []
    {
      names := [];
    }
  }

  /** From position `from` on, every visit is followed by a visit of each require that is queued,
      and every other require is injected. */
  ghost predicate Followed(s: seq<string>, from: nat, reqs: Requires, injected: set<string>) {
    forall i, r :: from <= i < |s| && s[i] in reqs && r in reqs[s[i]]
      ==> if r in reqs then r in s[i + 1..] else r in injected
  }

  /** Each of the list is visited from position `from` on, or is not queued but injected. */
  ghost predicate Covered(list: seq<string>, s: seq<string>, from: nat, queued: set<string>, injected: set<string>)
    requires from <= |s|
  {
    forall r :: r in list ==> if r in queued then r in s[from..] else r in injected
  }

  lemma SuffixGrows(s: seq<string>, s': seq<string>, from: nat, x: string)
    requires from <= |s| && s <= s' && x in s[from..]
    ensures x in s'[from..]
  {
    assert s'[from..] == s[from..] + s'[|s|..];
  }

  lemma FollowedExtends(s: seq<string>, s': seq<string>, from: nat, reqs: Requires, reqs': Requires,
                        injected: set<string>)
    requires Followed(s, from, reqs, injected) && s <= s' && Thinned(reqs, reqs')
    requires Followed(s', |s|, reqs', injected)
    ensures Followed(s', from, reqs', injected)
  {
    forall i, r | from <= i < |s'| && s'[i] in reqs' && r in reqs'[s'[i]]
      ensures if r in reqs' then r in s'[i + 1..] else r in injected
    {
      if i < |s| {
        assert s'[i] == s[i];
        if r in reqs {
          SuffixGrows(s, s', i + 1, r);
        }
      }
    }
  }

  /** Position of the last visit. */
  ghost function LastVisit(s: seq<string>, x: string): (i: nat)
    requires x in s
    ensures i < |s| && s[i] == x && forall j :: i < j < |s| ==> s[j] != x
  {
    var n := |s| - 1;
    if s[n] == x then n else LastVisit(s[..n], x)
  }

  /** Last visits climb along the requires that are left: this is why the graph is acyclic. */
  lemma {:induction false} LastVisitsClimb(s: seq<string>, reqs: Requires, injected: set<string>)
    requires Followed(s, 0, reqs, injected)
    ensures Climbs(EdgesOf(reqs), map x | x in s :: LastVisit(s, x))
  {
    var rank := map x | x in s :: LastVisit(s, x);
    forall e | e in EdgesOf(reqs) && e.0 in rank
      ensures e.1 in rank && rank[e.0] < rank[e.1]
    {
      var i := LastVisit(s, e.0);
      assert e.1 in s[i + 1..];
      var j :| 0 <= j < |s[i + 1..]| && s[i + 1..][j] == e.1;
      assert s[i + 1 + j] == e.1;
    }
  }

  /** Queued packages that the stack does not hold yet. */
  ghost function Unvisited(queued: set<string>, s: seq<string>): set<string> {
    queued - set x | x in s
  }

  lemma UnvisitedShrinks(queued: set<string>, s: seq<string>, s': seq<string>)
    requires s <= s'
    ensures Unvisited(queued, s') <= Unvisited(queued, s)
    ensures (exists x :: x in queued && x in s' && x !in s) ==> Unvisited(queued, s') < Unvisited(queued, s)
  {
    assert forall x :: x in s ==> x in s';
    if x :| x in queued && x in s' && x !in s {
      assert x in Unvisited(queued, s) && x !in Unvisited(queued, s');
    }
  }

  /** How far a list is from being walked: a queued name of it may be on the stack already. */
  ghost function Level(list: seq<string>, s: seq<string>, queued: set<string>): nat {
    if exists r :: r in list && r in queued && r in s then 3 else 1
  }

  /** The termination measure: a nested visit adds a new name to the stack, or starts from a package on it and goes
      to one that is not. */
  lemma NestedVisitProgress(reqs: Requires, p: string, s: seq<string>)
    requires p in reqs
    ensures Unvisited(reqs.Keys, s + [p]) < Unvisited(reqs.Keys, s)
         || (Unvisited(reqs.Keys, s + [p]) == Unvisited(reqs.Keys, s) && p in s
             && Level(Pushed(reqs, p, s)[p], s + [p], reqs.Keys) == 1)
  {
    var s1 := s + [p];
    UnvisitedShrinks(reqs.Keys, s, s1);
    if p in s {
      assert forall x :: x in s1 <==> x in s;
    } else {
      assert p in s1;
    }
  }

  lemma LevelOfTail(list: seq<string>, s: seq<string>, queued: set<string>)
    requires list != []
    ensures Level(list[1..], s, queued) <= Level(list, s, queued)
  {
    assert forall r :: r in list[1..] ==> r in list;
  }

  // ---------- the walk as a function ----------

  /** Whether the walk succeeds, the stack it leaves, and the requires it leaves. */
  datatype Trail = Trail(ok: bool, stack: seq<string>, reqs: Requires)

  /** The requires after the visit of p has broken its cycles, if p is on the stack s already. */
  ghost function Pushed(reqs: Requires, p: string, s: seq<string>): Requires
    requires p in reqs
  {
    if p in s then reqs[p := Without(reqs[p], s)] else reqs
  }

  /** Visit p: cut its requires if it is on the stack already, push it, and visit what it requires. */
  ghost function Trace(p: string, s: seq<string>, reqs: Requires, injected: set<string>): (t: Trail)
    requires p in reqs
    ensures s + [p] <= t.stack && t.reqs.Keys == reqs.Keys
    decreases Unvisited(reqs.Keys, s), if p in s then 2 else 0, 0
  {
    NestedVisitProgress(reqs, p, s);
    var reqs1 := Pushed(reqs, p, s);
    TraceAll(reqs1[p], s + [p], reqs1, injected)
  }

  ghost function TraceAll(list: seq<string>, s: seq<string>, reqs: Requires, injected: set<string>): (t: Trail)
    ensures s <= t.stack && t.reqs.Keys == reqs.Keys
    decreases Unvisited(reqs.Keys, s), Level(list, s, reqs.Keys), |list|
  {
    if list == [] then Trail(true, s, reqs)
    else if list[0] in reqs then
      var t := Trace(list[0], s, reqs, injected);
      UnvisitedShrinks(reqs.Keys, s, t.stack);
      assert list[0] in t.stack by {
        assert list[0] in s + [list[0]];
      }
      if t.ok then TraceAll(list[1..], t.stack, t.reqs, injected) else t
    else if list[0] in injected then
      LevelOfTail(list, s, reqs.Keys);
      TraceAll(list[1..], s, reqs, injected)
    else Trail(false, s, reqs)
  }

  /** What any visit does to the stack and the requires, failing or not. */
  ghost predicate Grown(s: seq<string>, reqs: Requires, s': seq<string>, reqs': Requires) {
    && s <= s'
    && OnQueue(s', reqs'.Keys)
    && Thinned(reqs, reqs')
    && CutsRevisited(reqs, reqs', s', |s|)
  }

  /** From position `from` on there is a visit of k that finds k and r on the stack already. */
  ghost predicate Revisited(s: seq<string>, from: nat, k: string, r: string) {
    exists i :: from <= i < |s| && s[i] == k && k in s[..i] && r in s[..i]
  }

  /** A package loses exactly the requires that were on the stack when it was visited again. */
  ghost predicate CutsRevisited(reqs: Requires, reqs': Requires, s: seq<string>, from: nat) {
    forall k, r :: k in reqs && k in reqs' && r in reqs[k] ==> (r !in reqs'[k] <==> Revisited(s, from, k, r))
  }

  lemma RevisitedInParts(s1: seq<string>, s2: seq<string>, from: nat, k: string, r: string)
    requires s1 <= s2 && from <= |s1|
    ensures Revisited(s2, from, k, r) <==> Revisited(s1, from, k, r) || Revisited(s2, |s1|, k, r)
  {
    forall i | 0 <= i < |s1| ensures s2[i] == s1[i] && s2[..i] == s1[..i] {
    }
  }

  lemma CutsInParts(reqs: Requires, reqs1: Requires, reqs2: Requires, s1: seq<string>, s2: seq<string>, from: nat)
    requires s1 <= s2 && from <= |s1| && Thinned(reqs, reqs1) && Thinned(reqs1, reqs2)
    requires CutsRevisited(reqs, reqs1, s1, from) && CutsRevisited(reqs1, reqs2, s2, |s1|)
    ensures CutsRevisited(reqs, reqs2, s2, from)
  {
    hide Revisited;
    forall k, r | k in reqs && k in reqs2 && r in reqs[k] ensures r !in reqs2[k] <==> Revisited(s2, from, k, r) {
      RevisitedInParts(s1, s2, from, k, r);
    }
  }

  /** What a successful visit of p adds to the stack s. */
  ghost predicate Visited(s: seq<string>, p: string, s': seq<string>, reqs': Requires, injected: set<string>) {
    && |s| <= |s'|
    && p in s'[|s|..]
    && Followed(s', |s|, reqs', injected)
  }

  ghost predicate OnQueue(s: seq<string>, queued: set<string>) {
    forall x :: x in s ==> x in queued
  }

  lemma GrownTransitive(s: seq<string>, reqs: Requires, s1: seq<string>, reqs1: Requires, s2: seq<string>,
                        reqs2: Requires)
    requires Grown(s, reqs, s1, reqs1) && Grown(s1, reqs1, s2, reqs2)
    ensures Grown(s, reqs, s2, reqs2)
  {
    hide Thinned, CutsRevisited;
    ThinnedTransitive(reqs, reqs1, reqs2);
    CutsInParts(reqs, reqs1, reqs2, s1, s2, |s|);
  }

  lemma PushIsGrown(reqs: Requires, p: string, s: seq<string>, injected: set<string>)
    requires p in reqs && OnQueue(s, reqs.Keys)
    ensures Grown(s, reqs, s + [p], Pushed(reqs, p, s))
    ensures QueueClosed(reqs, injected) <==> QueueClosed(Pushed(reqs, p, s), injected)
  {
    ThinnedKeepsClosed(reqs, Pushed(reqs, p, s), injected);
    var s1 := s + [p];
    assert s1[..|s|] == s;
    forall k, r | k in reqs && r in reqs[k] ensures r !in Pushed(reqs, p, s)[k] <==> Revisited(s1, |s|, k, r) {
      if k == p && p in s && r in s {
        assert s1[|s|] == p;
      }
    }
  }

  /** What a walk along a list adds to the stack, if it succeeds. */
  ghost predicate ListVisited(s: seq<string>, list: seq<string>, s': seq<string>, reqs': Requires,
                              injected: set<string>) {
    && |s| <= |s'|
    && Covered(list, s', |s|, reqs'.Keys, injected)
    && Followed(s', |s|, reqs', injected)
  }

  /** What a visit does: it grows the stack and cuts requires; if it succeeds, what it visited is followed up; and
      it succeeds on a closed queue. */
  lemma {:induction false} TraceFacts(p: string, s: seq<string>, reqs: Requires, injected: set<string>)
    requires p in reqs && OnQueue(s, reqs.Keys)
    ensures var t := Trace(p, s, reqs, injected);
      && Grown(s, reqs, t.stack, t.reqs)
      && (t.ok ==> Visited(s, p, t.stack, t.reqs, injected))
      && (QueueClosed(reqs, injected) ==> t.ok)
    decreases Unvisited(reqs.Keys, s), if p in s then 2 else 0, 0
  {
    hide Grown, Visited, ListVisited, QueueClosed;
    NestedVisitProgress(reqs, p, s);
    var reqs1 := Pushed(reqs, p, s);
    PushIsGrown(reqs, p, s, injected);
    GrownOnQueue(s, reqs, s + [p], reqs1);
    TraceAllFacts(reqs1[p], s + [p], reqs1, injected);
    var t := Trace(p, s, reqs, injected);
    GrownTransitive(s, reqs, s + [p], reqs1, t.stack, t.reqs);
    ClosedList(reqs1, p, injected);
    if t.ok {
      VisitedByList(s, p, reqs1, t.stack, t.reqs, injected);
    }
  }

  lemma {:induction false} TraceAllFacts(list: seq<string>, s: seq<string>, reqs: Requires, injected: set<string>)
    requires OnQueue(s, reqs.Keys)
    ensures var t := TraceAll(list, s, reqs, injected);
      && Grown(s, reqs, t.stack, t.reqs)
      && (t.ok ==> ListVisited(s, list, t.stack, t.reqs, injected))
      && (QueueClosed(reqs, injected) && (forall r :: r in list ==> r in reqs || r in injected) ==> t.ok)
    decreases Unvisited(reqs.Keys, s), Level(list, s, reqs.Keys), |list|
  {
    hide Grown, Visited, ListVisited, QueueClosed;
    GrownReflexive(s, reqs);
    if list == [] {
      NothingVisited(s, reqs, injected);
    } else if list[0] in reqs {
      var t := Trace(list[0], s, reqs, injected);
      TraceFacts(list[0], s, reqs, injected);
      GrownOnQueue(s, reqs, t.stack, t.reqs);
      UnvisitedShrinks(reqs.Keys, s, t.stack);
      assert list[0] in t.stack by {
        assert list[0] in s + [list[0]];
      }
      if t.ok {
        var rest := TraceAll(list[1..], t.stack, t.reqs, injected);
        TraceAllFacts(list[1..], t.stack, t.reqs, injected);
        GrownTransitive(s, reqs, t.stack, t.reqs, rest.stack, rest.reqs);
        GrownKeepsClosed(s, reqs, t.stack, t.reqs, injected);
        assert forall r :: r in list[1..] ==> r in list;
        if rest.ok {
          ListVisitedNext(s, list, t.stack, t.reqs, rest.stack, rest.reqs, injected);
        }
      }
    } else if list[0] in injected {
      LevelOfTail(list, s, reqs.Keys);
      TraceAllFacts(list[1..], s, reqs, injected);
      var rest := TraceAll(list[1..], s, reqs, injected);
      assert forall r :: r in list <==> r in list[1..] || r == list[0];
      if rest.ok {
        ListVisitedInjected(s, list, reqs, rest.stack, rest.reqs, injected);
      }
    } else {
      assert list[0] in list;
    }
  }

  lemma GrownReflexive(s: seq<string>, reqs: Requires)
    requires OnQueue(s, reqs.Keys)
    ensures Grown(s, reqs, s, reqs)
  {
  }

  lemma GrownOnQueue(s: seq<string>, reqs: Requires, s': seq<string>, reqs': Requires)
    requires Grown(s, reqs, s', reqs')
    ensures OnQueue(s', reqs'.Keys) && s <= s' && reqs'.Keys == reqs.Keys
  {
  }

  lemma GrownKeepsClosed(s: seq<string>, reqs: Requires, s': seq<string>, reqs': Requires, injected: set<string>)
    requires Grown(s, reqs, s', reqs')
    ensures QueueClosed(reqs, injected) <==> QueueClosed(reqs', injected)
  {
    ThinnedKeepsClosed(reqs, reqs', injected);
  }

  lemma ClosedList(reqs: Requires, p: string, injected: set<string>)
    requires p in reqs
    ensures QueueClosed(reqs, injected) ==> forall r :: r in reqs[p] ==> r in reqs || r in injected
  {
  }

  lemma NothingVisited(s: seq<string>, reqs: Requires, injected: set<string>)
    ensures ListVisited(s, [], s, reqs, injected)
  {
  }

  lemma ListVisitedNext(s: seq<string>, list: seq<string>, s1: seq<string>, reqs1: Requires, s2: seq<string>,
                        reqs2: Requires, injected: set<string>)
    requires list != [] && list[0] in reqs1 && s <= s1 && Visited(s, list[0], s1, reqs1, injected)
    requires Grown(s1, reqs1, s2, reqs2) && ListVisited(s1, list[1..], s2, reqs2, injected)
    ensures ListVisited(s, list, s2, reqs2, injected)
  {
    FollowedExtends(s1, s2, |s|, reqs1, reqs2, injected);
    forall r | r in list ensures if r in reqs2 then r in s2[|s|..] else r in injected {
      if r == list[0] {
        SuffixGrows(s1, s2, |s|, r);
      } else {
        assert r in list[1..];
        assert s2[|s|..] == s2[|s|..|s1|] + s2[|s1|..];
      }
    }
  }

  lemma ListVisitedInjected(s: seq<string>, list: seq<string>, reqs: Requires, s2: seq<string>, reqs2: Requires,
                            injected: set<string>)
    requires list != [] && list[0] !in reqs && list[0] in injected && reqs2.Keys == reqs.Keys
    requires ListVisited(s, list[1..], s2, reqs2, injected)
    ensures ListVisited(s, list, s2, reqs2, injected)
  {
    forall r | r in list ensures if r in reqs2 then r in s2[|s|..] else r in injected {
      assert r == list[0] || r in list[1..];
    }
  }

  /** p is followed up, because its whole list is. */
  lemma VisitedByList(s: seq<string>, p: string, reqs1: Requires, s2: seq<string>, reqs2: Requires,
                      injected: set<string>)
    requires p in reqs1 && Grown(s + [p], reqs1, s2, reqs2)
    requires ListVisited(s + [p], reqs1[p], s2, reqs2, injected)
    ensures Visited(s, p, s2, reqs2, injected)
  {
    assert (s + [p])[|s|] == p && s2[|s|] == p;
    forall i, r | |s| <= i < |s2| && s2[i] in reqs2 && r in reqs2[s2[i]]
      ensures if r in reqs2 then r in s2[i + 1..] else r in injected
    {
      if i == |s| {
        assert r in reqs1[p];
      }
    }
  }

  /** A nested visit of r by p comes later in the order of termination. */
  lemma BelowStart(queued: set<string>, s0: seq<string>, s: seq<string>, p: string, r: string)
    requires s0 + [p] <= s && p in queued && r in queued
    requires p in s0 ==> r !in s0
    ensures Unvisited(queued, s) < Unvisited(queued, s0)
         || (Unvisited(queued, s) == Unvisited(queued, s0) && p in s0 && r !in s)
  {
    assert p in s by {
      assert (s0 + [p])[|s0|] == p && s[|s0|] == p;
    }
    UnvisitedShrinks(queued, s0, s);
    if p in s0 && r in s {
      assert Unvisited(queued, s) < Unvisited(queued, s0);
    }
  }

  lemma TraceStep(deps: seq<string>, i: nat, s: seq<string>, reqs: Requires, injected: set<string>)
    requires i < |deps|
    ensures TraceAll(deps[i..], s, reqs, injected) ==
            if deps[i] in reqs then
              var t := Trace(deps[i], s, reqs, injected);
              if t.ok then TraceAll(deps[i + 1..], t.stack, t.reqs, injected) else t
            else if deps[i] in injected then TraceAll(deps[i + 1..], s, reqs, injected)
            else Trail(false, s, reqs)
  {
    assert deps[i..][0] == deps[i] && deps[i..][1..] == deps[i + 1..];
  }

  lemma TraceEnd(s: seq<string>, reqs: Requires, injected: set<string>)
    ensures TraceAll([], s, reqs, injected) == Trail(true, s, reqs)
  {
  }

  /** Break the cycles of p if it is on the stack, and push it; the requires to walk. */
  method Push(p: PackageThin, stack: Stack, queue: map<string, PackageThin>) returns (deps: seq<string>)
    requires Keyed(queue) && p.name in queue && queue[p.name] == p
    modifies stack, p
    ensures stack.names == old(stack.names) + [p.name]
    ensures Snapshot(queue) == Pushed(old(Snapshot(queue)), p.name, old(stack.names))
    ensures deps == Snapshot(queue)[p.name]
    ensures p.name in old(stack.names) ==> forall r :: r in deps ==> r !in old(stack.names)
  {
    if p.name in stack.names {
      p.BreakCyclesOnRequires(stack.names);
    }
    stack.names := stack.names + [p.name];
    deps := p.deps;
  }

  method RecursiveCheckDeps(p: PackageThin, stack: Stack, queue: map<string, PackageThin>, injected: set<string>)
    returns (ok: bool)
    requires Keyed(queue) && p.name in queue && queue[p.name] == p
    modifies stack, queue.Values
    ensures Trail(ok, stack.names, Snapshot(queue)) == Trace(p.name, old(stack.names), old(Snapshot(queue)), injected)
    decreases Unvisited(queue.Keys, stack.names), if p.name in stack.names then 2 else 0
  {
    hide Unvisited, Level, TraceAll, Pushed;
    ghost var s0, reqs1 := stack.names, Pushed(Snapshot(queue), p.name, stack.names);
    // The list is fixed here: a nested visit that breaks p again does not change this loop.
    var deps := Push(p, stack, queue);
    assert deps[0..] == deps;
    for i := 0 to |deps|
      invariant TraceAll(deps, s0 + [p.name], reqs1, injected) ==
                TraceAll(deps[i..], stack.names, Snapshot(queue), injected)
      invariant s0 + [p.name] <= stack.names
    {
      ghost var s, reqs := stack.names, Snapshot(queue);
      TraceStep(deps, i, s, reqs, injected);
      if deps[i] in queue {
        BelowStart(queue.Keys, s0, s, p.name, deps[i]);
        ok := RecursiveCheckDeps(queue[deps[i]], stack, queue, injected);
        if !ok {
          return;
        }
      } else if deps[i] !in injected {
        return false;
      }
    }
    TraceEnd(stack.names, Snapshot(queue), injected);
    assert deps[|deps|..] == [];
    ok := true;
  }

  /** Exactly one entry per queued package, in any order. */
  ghost predicate Enumerates(elems: seq<string>, keys: set<string>) {
    && (forall x :: x in elems <==> x in keys)
    && NoRepeats(elems)
  }

  method ListKeys(queue: map<string, PackageThin>) returns (elems: seq<string>)
    ensures Enumerates(elems, queue.Keys)
  {
    elems := [];
    var rest := queue.Keys;
    while rest != {}
      invariant rest <= queue.Keys
      invariant Enumerates(elems, queue.Keys - rest)
    {
      var k :| k in rest;
      elems := elems + [k];
      rest := rest - {k};
    }
  }

  /** The roots walked so far lie on no cycle, and their requires are all queued or injected. */
  ghost predicate RootsDone(roots: seq<string>, reqs0: Requires, reqs: Requires, injected: set<string>) {
    && Thinned(reqs0, reqs)
    && (forall x :: x in roots ==> x in reqs && !OnCycle(EdgesOf(reqs), x))
    && (forall x, r :: x in roots && x in reqs && r in reqs[x] ==> r in reqs || r in injected)
  }

  lemma NoRootsDone(reqs: Requires, injected: set<string>)
    ensures RootsDone([], reqs, reqs, injected)
    ensures OnQueue([], reqs.Keys)
  {
  }

  /** One more root, walked from an empty stack that is s at the end. */
  lemma {:induction false} NextRootDone(elems: seq<string>, idx: nat, reqs0: Requires, reqs: Requires, s: seq<string>,
                                        reqs': Requires, injected: set<string>)
    requires idx < |elems| && RootsDone(elems[..idx], reqs0, reqs, injected) && elems[idx] in reqs &&
             Grown([], reqs, s, reqs')
    ensures Thinned(reqs0, reqs')
    ensures QueueClosed(reqs, injected) <==> QueueClosed(reqs0, injected)
    ensures QueueClosed(reqs', injected) <==> QueueClosed(reqs0, injected)
    ensures Visited([], elems[idx], s, reqs', injected) ==>
              && RootsDone(elems[..idx + 1], reqs0, reqs', injected)
              && elems[idx] in reqs' && (forall r :: r in reqs'[elems[idx]] ==> r in injected || r in reqs')
  {
    hide CutsRevisited, Visited, OnCycle;
    var roots, root := elems[..idx], elems[idx];
    assert elems[..idx + 1] == roots + [root];
    ThinnedTransitive(reqs0, reqs, reqs');
    ThinnedKeepsClosed(reqs0, reqs, injected);
    ThinnedKeepsClosed(reqs, reqs', injected);
    forall x | x in roots ensures !OnCycle(EdgesOf(reqs'), x) {
      FewerEdgesOffCycle(EdgesOf(reqs), EdgesOf(reqs'), x);
    }
    if Visited([], root, s, reqs', injected) {
      RootOffCycle(root, s, reqs', injected);
    }
  }

  lemma RootOffCycle(root: string, s: seq<string>, reqs: Requires, injected: set<string>)
    requires Visited([], root, s, reqs, injected) && root in reqs
    ensures !OnCycle(EdgesOf(reqs), root)
    ensures forall r :: r in reqs[root] ==> r in injected || r in reqs
  {
    assert s[0..] == s;
    LastVisitsClimb(s, reqs, injected);
    RankedNodeOffCycle(EdgesOf(reqs), map x | x in s :: LastVisit(s, x), root);
    var i :| 0 <= i < |s| && s[i] == root;
  }

  lemma AllRootsDone(roots: seq<string>, reqs0: Requires, reqs: Requires, injected: set<string>)
    requires RootsDone(roots[..|roots|], reqs0, reqs, injected) && forall x :: x in reqs ==> x in roots
    ensures Thinned(reqs0, reqs) && Acyclic(EdgesOf(reqs)) && QueueClosed(reqs0, injected)
  {
    assert roots[..|roots|] == roots;
    ThinnedKeepsClosed(reqs0, reqs, injected);
    forall w | Walk(EdgesOf(reqs), w) && |w| > 1 ensures w[0] != w[|w| - 1] {
      assert (w[0], w[1]) in EdgesOf(reqs);
    }
  }

  /** Check that all dependencies of p are available. */
  method AreResolvable(p: PackageThin, queue: map<string, PackageThin>, injected: set<string>) returns (ok: bool)
    ensures ok <==> forall r :: r in p.deps ==> r in injected || r in queue
  {
    for i := 0 to |p.deps|
      invariant forall k :: 0 <= k < i ==> p.deps[k] in injected || p.deps[k] in queue
    {
      if p.deps[i] !in injected && p.deps[i] !in queue {
        return false;
      }
    }
    return true;
  }

  /** Walk from every root in turn, each time with an empty stack. */
  ghost function Detect(roots: seq<string>, reqs: Requires, injected: set<string>): (r: (bool, Requires))
    requires forall x :: x in roots ==> x in reqs
    ensures r.1.Keys == reqs.Keys
  {
    if roots == [] then (true, reqs)
    else
      var t := Trace(roots[0], [], reqs, injected);
      if t.ok then Detect(roots[1..], t.reqs, injected) else (false, t.reqs)
  }

  lemma DetectStep(elems: seq<string>, i: nat, reqs: Requires, injected: set<string>)
    requires i < |elems| && forall x :: x in elems ==> x in reqs
    ensures forall x :: x in elems[i..] ==> x in reqs
    ensures forall x :: x in elems[i + 1..] ==> x in reqs
    ensures Detect(elems[i..], reqs, injected) ==
            var t := Trace(elems[i], [], reqs, injected);
            if t.ok then Detect(elems[i + 1..], t.reqs, injected) else (false, t.reqs)
  {
    assert elems[i..][0] == elems[i] && elems[i..][1..] == elems[i + 1..];
  }

  method DepCycleDetector(queue: map<string, PackageThin>, injected: set<string>) returns (ok: bool)
    requires Keyed(queue)
    modifies queue.Values
    ensures exists roots ::
              && Enumerates(roots, queue.Keys)
              && (ok, Snapshot(queue)) == Detect(roots, old(Snapshot(queue)), injected)
    ensures Thinned(old(Snapshot(queue)), Snapshot(queue))
    ensures ok <==> QueueClosed(old(Snapshot(queue)), injected)
    ensures ok ==> Acyclic(EdgesOf(Snapshot(queue)))
  {
    hide Thinned, Grown, Visited, OnQueue, Acyclic, RootsDone, QueueClosed, Unvisited, Trace, Detect;
    ghost var reqs0 := Snapshot(queue);
    var elems := ListKeys(queue);
    NoRootsDone(reqs0, injected);
    assert elems[..0] == [] && elems[0..] == elems;
    for idx := 0 to |elems|
      invariant RootsDone(elems[..idx], reqs0, Snapshot(queue), injected)
      invariant forall x :: x in elems[idx..] ==> x in queue
      invariant Detect(elems, reqs0, injected) == Detect(elems[idx..], Snapshot(queue), injected)
    {
      var p := queue[elems[idx]];
      ghost var reqs := Snapshot(queue);
      DetectStep(elems, idx, reqs, injected);
      TraceFacts(p.name, [], reqs, injected);
      var stack := new Stack();
      ok := RecursiveCheckDeps(p, stack, queue, injected);
      NextRootDone(elems, idx, reqs0, reqs, stack.names, Snapshot(queue), injected);
      if !ok {
        return;
      }
      // The walk has met every require of p already, so this check never fails.
      var resolvable := AreResolvable(p, queue, injected);
      if !resolvable {
        assert false;
      }
    }
    AllRootsDone(elems, reqs0, Snapshot(queue), injected);
    DetectEnd(Snapshot(queue), injected);
    assert elems[|elems|..] == [];
    ok := true;
  }

  lemma DetectEnd(reqs: Requires, injected: set<string>)
    ensures Detect([], reqs, injected) == (true, reqs)
  {
  }
}
