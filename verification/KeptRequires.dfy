/** When the cycle detector leaves the requires of a package alone, for every order of the roots. */
module KeptRequires {
  import opened Wrappers
  import opened Digraph
  import opened ThinPackages
  import opened CycleDetector
  import opened CycleCuts

  /** The list of c names m only once, and nothing before it leads back to c. */
  ghost predicate Lined(list: seq<string>, c: string, m: string, g: Edges) {
    forall i, j :: 0 <= i < j < |list| && list[j] == m ==> list[i] != m && !Reaches(g, list[i], c)
  }

  ghost predicate AllLined(reqs: Requires, m: string, g: Edges) {
    forall c :: c in reqs ==> Lined(reqs[c], c, m, g)
  }

  /** No package reaches two packages that require m. */
  ghost predicate OneUser(reqs: Requires, m: string, g: Edges) {
    forall r, c, d :: UserBelow(reqs, m, g, r, c) && UserBelow(reqs, m, g, r, d) ==> c == d
  }

  /** r reaches c, which requires m. */
  ghost predicate UserBelow(reqs: Requires, m: string, g: Edges, r: string, c: string) {
    c in reqs && m in reqs[c] && Reaches(g, r, c)
  }

  /** No walk can meet m twice. */
  ghost predicate MetOnce(reqs: Requires, m: string) {
    var g := EdgesOf(reqs);
    !OnCycle(g, m) && OneUser(reqs, m, g) && AllLined(reqs, m, g)
  }

  // ---------- lined lists stay lined ----------

  lemma {:induction false} LinedWithout(list: seq<string>, drop: seq<string>, c: string, m: string, g: Edges)
    requires Lined(list, c, m, g)
    ensures Lined(Without(list, drop), c, m, g)
    decreases |list|
  {
    if list != [] {
      var init := list[..|list| - 1];
      LinedWithout(init, drop, c, m, g);
      var kept := Without(init, drop);
      forall i, j | 0 <= i < j < |Without(list, drop)| && Without(list, drop)[j] == m
        ensures Without(list, drop)[i] != m && !Reaches(g, Without(list, drop)[i], c)
      {
        if j == |kept| {
          assert kept[i] in init;
        }
      }
    }
  }

  lemma {:induction false} TraceLined(p: string, s: seq<string>, reqs: Requires, injected: set<string>, m: string,
                                      g: Edges)
    requires p in reqs && AllLined(reqs, m, g)
    ensures AllLined(Trace(p, s, reqs, injected).reqs, m, g)
    decreases Unvisited(reqs.Keys, s), if p in s then 2 else 0, 0
  {
    hide Lined;
    NestedVisitProgress(reqs, p, s);
    LinedWithout(reqs[p], s, p, m, g) by {
      assert Lined(reqs[p], p, m, g);
    }
    TraceAllLined(Pushed(reqs, p, s)[p], s + [p], Pushed(reqs, p, s), injected, m, g);
  }

  lemma {:induction false} TraceAllLined(list: seq<string>, s: seq<string>, reqs: Requires, injected: set<string>,
                                         m: string, g: Edges)
    requires AllLined(reqs, m, g)
    ensures AllLined(TraceAll(list, s, reqs, injected).reqs, m, g)
    decreases Unvisited(reqs.Keys, s), Level(list, s, reqs.Keys), |list|
  {
    hide Lined, AllLined;
    if list != [] {
      if list[0] in reqs {
        var t := Trace(list[0], s, reqs, injected);
        TraceLined(list[0], s, reqs, injected, m, g);
        HeadProgress(list, s, reqs, injected);
        assert forall r :: r in list[1..] ==> r in list;
        if t.ok {
          TraceAllLined(list[1..], t.stack, t.reqs, injected, m, g);
        }
      } else if list[0] in injected {
        LevelOfTail(list, s, reqs.Keys);
        TraceAllLined(list[1..], s, reqs, injected, m, g);
      }
    }
  }

  // ---------- one walk meets m at most once ----------

  /** Inside the set, c alone may require m. */
  ghost predicate OnlyUser(reqs: Requires, m: string, c: string, inside: set<string>, g: Edges) {
    && EdgesOf(reqs) <= g && ClosedUnder(g, inside)
    && AllLined(reqs, m, g)
    && (forall k :: k in reqs && k in inside && m in reqs[k] ==> k == c && k != m)
  }

  lemma OnlyUserThinned(reqs: Requires, reqs': Requires, m: string, c: string, inside: set<string>, g: Edges)
    requires OnlyUser(reqs, m, c, inside, g) && Thinned(reqs, reqs') && AllLined(reqs', m, g)
    ensures OnlyUser(reqs', m, c, inside, g)
  {
  }

  /** What the part of the stack above s adds: m at most once, never if s has it, and never before c unless it was
      asked for. */
  ghost predicate AddsOnce(s: seq<string>, s': seq<string>, m: string, c: string, asked: bool) {
    && s <= s'
    && (m in s' ==> c in s')
    && (m in s ==> m !in s'[|s|..])
    && (forall i, j :: |s| <= i < j < |s'| ==> s'[i] != m || s'[j] != m)
    && (m in s'[|s|..] ==> c in s'[|s|..] || asked)
  }

  lemma AddsOnceInParts(s: seq<string>, s1: seq<string>, s2: seq<string>, m: string, c: string, asked1: bool,
                        asked2: bool)
    requires AddsOnce(s, s1, m, c, asked1) && AddsOnce(s1, s2, m, c, asked2)
    ensures AddsOnce(s, s2, m, c, asked1 || asked2)
  {
    assert s2[|s|..] == s1[|s|..] + s2[|s1|..];
    forall i, j | |s| <= i < j < |s2| ensures s2[i] != m || s2[j] != m {
      if i < |s1| <= j {
        assert s1[i] == s2[i] && s2[|s1|..][j - |s1|] == s2[j];
      } else if j < |s1| {
        assert s1[i] == s2[i] && s1[j] == s2[j];
      }
    }
  }

  lemma NothingAdded(s: seq<string>, m: string, c: string)
    requires m in s ==> c in s
    ensures AddsOnce(s, s, m, c, false)
  {
  }

  lemma PushAddsOnce(s: seq<string>, p: string, m: string, c: string)
    requires m in s ==> c in s
    requires p == m ==> m !in s && c in s + [m]
    ensures AddsOnce(s, s + [p], m, c, p == m)
  {
    assert (s + [p])[|s|..] == [p];
  }

  /** m may be asked for only while the stack has c but not m. */
  ghost predicate MayAsk(list: seq<string>, s: seq<string>, m: string, c: string, g: Edges) {
    && (m in s ==> c in s)
    && (m in list ==> m !in s && c in s && Lined(list, c, m, g))
  }

  lemma {:induction false} TraceMeetsOnce(p: string, s: seq<string>, reqs: Requires, injected: set<string>, m: string,
                                          c: string, inside: set<string>, g: Edges)
    requires p in reqs && p in inside && OnQueue(s, reqs.Keys) && OnlyUser(reqs, m, c, inside, g)
    requires m in s ==> c in s
    requires p == m ==> m !in s && c in s + [m]
    ensures AddsOnce(s, Trace(p, s, reqs, injected).stack, m, c, p == m)
    decreases Unvisited(reqs.Keys, s), if p in s then 2 else 0, 0
  {
    hide AddsOnce, Lined, Grown;
    NestedVisitProgress(reqs, p, s);
    PushIsGrown(reqs, p, s, injected);
    var s1, reqs1 := s + [p], Pushed(reqs, p, s);
    PushAddsOnce(s, p, m, c);
    PushedUser(p, s, reqs, m, c, inside, g);
    TraceAllMeetsOnce(reqs1[p], s1, reqs1, injected, m, c, inside, g);
    var t := Trace(p, s, reqs, injected);
    AddsOnceInParts(s, s1, t.stack, m, c, p == m, m in reqs1[p]);
    if m in reqs1[p] {
      assert s1 <= t.stack;
      assert p == c && c in t.stack[|s|..] by {
        assert t.stack[|s|] == p;
      }
      AddsOnceByUser(s, t.stack, m, c, p == m);
    }
  }

  lemma AddsOnceByUser(s: seq<string>, s': seq<string>, m: string, c: string, asked: bool)
    requires AddsOnce(s, s', m, c, true) && c in s'[|s|..]
    ensures AddsOnce(s, s', m, c, asked)
  {
  }

  lemma PushedUser(p: string, s: seq<string>, reqs: Requires, m: string, c: string, inside: set<string>, g: Edges)
    requires p in reqs && p in inside && OnlyUser(reqs, m, c, inside, g)
    requires m in s ==> c in s
    requires p == m ==> m !in s && c in s + [m]
    ensures OnlyUser(Pushed(reqs, p, s), m, c, inside, g)
    ensures MayAsk(Pushed(reqs, p, s)[p], s + [p], m, c, g)
    ensures m in Pushed(reqs, p, s)[p] ==> p == c
    ensures forall r :: r in Pushed(reqs, p, s)[p] && r in reqs ==> r in inside
  {
    hide Lined;
    LinedWithout(reqs[p], s, p, m, g) by {
      assert Lined(reqs[p], p, m, g);
    }
    assert forall r :: r in reqs[p] && r in reqs ==> (p, r) in g;
  }

  lemma {:induction false} TraceAllMeetsOnce(list: seq<string>, s: seq<string>, reqs: Requires, injected: set<string>,
                                             m: string, c: string, inside: set<string>, g: Edges)
    requires OnQueue(s, reqs.Keys) && OnlyUser(reqs, m, c, inside, g) && MayAsk(list, s, m, c, g)
    requires forall r :: r in list && r in reqs ==> r in inside
    ensures AddsOnce(s, TraceAll(list, s, reqs, injected).stack, m, c, m in list)
    decreases Unvisited(reqs.Keys, s), Level(list, s, reqs.Keys), |list|
  {
    hide AddsOnce, Lined, Grown;
    NothingAdded(s, m, c);
    AddsOnceAsked(s, s, m, c, false, m in list);
    if list != [] {
      assert list == [list[0]] + list[1..];
      if list[0] in reqs {
        var t := Trace(list[0], s, reqs, injected);
        TraceMeetsOnce(list[0], s, reqs, injected, m, c, inside, g);
        AddsOnceAsked(s, t.stack, m, c, list[0] == m, m in list);
        HeadProgress(list, s, reqs, injected);
        AfterHead(list, s, reqs, injected, m, c, inside, g);
        if t.ok {
          TraceAllMeetsOnce(list[1..], t.stack, t.reqs, injected, m, c, inside, g);
          var rest := TraceAll(list[1..], t.stack, t.reqs, injected);
          AddsOnceInParts(s, t.stack, rest.stack, m, c, list[0] == m, m in list[1..]);
        }
      } else if list[0] in injected {
        LevelOfTail(list, s, reqs.Keys);
        LinedTail(list, c, m, g);
        TraceAllMeetsOnce(list[1..], s, reqs, injected, m, c, inside, g);
        AddsOnceAsked(s, TraceAll(list[1..], s, reqs, injected).stack, m, c, m in list[1..], m in list);
      }
    }
  }

  lemma AddsOnceAsked(s: seq<string>, s': seq<string>, m: string, c: string, asked: bool, asked': bool)
    requires AddsOnce(s, s', m, c, asked) && (asked ==> asked')
    ensures AddsOnce(s, s', m, c, asked')
  {
  }

  lemma LinedTail(list: seq<string>, c: string, m: string, g: Edges)
    requires list != [] && Lined(list, c, m, g)
    ensures Lined(list[1..], c, m, g)
    ensures m in list[1..] ==> list[0] != m && !Reaches(g, list[0], c)
  {
    forall i, j | 0 <= i < j < |list[1..]| && list[1..][j] == m
      ensures list[1..][i] != m && !Reaches(g, list[1..][i], c)
    {
      assert list[i + 1] == list[1..][i] && list[j + 1] == m;
    }
    if m in list[1..] {
      var j :| 0 <= j < |list[1..]| && list[1..][j] == m;
      assert list[j + 1] == m;
    }
  }

  /** If m comes later in the list, the visit of the head has not reached c, and so not m. */
  lemma AfterHead(list: seq<string>, s: seq<string>, reqs: Requires, injected: set<string>, m: string, c: string,
                  inside: set<string>, g: Edges)
    requires list != [] && list[0] in reqs && list[0] in inside && OnQueue(s, reqs.Keys)
    requires OnlyUser(reqs, m, c, inside, g) && MayAsk(list, s, m, c, g)
    requires AddsOnce(s, Trace(list[0], s, reqs, injected).stack, m, c, list[0] == m)
    ensures var t := Trace(list[0], s, reqs, injected);
      && OnQueue(t.stack, t.reqs.Keys)
      && OnlyUser(t.reqs, m, c, inside, g)
      && MayAsk(list[1..], t.stack, m, c, g)
  {
    hide Lined, CutsRevisited;
    var t := Trace(list[0], s, reqs, injected);
    TraceFacts(list[0], s, reqs, injected);
    TraceLined(list[0], s, reqs, injected, m, g);
    OnlyUserThinned(reqs, t.reqs, m, c, inside, g);
    if m in list[1..] {
      LinedTail(list, c, m, g);
      ReachIsClosed(reqs, list[0]);
      if Reaches(EdgesOf(reqs), list[0], c) {
        ReachShrinks(EdgesOf(reqs), g, list[0], c);
      }
      TraceStaysIn(Reach(EdgesOf(reqs), reqs.Keys, list[0]), list[0], s, reqs, injected);
      assert t.stack == s + t.stack[|s|..];
    }
  }

  // ---------- what a package reaches ----------

  /** The queued packages that r reaches. */
  ghost function Reach(g: Edges, queued: set<string>, r: string): set<string> {
    set x | x in queued && Reaches(g, r, x)
  }

  lemma ReachesStep(g: Edges, r: string, a: string, b: string)
    requires Reaches(g, r, a) && (a, b) in g
    ensures Reaches(g, r, b)
  {
    var w :| Walk(g, w) && w[0] == r && w[|w| - 1] == a;
    assert Walk(g, w + [b]);
  }

  lemma ReachIsClosed(reqs: Requires, r: string)
    requires r in reqs
    ensures ClosedUnder(EdgesOf(reqs), Reach(EdgesOf(reqs), reqs.Keys, r))
    ensures r in Reach(EdgesOf(reqs), reqs.Keys, r)
  {
    var g := EdgesOf(reqs);
    forall e | e in g && e.0 in Reach(g, reqs.Keys, r) ensures e.1 in Reach(g, reqs.Keys, r) {
      ReachesStep(g, r, e.0, e.1);
    }
    ReachesSelf(g, r);
  }

  lemma ReachShrinks(h: Edges, g: Edges, a: string, b: string)
    requires h <= g && Reaches(h, a, b)
    ensures Reaches(g, a, b)
  {
    var w :| Walk(h, w) && w[0] == a && w[|w| - 1] == b;
    assert Walk(g, w);
  }

  // ---------- a package that no walk meets twice keeps its requires ----------

  /** Who may require m in the walk from the root. */
  lemma FindUser(root: string, reqs0: Requires, reqs: Requires, m: string) returns (c: string)
    requires MetOnce(reqs0, m) && Thinned(reqs0, reqs) && AllLined(reqs, m, EdgesOf(reqs0))
    requires root in reqs && m in reqs
    ensures OnlyUser(reqs, m, c, Reach(EdgesOf(reqs0), reqs0.Keys, root), EdgesOf(reqs0))
    ensures root == m ==> c == m
  {
    hide Lined, AllLined;
    var g := EdgesOf(reqs0);
    var inside := Reach(g, reqs0.Keys, root);
    ThinnedKeepsClosed(reqs0, reqs, {});
    ReachIsClosed(reqs0, root);
    c := root;
    if k :| k in reqs && k in inside && m in reqs[k] {
      c := k;
    }
    forall k | k in reqs && k in inside && m in reqs[k] ensures k == c && k != m && root != m {
      assert (k, m) in g;
      assert UserBelow(reqs0, m, g, root, k) && UserBelow(reqs0, m, g, root, c);
      if root == m || k == m {
        ReachesSelf(g, m);
        StepBack(g, m, k);
      }
    }
  }

  lemma StepBack(g: Edges, m: string, k: string)
    requires Reaches(g, m, k) && (k, m) in g
    ensures OnCycle(g, m)
  {
    var w :| Walk(g, w) && w[0] == m && w[|w| - 1] == k;
    assert ClosedWalk(g, w + [m]);
  }

  lemma RootKeeps(root: string, reqs0: Requires, reqs: Requires, injected: set<string>, m: string)
    requires MetOnce(reqs0, m) && Thinned(reqs0, reqs) && AllLined(reqs, m, EdgesOf(reqs0))
    requires root in reqs && m in reqs
    ensures var t := Trace(root, [], reqs, injected);
      && Thinned(reqs0, t.reqs) && AllLined(t.reqs, m, EdgesOf(reqs0))
      && forall r :: r in reqs[m] ==> r in t.reqs[m]
  {
    hide AllLined, MetOnce, OnlyUser;
    var g, t := EdgesOf(reqs0), Trace(root, [], reqs, injected);
    var c := FindUser(root, reqs0, reqs, m);
    ReachIsClosed(reqs0, root);
    TraceMeetsOnce(root, [], reqs, injected, m, c, Reach(g, reqs0.Keys, root), g);
    TraceLined(root, [], reqs, injected, m, g);
    TraceFacts(root, [], reqs, injected);
    ThinnedTransitive(reqs0, reqs, t.reqs);
    forall r | r in reqs[m] ensures !Revisited(t.stack, 0, m, r) {
      assert forall i :: 0 <= i < |t.stack| && t.stack[i] == m ==> m !in t.stack[..i];
    }
  }

  lemma {:induction false} RootsKeep(roots: seq<string>, reqs0: Requires, reqs: Requires, injected: set<string>,
                                     m: string)
    requires MetOnce(reqs0, m) && Thinned(reqs0, reqs) && AllLined(reqs, m, EdgesOf(reqs0))
    requires m in reqs && forall x :: x in roots ==> x in reqs
    ensures forall r :: r in reqs[m] ==> r in Detect(roots, reqs, injected).1[m]
  {
    hide MetOnce, AllLined;
    if roots != [] {
      RootKeeps(roots[0], reqs0, reqs, injected, m);
      var t := Trace(roots[0], [], reqs, injected);
      if t.ok {
        RootsKeep(roots[1..], reqs0, t.reqs, injected, m);
      }
    }
  }

  // ---------- how often a walk meets a package, at least ----------

  ghost function Count(s: seq<string>, m: string): nat {
    multiset(s)[m]
  }

  lemma CountHead(list: seq<string>, m: string)
    requires list != []
    ensures Count(list, m) == Asked(list[0], m) + Count(list[1..], m)
  {
    assert list == [list[0]] + list[1..];
  }

  ghost function Uses(reqs: Requires, k: string, m: string): nat {
    if k in reqs then Count(reqs[k], m) else 0
  }

  /** How often the packages first met from position `from` on require m. */
  ghost function Fresh(s: seq<string>, from: nat, reqs: Requires, m: string): nat {
    if |s| <= from then 0
    else
      var last := |s| - 1;
      Fresh(s[..last], from, reqs, m) + if s[last] in s[..last] then 0 else Uses(reqs, s[last], m)
  }

  lemma {:induction false} FreshInParts(s1: seq<string>, s2: seq<string>, from: nat, reqs: Requires, m: string)
    requires from <= |s1| && s1 <= s2
    ensures Fresh(s2, from, reqs, m) == Fresh(s1, from, reqs, m) + Fresh(s2, |s1|, reqs, m)
    decreases |s2|
  {
    if |s1| < |s2| {
      FreshInParts(s1, s2[..|s2| - 1], from, reqs, m);
    } else {
      assert s1 == s2;
    }
  }

  lemma {:induction false} FreshAlike(s: seq<string>, from: nat, reqs: Requires, reqs': Requires, m: string)
    requires from <= |s| && reqs.Keys == reqs'.Keys
    requires forall k :: k in reqs && k !in s[..from] ==> reqs[k] == reqs'[k]
    ensures Fresh(s, from, reqs, m) == Fresh(s, from, reqs', m)
  {
    if from < |s| {
      var init := s[..|s| - 1];
      assert init[..from] == s[..from];
      FreshAlike(init, from, reqs, reqs', m);
      assert forall x :: x in s[..from] ==> x in init;
    }
  }

  /** Each package met from the position on counts. */
  lemma {:induction false} FreshOne(s: seq<string>, from: nat, reqs: Requires, m: string, x: string)
    requires from <= |s| && x in s && x !in s[..from]
    ensures Fresh(s, from, reqs, m) >= Uses(reqs, x, m)
  {
    var init := s[..|s| - 1];
    assert s == init + [s[|s| - 1]];
    assert s[..|s|] == s;
    if x in init {
      assert init[..from] == s[..from];
      FreshOne(init, from, reqs, m, x);
    }
  }

  lemma {:induction false} FreshTwo(s: seq<string>, reqs: Requires, m: string, x: string, y: string)
    requires x in s && y in s && x != y
    ensures Fresh(s, 0, reqs, m) >= Uses(reqs, x, m) + Uses(reqs, y, m)
  {
    var init, last := s[..|s| - 1], s[|s| - 1];
    assert s == init + [last];
    if x in init && y in init {
      FreshTwo(init, reqs, m, x, y);
    } else {
      FreshOne(init, 0, reqs, m, if x in init then x else y);
    }
  }

  /** A walk that asks for m n times meets m that often, and once for each require of it by a package it meets first;
      what it does not meet it does not change. */
  ghost predicate Thorough(s: seq<string>, reqs: Requires, s': seq<string>, reqs': Requires, m: string, n: int) {
    && s <= s' && reqs.Keys == reqs'.Keys
    && (forall k :: k in reqs && k !in s' ==> reqs'[k] == reqs[k])
    && Count(s', m) >= Count(s, m) + n + Fresh(s', |s|, reqs, m)
  }

  lemma ThoroughInParts(s: seq<string>, reqs: Requires, s1: seq<string>, reqs1: Requires, s2: seq<string>,
                        reqs2: Requires, m: string, n1: int, n2: int)
    requires Thorough(s, reqs, s1, reqs1, m, n1) && Thorough(s1, reqs1, s2, reqs2, m, n2)
    ensures Thorough(s, reqs, s2, reqs2, m, n1 + n2)
  {
    FreshInParts(s1, s2, |s|, reqs, m);
    assert s2[..|s1|] == s1;
    FreshAlike(s2, |s1|, reqs, reqs1, m);
    assert forall x :: x in s1 ==> x in s2;
  }

  ghost function Asked(p: string, m: string): int {
    if p == m then 1 else 0
  }

  /** Pushing p for the first time owes its requires of m. */
  lemma PushThorough(p: string, s: seq<string>, reqs: Requires, m: string)
    requires p in reqs
    ensures Thorough(s, reqs, s + [p], Pushed(reqs, p, s), m,
                     Asked(p, m) - Count(Pushed(reqs, p, s)[p], m))
  {
    var s1 := s + [p];
    assert s1[..|s|] == s && Fresh(s, |s|, reqs, m) == 0;
  }

  lemma {:induction false} TraceThorough(p: string, s: seq<string>, reqs: Requires, injected: set<string>, m: string)
    requires p in reqs && m in reqs
    ensures var t := Trace(p, s, reqs, injected);
      t.ok ==> Thorough(s, reqs, t.stack, t.reqs, m, Asked(p, m))
    decreases Unvisited(reqs.Keys, s), if p in s then 2 else 0, 0
  {
    hide Thorough, Count, Asked;
    NestedVisitProgress(reqs, p, s);
    var s1, reqs1 := s + [p], Pushed(reqs, p, s);
    PushThorough(p, s, reqs, m);
    TraceAllThorough(reqs1[p], s1, reqs1, injected, m);
    var t := Trace(p, s, reqs, injected);
    if t.ok {
      ThoroughInParts(s, reqs, s1, reqs1, t.stack, t.reqs, m, Asked(p, m) - Count(reqs1[p], m),
                      Count(reqs1[p], m));
    }
  }

  lemma {:induction false} TraceAllThorough(list: seq<string>, s: seq<string>, reqs: Requires, injected: set<string>,
                                            m: string)
    requires m in reqs
    ensures var t := TraceAll(list, s, reqs, injected);
      t.ok ==> Thorough(s, reqs, t.stack, t.reqs, m, Count(list, m))
    decreases Unvisited(reqs.Keys, s), Level(list, s, reqs.Keys), |list|
  {
    hide Thorough, Count, Asked;
    if list == [] {
      NothingThorough(s, reqs, m);
    } else {
      CountHead(list, m);
      if list[0] in reqs {
        var t := Trace(list[0], s, reqs, injected);
        TraceThorough(list[0], s, reqs, injected, m);
        HeadProgress(list, s, reqs, injected);
        if t.ok {
          TraceAllThorough(list[1..], t.stack, t.reqs, injected, m);
          var rest := TraceAll(list[1..], t.stack, t.reqs, injected);
          if rest.ok {
            ThoroughInParts(s, reqs, t.stack, t.reqs, rest.stack, rest.reqs, m, Asked(list[0], m),
                            Count(list[1..], m));
          }
        }
      } else if list[0] in injected {
        NotAsked(list[0], reqs, m);
        LevelOfTail(list, s, reqs.Keys);
        TraceAllThorough(list[1..], s, reqs, injected, m);
      }
    }
  }

  lemma NotAsked(p: string, reqs: Requires, m: string)
    requires p !in reqs && m in reqs
    ensures Asked(p, m) == 0
  {
  }

  lemma NothingThorough(s: seq<string>, reqs: Requires, m: string)
    ensures Thorough(s, reqs, s, reqs, m, Count([], m))
  {
  }

  // ---------- the next on the stack ----------

  /** After the first visit of m comes one of its requires. */
  ghost predicate GoesOn(s: seq<string>, from: nat, reqs: Requires, m: string) {
    m in reqs && forall i :: from <= i < |s| && s[i] == m && m !in s[..i] ==>
        i + 1 < |s| && s[i + 1] in reqs[m] && s[i + 1] in reqs
  }

  lemma GoesOnInParts(s: seq<string>, reqs: Requires, s1: seq<string>, reqs1: Requires, s2: seq<string>, m: string)
    requires s <= s1 <= s2 && GoesOn(s1, |s|, reqs, m) && GoesOn(s2, |s1|, reqs1, m)
    requires reqs.Keys == reqs1.Keys && (m !in s1 ==> reqs1[m] == reqs[m])
    ensures GoesOn(s2, |s|, reqs, m)
  {
    forall i | |s| <= i < |s2| && s2[i] == m && m !in s2[..i]
      ensures i + 1 < |s2| && s2[i + 1] in reqs[m] && s2[i + 1] in reqs
    {
      if i < |s1| {
        assert s1[..i] == s2[..i] && s1[i] == m;
      } else {
        assert s2[..i][..|s1|] == s1;
      }
    }
  }

  lemma {:induction false} TraceGoesOn(p: string, s: seq<string>, reqs: Requires, injected: set<string>, m: string)
    requires p in reqs && m in reqs && exists r :: r in reqs[m] && r in reqs
    ensures var t := Trace(p, s, reqs, injected);
      t.ok ==> GoesOn(t.stack, |s|, reqs, m)
    decreases Unvisited(reqs.Keys, s), if p in s then 2 else 0, 0
  {
    hide GoesOn;
    NestedVisitProgress(reqs, p, s);
    var s1, reqs1 := s + [p], Pushed(reqs, p, s);
    var t := Trace(p, s, reqs, injected);
    if m in s1 {
      if t.ok {
        if p == m && m !in s {
          NextIsListed(reqs1[p], s1, reqs1, injected);
        }
        MetBefore(s, p, t.stack, reqs, m);
      }
    } else {
      TraceAllGoesOn(reqs1[p], s1, reqs1, injected, m);
      if t.ok {
        PushedOther(s, p, reqs, m);
        GoesOnInParts(s, reqs, s1, reqs1, t.stack, m);
      }
    }
  }

  lemma PushedOther(s: seq<string>, p: string, reqs: Requires, m: string)
    requires m in reqs && m !in s + [p]
    ensures GoesOn(s + [p], |s|, reqs, m)
  {
  }

  lemma MetBefore(s: seq<string>, p: string, s': seq<string>, reqs: Requires, m: string)
    requires m in reqs && m in s + [p] && s + [p] <= s'
    requires m !in s ==> |s'| > |s| + 1 && s'[|s| + 1] in reqs[m] && s'[|s| + 1] in reqs
    ensures GoesOn(s', |s|, reqs, m)
  {
    var s1 := s + [p];
    forall i | |s1| <= i <= |s'| ensures m in s'[..i] {
      assert s'[..i][..|s1|] == s1;
    }
    assert s'[..|s|] == s && s'[|s|] == p;
  }

  lemma {:induction false} TraceAllGoesOn(list: seq<string>, s: seq<string>, reqs: Requires, injected: set<string>,
                                          m: string)
    requires m in reqs && exists r :: r in reqs[m] && r in reqs
    ensures var t := TraceAll(list, s, reqs, injected);
      t.ok ==> GoesOn(t.stack, |s|, reqs, m)
    decreases Unvisited(reqs.Keys, s), Level(list, s, reqs.Keys), |list|
  {
    hide GoesOn;
    NothingGoesOn(s, reqs, m);
    if list != [] {
      assert list == [list[0]] + list[1..];
      if list[0] in reqs {
        var t := Trace(list[0], s, reqs, injected);
        TraceGoesOn(list[0], s, reqs, injected, m);
        HeadProgress(list, s, reqs, injected);
        if t.ok {
          var rest := TraceAll(list[1..], t.stack, t.reqs, injected);
          TraceThorough(list[0], s, reqs, injected, m);
          if m in t.stack {
            MetAlready(t.stack, rest.stack, t.reqs, m);
          } else {
            TraceAllGoesOn(list[1..], t.stack, t.reqs, injected, m);
          }
          if rest.ok {
            GoesOnInParts(s, reqs, t.stack, t.reqs, rest.stack, m);
          }
        }
      } else if list[0] in injected {
        LevelOfTail(list, s, reqs.Keys);
        TraceAllGoesOn(list[1..], s, reqs, injected, m);
      }
    }
  }

  lemma NothingGoesOn(s: seq<string>, reqs: Requires, m: string)
    requires m in reqs
    ensures GoesOn(s, |s|, reqs, m)
  {
  }

  lemma MetAlready(s: seq<string>, s': seq<string>, reqs: Requires, m: string)
    requires m in reqs && m in s && s <= s'
    ensures GoesOn(s', |s|, reqs, m)
  {
    forall i | |s| <= i <= |s'| ensures m in s'[..i] {
      assert s'[..i][..|s|] == s;
    }
  }

  /** The first push of a walk along a list is one of the list. */
  lemma {:induction false} NextIsListed(list: seq<string>, s: seq<string>, reqs: Requires, injected: set<string>)
    requires TraceAll(list, s, reqs, injected).ok && exists r :: r in list && r in reqs
    ensures var t := TraceAll(list, s, reqs, injected);
      |t.stack| > |s| && t.stack[|s|] in list && t.stack[|s|] in reqs
    decreases |list|
  {
    assert list == [list[0]] + list[1..];
    if list[0] in reqs {
      var t := Trace(list[0], s, reqs, injected);
      assert (s + [list[0]])[|s|] == list[0];
    } else {
      NextIsListed(list[1..], s, reqs, injected);
    }
  }

  // ---------- a package met twice loses a require ----------

  lemma {:induction false} MetTwice(s: seq<string>, m: string) returns (i: nat)
    requires Count(s, m) >= 2
    ensures i < |s| && s[i] == m && m in s[..i]
  {
    var last := |s| - 1;
    assert s == s[..last] + [s[last]];
    if s[last] == m {
      i := last;
    } else {
      i := MetTwice(s[..last], m);
      assert s[..last][..i] == s[..i];
    }
  }

  lemma {:induction false} FirstVisitOf(s: seq<string>, m: string) returns (i: nat)
    requires m in s
    ensures i < |s| && s[i] == m && m !in s[..i]
  {
    var last := |s| - 1;
    assert s == s[..last] + [s[last]];
    if m in s[..last] {
      i := FirstVisitOf(s[..last], m);
      assert s[..last][..i] == s[..i];
    } else {
      i := last;
    }
  }

  /** The require that the first visit goes to is on the stack at the second. */
  lemma TwiceLoses(root: string, reqs: Requires, injected: set<string>, m: string) returns (r: string)
    requires root in reqs && m in reqs && (exists r :: r in reqs[m] && r in reqs)
    requires Trace(root, [], reqs, injected).ok && Count(Trace(root, [], reqs, injected).stack, m) >= 2
    ensures r in reqs[m] && r !in Trace(root, [], reqs, injected).reqs[m]
  {
    var t := Trace(root, [], reqs, injected);
    TraceFacts(root, [], reqs, injected);
    TraceGoesOn(root, [], reqs, injected, m);
    var k := MetTwice(t.stack, m);
    var i := FirstVisitOf(t.stack, m);
    r := t.stack[i + 1];
    if i + 1 == k {
      assert r == m;
    } else {
      assert i < k && t.stack[..k][i + 1] == r;
    }
    assert Revisited(t.stack, 0, m, r);
  }

  /** Whatever the walk meets, it meets what that requires. */
  lemma MeetsRequires(root: string, reqs: Requires, injected: set<string>, a: string, b: string)
    requires root in reqs && Trace(root, [], reqs, injected).ok
    requires a in Trace(root, [], reqs, injected).stack && (a, b) in EdgesOf(reqs)
    ensures b in Trace(root, [], reqs, injected).stack
  {
    var t := Trace(root, [], reqs, injected);
    TraceFacts(root, [], reqs, injected);
    if b in t.reqs[a] {
      var i :| 0 <= i < |t.stack| && t.stack[i] == a;
      assert b in t.stack[i + 1..];
    } else {
      assert Revisited(t.stack, 0, a, b);
    }
  }

  /** A walk meets all that the root reaches. */
  lemma MeetsReach(root: string, reqs: Requires, injected: set<string>, c: string)
    requires root in reqs && Trace(root, [], reqs, injected).ok && Reaches(EdgesOf(reqs), root, c)
    ensures c in Trace(root, [], reqs, injected).stack
  {
    var s := Trace(root, [], reqs, injected).stack;
    assert root in [] + [root];
    var met := set x | x in s;
    forall e | e in EdgesOf(reqs) && e.0 in met ensures e.1 in met {
      MeetsRequires(root, reqs, injected, e.0, e.1);
    }
    var w :| Walk(EdgesOf(reqs), w) && w[0] == root && w[|w| - 1] == c;
    WalkStaysInside(EdgesOf(reqs), met, w);
  }

  /** The walk from r meets m once for itself and once for each of its users below r. */
  lemma MetByUsers(r: string, reqs: Requires, injected: set<string>, m: string, c: string, d: string)
    requires r in reqs && m in reqs && Trace(r, [], reqs, injected).ok
    requires UserBelow(reqs, m, EdgesOf(reqs), r, c)
    requires d == c || UserBelow(reqs, m, EdgesOf(reqs), r, d)
    ensures Count(Trace(r, [], reqs, injected).stack, m) >=
            Asked(r, m) + if c == d then Uses(reqs, c, m) else Uses(reqs, c, m) + Uses(reqs, d, m)
  {
    var s := Trace(r, [], reqs, injected).stack;
    MeetsReach(r, reqs, injected, c);
    MeetsReach(r, reqs, injected, d);
    TraceThorough(r, [], reqs, injected, m);
    if c == d {
      FreshOne(s, 0, reqs, m, c);
    } else {
      FreshTwo(s, reqs, m, c, d);
    }
  }

  lemma {:induction false} TraceAllInParts(list: seq<string>, j: nat, s: seq<string>, reqs: Requires,
                                           injected: set<string>)
    requires j <= |list|
    ensures var t := TraceAll(list[..j], s, reqs, injected);
      TraceAll(list, s, reqs, injected) == if t.ok then TraceAll(list[j..], t.stack, t.reqs, injected) else t
    decreases j
  {
    if j == 0 {
      assert list[..0] == [] && list[0..] == list;
      TraceEnd(s, reqs, injected);
    } else {
      hide TraceAll, Trace;
      var rest := list[1..];
      assert list[..j][0..] == list[..j] && list[..j][1..] == rest[..j - 1] && rest[j - 1..] == list[j..] &&
             list[0..] == list;
      TraceStep(list, 0, s, reqs, injected);
      TraceStep(list[..j], 0, s, reqs, injected);
      if list[0] in reqs {
        var t := Trace(list[0], s, reqs, injected);
        TraceAllInParts(rest, j - 1, t.stack, t.reqs, injected);
      } else {
        TraceAllInParts(rest, j - 1, s, reqs, injected);
      }
    }
  }

  /** The last package before c on a way to it that starts on the stack. */
  lemma {:induction false} LastBefore(w: seq<string>, g: Edges, c: string, met: set<string>) returns (d: string)
    requires Walk(g, w) && w[|w| - 1] == c && w[0] in met && w[0] != c
    requires forall a, b :: a in met && a != c && (a, b) in g ==> b in met
    ensures d in met && d != c && (d, c) in g
    decreases |w|
  {
    assert (w[0], w[1]) in g;
    if w[1] == c {
      d := w[0];
    } else {
      forall i | 0 <= i < |w[1..]| - 1 ensures (w[1..][i], w[1..][i + 1]) in g {
        assert (w[i + 1], w[i + 2]) in g;
      }
      d := LastBefore(w[1..], g, c, met);
    }
  }

  /** The walk along requires of c that lead back to c meets c again, and then m if it has not met it before. */
  lemma LeadsBack(c: string, list: seq<string>, r: string, reqs: Requires, injected: set<string>, m: string)
    requires c in reqs && m in reqs && m in reqs[c] && QueueClosed(reqs, injected)
    requires (forall x :: x in list ==> x in reqs[c]) && r in list && Reaches(EdgesOf(reqs), r, c)
    ensures var t := TraceAll(list, [c], reqs, injected);
      t.ok && m in t.stack
  {
    hide Grown, Followed, QueueClosed, Reaches;
    var t := TraceAll(list, [c], reqs, injected);
    ClosedList(reqs, c, injected);
    TraceAllFacts(list, [c], reqs, injected);
    MeetsOwner(c, list, r, reqs, injected);
    var i := MetTwice(t.stack, c);
    AgainMeets(c, i, t.stack, reqs, t.reqs, injected, m);
  }

  lemma MeetsOwner(c: string, list: seq<string>, r: string, reqs: Requires, injected: set<string>)
    requires c in reqs && r in list && Reaches(EdgesOf(reqs), r, c) && TraceAll(list, [c], reqs, injected).ok
    ensures Count(TraceAll(list, [c], reqs, injected).stack, c) >= 2
  {
    hide Grown, Followed, Fresh;
    var g, t := EdgesOf(reqs), TraceAll(list, [c], reqs, injected);
    TraceAllFacts(list, [c], reqs, injected);
    TraceAllThorough(list, [c], reqs, injected, c);
    if r != c {
      var w :| Walk(g, w) && w[0] == r && w[|w| - 1] == c;
      assert (w[0], w[1]) in g;
      forall a, b | a in t.stack && a != c && (a, b) in g ensures b in t.stack {
        ListMeetsRequires(c, t.stack, reqs, t.reqs, injected, a, b);
      }
      assert r in t.stack;
      var d := LastBefore(w, g, c, set x | x in t.stack);
      assert t.stack[..1] == [c];
      FreshOne(t.stack, 1, reqs, c, d);
    }
  }

  /** The second visit of c keeps its require of m, if m has not been met, and so meets it. */
  lemma AgainMeets(c: string, i: nat, s: seq<string>, reqs: Requires, reqs': Requires, injected: set<string>, m: string)
    requires Grown([c], reqs, s, reqs') && Followed(s, 1, reqs', injected)
    requires i < |s| && s[i] == c && c in s[..i] && c in reqs && m in reqs[c] && m in reqs
    ensures m in s
  {
    if m !in s {
      assert !Revisited(s, 1, c, m);
    }
    if m in reqs'[c] {
      assert forall x :: x in s[i + 1..] ==> x in s;
    }
  }

  lemma ListMeetsRequires(c: string, s: seq<string>, reqs: Requires, reqs': Requires, injected: set<string>, a: string,
                          b: string)
    requires Grown([c], reqs, s, reqs') && Followed(s, 1, reqs', injected)
    requires a in s && a != c && (a, b) in EdgesOf(reqs)
    ensures b in s
  {
    var i :| 0 <= i < |s| && s[i] == a;
    assert s[0] == c;
    if b in reqs'[a] {
      assert b in s[i + 1..];
    } else {
      assert Revisited(s, 1, a, b);
    }
  }

  /** A list that is not lined makes the walk from its owner meet m twice. */
  lemma UnlinedMeetsTwice(c: string, reqs: Requires, injected: set<string>, m: string)
    requires c in reqs && m in reqs && QueueClosed(reqs, injected) && !Lined(reqs[c], c, m, EdgesOf(reqs))
    ensures Count(Trace(c, [], reqs, injected).stack, m) >= 2
  {
    hide Reaches, QueueClosed, Trace, Count, Grown, Visited;
    var g, list := EdgesOf(reqs), reqs[c];
    var i, j :| 0 <= i < j < |list| && list[j] == m && (list[i] == m || Reaches(g, list[i], c));
    TraceFacts(c, [], reqs, injected);
    if list[i] == m {
      ReachesSelf(g, c);
      MetByUsers(c, reqs, injected, m, c, c);
      CountTwo(list, i, j, m);
    } else {
      MeetsAfter(c, j, list[i], reqs, injected, m);
    }
  }

  lemma CountTwo(list: seq<string>, i: nat, j: nat, m: string)
    requires i < j < |list| && list[i] == m == list[j]
    ensures Count(list, m) >= 2
  {
    assert list == list[..j] + [m] + list[j + 1..] && list[..j][i] == m;
  }

  lemma MeetsAfter(c: string, j: nat, r: string, reqs: Requires, injected: set<string>, m: string)
    requires c in reqs && m in reqs && QueueClosed(reqs, injected) && Trace(c, [], reqs, injected).ok
    requires j < |reqs[c]| && reqs[c][j] == m && r in reqs[c][..j] && Reaches(EdgesOf(reqs), r, c)
    ensures Count(Trace(c, [], reqs, injected).stack, m) >= 2
  {
    hide Reaches, QueueClosed, TraceAll, Trace, Fresh;
    var before, after := reqs[c][..j], reqs[c][j..];
    var t := TraceAll(before, [c], reqs, injected);
    LeadsBack(c, before, r, reqs, injected, m);
    FirstVisit(c, [], reqs, injected);
    assert [] + [c] == [c];
    TraceAllInParts(reqs[c], j, [c], reqs, injected);
    TraceAllThorough(after, t.stack, t.reqs, injected, m);
    assert after[0] == m;
  }

  /** If a package may be met twice, there is a root from which it is. */
  lemma FindRoot(reqs: Requires, injected: set<string>, m: string) returns (root: string)
    requires m in reqs && QueueClosed(reqs, injected) && !MetOnce(reqs, m)
    ensures root in reqs && Trace(root, [], reqs, injected).ok
    ensures Count(Trace(root, [], reqs, injected).stack, m) >= 2
  {
    var g := EdgesOf(reqs);
    if OnCycle(g, m) {
      root := m;
      var w :| ClosedWalk(g, w) && w[0] == m;
      var c := w[|w| - 2];
      assert (c, m) in g && Walk(g, w[..|w| - 1]);
      assert UserBelow(reqs, m, g, m, c);
      TraceFacts(root, [], reqs, injected);
      MetByUsers(m, reqs, injected, m, c, c);
    } else if !OneUser(reqs, m, g) {
      var r, c, d :| UserBelow(reqs, m, g, r, c) && UserBelow(reqs, m, g, r, d) && c != d;
      root := r;
      ReachesFromQueued(reqs, r, c);
      TraceFacts(root, [], reqs, injected);
      MetByUsers(r, reqs, injected, m, c, d);
    } else {
      root :| root in reqs && !Lined(reqs[root], root, m, g);
      TraceFacts(root, [], reqs, injected);
      UnlinedMeetsTwice(root, reqs, injected, m);
    }
  }

  lemma ReachesFromQueued(reqs: Requires, r: string, c: string)
    requires Reaches(EdgesOf(reqs), r, c) && c in reqs
    ensures r in reqs
  {
    var w :| Walk(EdgesOf(reqs), w) && w[0] == r && w[|w| - 1] == c;
    if |w| > 1 {
      assert (w[0], w[1]) in EdgesOf(reqs);
    }
  }

  // ---------- the condition on the queue ----------

  /** The detector leaves m all that it requires. */
  ghost predicate Keeps(roots: seq<string>, reqs: Requires, injected: set<string>, m: string)
    requires m in reqs && forall x :: x in roots ==> x in reqs
  {
    forall r :: r in reqs[m] ==> r in Detect(roots, reqs, injected).1[m]
  }

  lemma {:induction false} DetectThins(roots: seq<string>, reqs: Requires, injected: set<string>)
    requires forall x :: x in roots ==> x in reqs
    ensures Thinned(reqs, Detect(roots, reqs, injected).1)
  {
    if roots != [] {
      var t := Trace(roots[0], [], reqs, injected);
      TraceFacts(roots[0], [], reqs, injected);
      if t.ok {
        DetectThins(roots[1..], t.reqs, injected);
      }
    }
  }

  lemma {:induction false} Enumerate(keys: set<string>, first: string) returns (roots: seq<string>)
    requires first in keys
    ensures Enumerates(roots, keys) && roots[0] == first
    decreases |keys|
  {
    if keys == {first} {
      roots := [first];
    } else {
      var k :| k in keys && k != first;
      roots := Enumerate(keys - {k}, first);
      roots := roots + [k];
    }
  }

  /** On a queue whose requires are all available, a package keeps its requires for every order of the roots exactly if
      it requires no queued package, or no walk can meet it twice: it lies on no cycle, no package reaches two that
      require it, and none that requires it lists it after a require that is the same or leads back. */
  lemma KeepsInEveryOrder(reqs: Requires, injected: set<string>, m: string)
    requires m in reqs && QueueClosed(reqs, injected)
    ensures (forall roots :: Enumerates(roots, reqs.Keys) ==> Keeps(roots, reqs, injected, m))
            <==> MetOnce(reqs, m) || forall r :: r in reqs[m] ==> r !in reqs
  {
    hide MetOnce;
    if MetOnce(reqs, m) {
      forall roots | Enumerates(roots, reqs.Keys) ensures Keeps(roots, reqs, injected, m) {
        OnceKeeps(roots, reqs, injected, m);
      }
    } else if exists r :: r in reqs[m] && r in reqs {
      var root := FindRoot(reqs, injected, m);
      var r := TwiceLoses(root, reqs, injected, m);
      var roots := Enumerate(reqs.Keys, root);
      DetectThins(roots[1..], Trace(root, [], reqs, injected).reqs, injected);
      assert !Keeps(roots, reqs, injected, m);
    } else {
      forall roots | Enumerates(roots, reqs.Keys) ensures Keeps(roots, reqs, injected, m) {
        DetectThins(roots, reqs, injected);
      }
    }
  }

  lemma OnceKeeps(roots: seq<string>, reqs: Requires, injected: set<string>, m: string)
    requires m in reqs && MetOnce(reqs, m) && forall x :: x in roots ==> x in reqs
    ensures Keeps(roots, reqs, injected, m)
  {
    RootsKeep(roots, reqs, reqs, injected, m);
  }
}
