/** Uninstall: the reverse dependencies of the packages to remove, and their removal. */
module Uninstall {
  import opened Wrappers
  import opened Packages
  import opened Planner
  import opened Database
  import opened Digraph
  import Installer

  ghost function AtomNames(atoms: seq<Atom>): set<string> {
    set a | a in atoms :: a.name
  }

  /** The names that p requires or provides: p is affected when a package of such a name goes. */
  ghost function UsedNames(p: Package): set<string> {
    AtomNames(p.deps) + AtomNames(p.provs)
  }

  ghost function Elements(ps: seq<Package>): set<Package> {
    set p | p in ps
  }

  /** From a name to the names of the installed packages that use it. */
  ghost function UsedBy(system: set<Package>): (g: Edges)
    ensures forall n, m :: (n, m) in g <==> exists p :: p in system && n in UsedNames(p) && p.name == m
  {
    set p, n | p in system && n in UsedNames(p) :: (n, p.name)
  }

  /** s is what the roots reach. */
  ghost predicate IsClosure(g: Edges, roots: set<string>, s: set<string>) {
    && roots <= s
    && ClosedUnder(g, s)
    && forall n :: n in s ==> ReachedFrom(g, roots, n)
  }

  ghost predicate ReachedFrom(g: Edges, roots: set<string>, n: string) {
    exists r :: r in roots && Reaches(g, r, n)
  }

  /** The closure is the least set that contains the roots and is closed. */
  lemma ClosureIsLeast(g: Edges, roots: set<string>, s: set<string>, t: set<string>)
    requires IsClosure(g, roots, s) && roots <= t && ClosedUnder(g, t)
    ensures s <= t
  {
    forall n | n in s ensures n in t {
      assert ReachedFrom(g, roots, n);
      var r :| r in roots && Reaches(g, r, n);
      var w :| Walk(g, w) && w[0] == r && w[|w| - 1] == n;
      WalkStaysInside(g, t, w);
    }
  }

  /** So it does not depend on the order of the roots, nor on the order of the installed packages. */
  lemma ClosureIsUnique(g: Edges, roots: set<string>, s: set<string>, t: set<string>)
    requires IsClosure(g, roots, s) && IsClosure(g, roots, t)
    ensures s == t
  {
    ClosureIsLeast(g, roots, s, t);
    ClosureIsLeast(g, roots, t, s);
  }

  /** Who requires or provides a name of the set is in the set by its own name. */
  ghost predicate ClosedSet(system: set<Package>, t: set<string>) {
    forall p, a :: p in system && (a in p.deps || a in p.provs) && a.name in t ==> p.name in t
  }

  /** The closure is the least such set that has the roots. */
  lemma ClosureMeaning(system: set<Package>, roots: set<string>, s: set<string>)
    ensures IsClosure(UsedBy(system), roots, s) <==>
            && roots <= s && ClosedSet(system, s)
            && forall t :: roots <= t && ClosedSet(system, t) ==> s <= t
  {
    hide ReachedFrom, UsedBy, ClosedUnder, ClosedSet;
    var g := UsedBy(system);
    forall t ensures ClosedUnder(g, t) <==> ClosedSet(system, t) {
      SameClosed(system, t);
    }
    if IsClosure(g, roots, s) {
      forall t | roots <= t && ClosedSet(system, t) ensures s <= t {
        ClosureIsLeast(g, roots, s, t);
      }
    }
    if roots <= s && ClosedSet(system, s) && forall t :: roots <= t && ClosedSet(system, t) ==> s <= t {
      ReachedIsClosed(g, roots, s);
    }
  }

  lemma ReachedIsClosed(g: Edges, roots: set<string>, s: set<string>)
    requires roots <= s && ClosedUnder(g, s)
    ensures var t := set n | n in s && ReachedFrom(g, roots, n); roots <= t && ClosedUnder(g, t)
  {
    var t := set n | n in s && ReachedFrom(g, roots, n);
    forall r | r in roots ensures r in t {
      ReachesSelf(g, r);
    }
    forall n, m | n in t && (n, m) in g ensures m in t {
      var r :| r in roots && Reaches(g, r, n);
      ReachesNext(g, r, n, m);
    }
  }

  lemma ReachesNext(g: Edges, r: string, n: string, m: string)
    requires Reaches(g, r, n) && (n, m) in g
    ensures Reaches(g, r, m)
  {
    var w :| Walk(g, w) && w[0] == r && w[|w| - 1] == n;
    assert Walk(g, w + [m]) && (w + [m])[0] == r && (w + [m])[|w|] == m;
  }

  lemma SameClosed(system: set<Package>, t: set<string>)
    ensures ClosedUnder(UsedBy(system), t) <==> ClosedSet(system, t)
  {
    if ClosedUnder(UsedBy(system), t) {
      forall p, a | p in system && (a in p.deps || a in p.provs) && a.name in t ensures p.name in t {
        assert a.name in UsedNames(p);
        assert (a.name, p.name) in UsedBy(system);
      }
    }
  }

  ghost function NamesOf(ps: seq<Package>): set<string> {
    set p | p in ps :: p.name
  }

  ghost predicate DistinctPackages(ps: seq<Package>) {
    forall i, j :: 0 <= i < j < |ps| ==> ps[i].name != ps[j].name
  }

  lemma NamesAppend(ps: seq<Package>, p: Package)
    ensures NamesOf(ps + [p]) == NamesOf(ps) + {p.name}
  {
  }

  lemma NamesOfPrefix(a: seq<Package>, b: seq<Package>)
    requires a <= b
    ensures NamesOf(a) <= NamesOf(b)
  {
    assert forall p :: p in a ==> p in b;
  }

  // ---------- the reverse dependency map ----------

  /** p, once for each of the atoms with the name. */
  ghost function Uses(p: Package, atoms: seq<Atom>, n: string): (uses: seq<Package>)
    ensures forall q :: q in uses ==> q == p
    ensures uses != [] <==> n in AtomNames(atoms)
  {
    if atoms == [] then []
    else
      var last := atoms[|atoms| - 1];
      assert atoms == atoms[..|atoms| - 1] + [last];
      Uses(p, atoms[..|atoms| - 1], n) + if last.name == n then [p] else []
  }

  /** The entries for one package: once for each provide and each require of the name. */
  ghost function Entries(p: Package, n: string): (entries: seq<Package>)
    ensures forall q :: q in entries <==> q == p && n in UsedNames(p)
  {
    var entries := Uses(p, p.provs, n) + Uses(p, p.deps, n);
    assert entries != [] ==> entries[0] in entries && entries[0] == p;
    entries
  }

  /** The entries of the reverse dependency map under a name: the installed packages that provide or require it,
      in the order of the system. */
  ghost function UsersOf(system: seq<Package>, n: string): (users: seq<Package>)
    ensures forall p :: p in users <==> p in system && n in UsedNames(p)
  {
    if system == [] then []
    else
      var last := system[|system| - 1];
      assert system == system[..|system| - 1] + [last];
      UsersOf(system[..|system| - 1], n) + Entries(last, n)
  }

  lemma UsersAppend(system: seq<Package>, p: Package, n: string)
    ensures UsersOf(system + [p], n) == UsersOf(system, n) + Entries(p, n)
  {
    assert (system + [p])[..|system|] == system;
  }

  lemma NoUsers(n: string)
    ensures UsersOf([], n) == []
  {
  }

  lemma {:induction false} UsersConcat(a: seq<Package>, b: seq<Package>, n: string)
    ensures UsersOf(a + b, n) == UsersOf(a, n) + UsersOf(b, n)
  {
    hide Entries, UsersOf;
    NoUsers(n);
    if b == [] {
      assert a + b == a;
    } else {
      var init, last := b[..|b| - 1], b[|b| - 1];
      assert b == init + [last] && a + b == (a + init) + [last];
      UsersConcat(a, init, n);
      UsersAppend(a + init, last, n);
      UsersAppend(init, last, n);
    }
  }

  ghost function At(rdeps: map<string, seq<Package>>, n: string): seq<Package> {
    if n in rdeps then rdeps[n] else []
  }

  ghost predicate IsRdeps(rdeps: map<string, seq<Package>>, system: seq<Package>) {
    forall n :: At(rdeps, n) == UsersOf(system, n)
  }

  /** The map has got p under the names of the atoms, in their order. */
  ghost predicate AddsUses(before: map<string, seq<Package>>, after: map<string, seq<Package>>, p: Package,
                           atoms: seq<Atom>) {
    forall n :: At(after, n) == At(before, n) + Uses(p, atoms, n)
  }

  lemma AddsNothing(rdeps: map<string, seq<Package>>, p: Package)
    ensures AddsUses(rdeps, rdeps, p, [])
  {
  }

  lemma AddsNext(before: map<string, seq<Package>>, mid: map<string, seq<Package>>, after: map<string, seq<Package>>,
                 p: Package, atoms: seq<Atom>, i: nat)
    requires i < |atoms| && AddsUses(before, mid, p, atoms[..i])
    requires forall n :: At(after, n) == if n == atoms[i].name then At(mid, n) + [p] else At(mid, n)
    ensures AddsUses(before, after, p, atoms[..i + 1])
  {
    hide At;
    assert atoms[..i + 1][..i] == atoms[..i];
    forall n ensures At(after, n) == At(before, n) + Uses(p, atoms[..i + 1], n) {
      assert At(mid, n) == At(before, n) + Uses(p, atoms[..i], n);
      assert Uses(p, atoms[..i + 1], n) == Uses(p, atoms[..i], n) + if atoms[i].name == n then [p] else [];
    }
  }

  lemma NextRdeps(system: seq<Package>, i: nat, rdeps0: map<string, seq<Package>>, rdeps1: map<string, seq<Package>>,
                  rdeps2: map<string, seq<Package>>)
    requires i < |system| && IsRdeps(rdeps0, system[..i])
    requires AddsUses(rdeps0, rdeps1, system[i], system[i].provs) && AddsUses(rdeps1, rdeps2, system[i], system[i].deps)
    ensures IsRdeps(rdeps2, system[..i + 1])
  {
    hide At, Uses, UsersOf;
    assert system[..i + 1] == system[..i] + [system[i]];
    forall n ensures At(rdeps2, n) == UsersOf(system[..i + 1], n) {
      UsersAppend(system[..i], system[i], n);
      assert At(rdeps0, n) == UsersOf(system[..i], n);
    }
  }

  // ---------- the search ----------

  /** The search from p: nothing if p is resolved, else p and then its users. */
  ghost function Visit(system: seq<Package>, known: set<string>, p: Package, ms: seq<Package>): (found: seq<Package>)
    requires p.name in known && NamesOf(system) <= known
    ensures ms <= found
    decreases known - NamesOf(ms), 0
  {
    NamesAppend(ms, p);
    if p.name in NamesOf(ms) then ms else VisitAll(system, known, UsersOf(system, p.name), ms + [p])
  }

  ghost function VisitAll(system: seq<Package>, known: set<string>, list: seq<Package>, ms: seq<Package>)
    : (found: seq<Package>)
    requires NamesOf(list) <= known && NamesOf(system) <= known
    ensures ms <= found
    decreases known - NamesOf(ms), |list|
  {
    if list == [] then ms
    else
      var next := Visit(system, known, list[0], ms);
      NamesOfPrefix(ms, next);
      VisitAll(system, known, list[1..], next)
  }

  ghost function Known(roots: seq<Package>, system: seq<Package>): set<string> {
    NamesOf(roots) + NamesOf(system)
  }

  /** What the uninstall of the roots matches. */
  ghost function Matches(roots: seq<Package>, system: seq<Package>): seq<Package> {
    VisitAll(system, Known(roots, system), roots, [])
  }

  class ResolveRdependsTask {
    var resolved: set<string>
    var rdeps: map<string, seq<Package>>
    var matches: seq<Package>

    constructor ()
      ensures resolved == {} && rdeps == map[] && matches == []
    {
      resolved, rdeps, matches := {}, map[], [];
    }

    method AddRdep2Map(p: Package, d: Atom)
      modifies this`rdeps
      ensures forall n :: At(rdeps, n) == if n == d.name then At(old(rdeps), n) + [p] else At(old(rdeps), n)
    {
      if d.name in rdeps {
        rdeps := rdeps[d.name := rdeps[d.name] + [p]];
      } else {
        rdeps := rdeps[d.name := [p]];
      }
    }

    method AddRdeps2Map(p: Package, atoms: seq<Atom>)
      modifies this`rdeps
      ensures AddsUses(old(rdeps), rdeps, p, atoms)
    {
      hide At, Uses, AddsUses;
      AddsNothing(rdeps, p);
      for idx := 0 to |atoms|
        invariant AddsUses(old(rdeps), rdeps, p, atoms[..idx])
      {
        ghost var before := rdeps;
        AddRdep2Map(p, atoms[idx]);
        AddsNext(old(rdeps), before, rdeps, p, atoms, idx);
      }
      assert atoms[..|atoms|] == atoms;
    }

    method BuildRdeps(system: seq<Package>)
      modifies this`rdeps
      ensures IsRdeps(rdeps, system)
    {
      hide AddsUses;
      rdeps := map[];
      for i := 0 to |system|
        invariant IsRdeps(rdeps, system[..i])
      {
        ghost var rdeps0 := rdeps;
        AddRdeps2Map(system[i], system[i].provs);
        ghost var rdeps1 := rdeps;
        AddRdeps2Map(system[i], system[i].deps);
        NextRdeps(system, i, rdeps0, rdeps1, rdeps);
      }
      assert system[..|system|] == system;
    }

    method RecursiveResolveRdep(p: Package, ghost system: seq<Package>, ghost known: set<string>)
      requires IsRdeps(rdeps, system) && resolved == NamesOf(matches)
      requires p.name in known && NamesOf(system) <= known
      modifies this`resolved, this`matches
      ensures resolved == NamesOf(matches) && matches == Visit(system, known, p, old(matches))
      decreases known - resolved
    {
      hide IsRdeps, UsersOf, NamesOf;
      if p.name in resolved {
        return;
      }
      ghost var ms := matches + [p];
      ghost var users := UsersOf(system, p.name);
      NamesAppend(matches, p);
      // SetResolved and AddMatch.
      resolved := resolved + {p.name};
      matches := matches + [p];
      ListedUsers(rdeps, system, known, p.name);
      if p.name in rdeps {
        var val := rdeps[p.name];
        for i := 0 to |val|
          invariant resolved == NamesOf(matches) && NamesOf(ms) <= resolved && ms <= matches
          invariant NamesOf(val[i..]) <= known
          invariant VisitAll(system, known, users, ms) == VisitAll(system, known, val[i..], matches)
        {
          var d := val[i];
          NextInList(val, i);
          if d.name !in resolved {
            RecursiveResolveRdep(d, system, known);
          }
          assert val[i..][1..] == val[i + 1..];
          NamesOfPrefix(ms, matches);
        }
      }
    }
  }

  lemma ListedUsers(rdeps: map<string, seq<Package>>, system: seq<Package>, known: set<string>, n: string)
    requires IsRdeps(rdeps, system) && NamesOf(system) <= known
    ensures At(rdeps, n) == UsersOf(system, n) && NamesOf(UsersOf(system, n)) <= known
    ensures UsersOf(system, n)[0..] == UsersOf(system, n)
  {
  }

  lemma NextInList(list: seq<Package>, i: nat)
    requires i < |list|
    ensures list[i..] != [] && list[i..][0] == list[i] && list[i].name in NamesOf(list[i..])
    ensures NamesOf(list[i + 1..]) <= NamesOf(list[i..])
  {
    assert list[i] in list[i..];
    assert forall p :: p in list[i + 1..] ==> p in list[i..];
  }

  // ---------- what the search finds ----------

  /** Of the names between two stages of the search, all users are resolved at the later one. */
  ghost predicate UsersDone(g: Edges, before: set<string>, after: set<string>) {
    forall e :: e in g && e.0 in after && e.0 !in before ==> e.1 in after
  }

  lemma {:induction false} VisitCloses(system: seq<Package>, known: set<string>, p: Package, ms: seq<Package>)
    requires p.name in known && NamesOf(system) <= known
    ensures p.name in NamesOf(Visit(system, known, p, ms))
    ensures UsersDone(UsedBy(Elements(system)), NamesOf(ms), NamesOf(Visit(system, known, p, ms)))
    decreases known - NamesOf(ms), 0
  {
    if p.name !in NamesOf(ms) {
      var users := UsersOf(system, p.name);
      NamesAppend(ms, p);
      VisitAllCloses(system, known, users, ms + [p]);
      NamesOfPrefix(ms + [p], Visit(system, known, p, ms));
      forall m | (p.name, m) in UsedBy(Elements(system)) ensures m in NamesOf(users) {
        var q :| q in Elements(system) && p.name in UsedNames(q) && q.name == m;
        assert q in users;
      }
    }
  }

  lemma {:induction false} VisitAllCloses(system: seq<Package>, known: set<string>, list: seq<Package>,
                                          ms: seq<Package>)
    requires NamesOf(list) <= known && NamesOf(system) <= known
    ensures NamesOf(list) <= NamesOf(VisitAll(system, known, list, ms))
    ensures UsersDone(UsedBy(Elements(system)), NamesOf(ms), NamesOf(VisitAll(system, known, list, ms)))
    decreases known - NamesOf(ms), |list|
  {
    if list != [] {
      var next := Visit(system, known, list[0], ms);
      NamesOfPrefix(ms, next);
      VisitCloses(system, known, list[0], ms);
      VisitAllCloses(system, known, list[1..], next);
      NamesOfPrefix(next, VisitAll(system, known, list, ms));
      assert list == [list[0]] + list[1..];
    }
  }

  /** The name is reached from a root by a walk through the given names only. */
  ghost predicate Within(g: Edges, roots: set<string>, names: set<string>, n: string) {
    exists w :: Walk(g, w) && w[0] in roots && w[|w| - 1] == n && forall x :: x in w ==> x in names
  }

  /** The name is reached from a root by a walk that avoids another name. */
  ghost predicate Avoiding(g: Edges, roots: set<string>, avoided: string, n: string) {
    exists w :: Walk(g, w) && w[0] in roots && w[|w| - 1] == n && avoided !in w
  }

  /** The search can match this very package: it is a root, or it uses a name that is reached without its own. */
  ghost predicate CanMatch(system: set<Package>, roots: set<Package>, m: Package) {
    || m in roots
    || (m in system && exists n :: n in UsedNames(m) && Avoiding(UsedBy(system), RootNames(roots), m.name, n))
  }

  ghost function RootNames(roots: set<Package>): set<string> {
    set p | p in roots :: p.name
  }

  /** Each name is matched once, by a package that can be matched, and is reached through matched names. */
  ghost predicate Traced(system: set<Package>, roots: set<Package>, ms: seq<Package>) {
    && DistinctPackages(ms)
    && (forall m :: m in ms ==> CanMatch(system, roots, m))
    && forall n :: n in NamesOf(ms) ==> Within(UsedBy(system), RootNames(roots), NamesOf(ms), n)
  }

  /** The package is a root, or uses a matched name. */
  ghost predicate Eligible(system: set<Package>, roots: set<Package>, names: set<string>, p: Package) {
    p in roots || (p in system && exists n :: n in UsedNames(p) && n in names)
  }

  lemma WithinMore(g: Edges, roots: set<string>, names: set<string>, more: set<string>, n: string)
    requires Within(g, roots, names, n) && names <= more
    ensures Within(g, roots, more, n)
  {
    var w :| Walk(g, w) && w[0] in roots && w[|w| - 1] == n && forall x :: x in w ==> x in names;
    assert forall x :: x in w ==> x in more;
  }

  lemma WithinNext(g: Edges, roots: set<string>, names: set<string>, n: string, m: string)
    requires Within(g, roots, names, n) && (n, m) in g
    ensures Within(g, roots, names + {m}, m)
  {
    var w :| Walk(g, w) && w[0] in roots && w[|w| - 1] == n && forall x :: x in w ==> x in names;
    var w' := w + [m];
    forall i | 0 <= i < |w'| - 1 ensures (w'[i], w'[i + 1]) in g {
      if i < |w| - 1 {
        assert (w[i], w[i + 1]) in g;
      }
    }
    assert Walk(g, w') && w'[0] in roots && w'[|w'| - 1] == m && forall x :: x in w' ==> x in names + {m};
  }

  lemma TracedNext(system: set<Package>, roots: set<Package>, ms: seq<Package>, p: Package)
    requires Traced(system, roots, ms) && p.name !in NamesOf(ms) && Eligible(system, roots, NamesOf(ms), p)
    ensures Traced(system, roots, ms + [p])
  {
    hide Avoiding, Within, UsedBy;
    var g, names := UsedBy(system), NamesOf(ms);
    NamesAppend(ms, p);
    if p in roots {
      RootWithin(g, RootNames(roots), names, p.name);
    } else {
      var n :| n in UsedNames(p) && n in names;
      assert Within(g, RootNames(roots), names, n);
      UseIsEdge(system, p, n);
      WithinNext(g, RootNames(roots), names, n, p.name);
      WithinAvoids(g, RootNames(roots), names, p.name, n);
    }
    forall m | m in ms + [p] ensures CanMatch(system, roots, m) {
      assert m in ms || m == p;
    }
    forall n | n in names + {p.name} ensures Within(g, RootNames(roots), names + {p.name}, n) {
      if n in names {
        WithinMore(g, RootNames(roots), names, names + {p.name}, n);
      }
    }
  }

  lemma UseIsEdge(system: set<Package>, p: Package, n: string)
    requires p in system && n in UsedNames(p)
    ensures (n, p.name) in UsedBy(system)
  {
  }

  lemma RootWithin(g: Edges, roots: set<string>, names: set<string>, n: string)
    requires n in roots
    ensures Within(g, roots, names + {n}, n)
  {
    var w := [n];
    assert Walk(g, w) && w[0] in roots && w[|w| - 1] == n && forall x :: x in w ==> x in names + {n};
  }

  lemma WithinAvoids(g: Edges, roots: set<string>, names: set<string>, avoided: string, n: string)
    requires Within(g, roots, names, n) && avoided !in names
    ensures Avoiding(g, roots, avoided, n)
  {
  }

  lemma {:induction false} VisitTraces(system: seq<Package>, known: set<string>, roots: set<Package>, p: Package,
                                       ms: seq<Package>)
    requires p.name in known && NamesOf(system) <= known
    requires Traced(Elements(system), roots, ms) && Eligible(Elements(system), roots, NamesOf(ms), p)
    ensures Traced(Elements(system), roots, Visit(system, known, p, ms))
    decreases known - NamesOf(ms), 0
  {
    hide Traced;
    if p.name !in NamesOf(ms) {
      TracedNext(Elements(system), roots, ms, p);
      NamesAppend(ms, p);
      assert forall q :: q in UsersOf(system, p.name) ==> Eligible(Elements(system), roots, NamesOf(ms + [p]), q);
      VisitAllTraces(system, known, roots, UsersOf(system, p.name), ms + [p]);
    }
  }

  lemma {:induction false} VisitAllTraces(system: seq<Package>, known: set<string>, roots: set<Package>,
                                          list: seq<Package>, ms: seq<Package>)
    requires NamesOf(list) <= known && NamesOf(system) <= known
    requires Traced(Elements(system), roots, ms)
    requires forall p :: p in list ==> Eligible(Elements(system), roots, NamesOf(ms), p)
    ensures Traced(Elements(system), roots, VisitAll(system, known, list, ms))
    decreases known - NamesOf(ms), |list|
  {
    hide Traced;
    if list != [] {
      var next := Visit(system, known, list[0], ms);
      NamesOfPrefix(ms, next);
      VisitTraces(system, known, roots, list[0], ms);
      forall p | p in list[1..] ensures Eligible(Elements(system), roots, NamesOf(next), p) {
        EligibleMore(Elements(system), roots, NamesOf(ms), NamesOf(next), p);
      }
      VisitAllTraces(system, known, roots, list[1..], next);
    }
  }

  lemma EligibleMore(system: set<Package>, roots: set<Package>, names: set<string>, more: set<string>, p: Package)
    requires Eligible(system, roots, names, p) && names <= more
    ensures Eligible(system, roots, more, p)
  {
  }

  lemma WithinIsReached(g: Edges, roots: set<string>, names: set<string>, n: string)
    requires Within(g, roots, names, n)
    ensures ReachedFrom(g, roots, n)
  {
    var w :| Walk(g, w) && w[0] in roots && w[|w| - 1] == n && forall x :: x in w ==> x in names;
    assert Reaches(g, w[0], n);
  }

  /** The matches are, by name and without duplicates, the closure of the roots; each of them can be matched. */
  lemma MatchesAreClosure(roots: seq<Package>, system: seq<Package>)
    ensures DistinctPackages(Matches(roots, system))
    ensures IsClosure(UsedBy(Elements(system)), NamesOf(roots), NamesOf(Matches(roots, system)))
    ensures forall m :: m in Matches(roots, system) ==> CanMatch(Elements(system), Elements(roots), m)
  {
    hide Within, CanMatch, UsedBy;
    var g, ms := UsedBy(Elements(system)), Matches(roots, system);
    assert NamesOf([]) == {} && RootNames(Elements(roots)) == NamesOf(roots);
    VisitAllCloses(system, Known(roots, system), roots, []);
    VisitAllTraces(system, Known(roots, system), Elements(roots), roots, []);
    forall n | n in NamesOf(ms) ensures ReachedFrom(g, NamesOf(roots), n) {
      WithinIsReached(g, NamesOf(roots), NamesOf(ms), n);
    }
  }

  /** Resolve the reverse dependencies of all roots with one shared task. */
  method ResolveAll(roots: seq<Package>, system: seq<Package>) returns (matches: seq<Package>)
    ensures matches == Matches(roots, system)
    ensures DistinctPackages(matches)
    ensures IsClosure(UsedBy(Elements(system)), NamesOf(roots), NamesOf(matches))
    ensures forall m :: m in matches ==> m in roots || m in system
  {
    hide IsRdeps, IsClosure, UsedBy, Avoiding;
    ghost var known := Known(roots, system);
    var task := new ResolveRdependsTask();
    assert NamesOf([]) == {} && roots[0..] == roots;
    for i := 0 to |roots|
      invariant task.resolved == NamesOf(task.matches) && NamesOf(roots[i..]) <= known
      invariant Matches(roots, system) == VisitAll(system, known, roots[i..], task.matches)
    {
      NextInList(roots, i);
      // ResolveRuntime rebuilds the map for every root.
      task.BuildRdeps(system);
      task.RecursiveResolveRdep(roots[i], system, known);
      assert roots[i..][1..] == roots[i + 1..];
    }
    matches := task.matches;
    MatchesAreClosure(roots, system);
  }

  // ---------- an order in which a given package is matched ----------

  /** A walk can be cut down to one without repeats, inside the same names. */
  lemma {:induction false} SimpleWalk(g: Edges, w: seq<string>) returns (s: seq<string>)
    requires Walk(g, w)
    ensures Walk(g, s) && NoRepeats(s) && s[0] == w[0] && s[|s| - 1] == w[|w| - 1] && forall x :: x in s ==> x in w
    decreases |w|
  {
    if NoRepeats(w) {
      s := w;
    } else {
      var i, j :| 0 <= i < j < |w| && w[i] == w[j];
      var cut := w[..i] + w[j..];
      forall k | 0 <= k < |cut| - 1 ensures (cut[k], cut[k + 1]) in g {
        if k < i {
          assert (w[k], w[k + 1]) in g && cut[k] == w[k] && cut[k + 1] == w[k + 1];
        } else {
          assert (w[k + j - i], w[k + j - i + 1]) in g;
        }
      }
      s := SimpleWalk(g, cut);
    }
  }

  /** A package for each edge of the walk. */
  ghost predicate Carries(system: set<Package>, w: seq<string>, es: seq<Package>) {
    && |w| == |es| + 1
    && forall i :: 0 <= i < |es| ==> es[i] in system && w[i] in UsedNames(es[i]) && es[i].name == w[i + 1]
  }

  lemma {:induction false} CarriedWalk(system: set<Package>, w: seq<string>) returns (es: seq<Package>)
    requires Walk(UsedBy(system), w)
    ensures Carries(system, w, es)
    decreases |w|
  {
    if |w| == 1 {
      es := [];
    } else {
      var n := |w| - 1;
      forall i | 0 <= i < |w[..n]| - 1 ensures (w[..n][i], w[..n][i + 1]) in UsedBy(system) {
        assert (w[i], w[i + 1]) in UsedBy(system);
      }
      var init := CarriedWalk(system, w[..n]);
      assert (w[n - 1], w[n]) in UsedBy(system);
      var p :| p in system && w[n - 1] in UsedNames(p) && p.name == w[n];
      es := init + [p];
      forall i | 0 <= i < |es| ensures es[i] in system && w[i] in UsedNames(es[i]) && es[i].name == w[i + 1] {
        if i < n - 1 {
          assert init[i] in system && w[..n][i] in UsedNames(init[i]) && init[i].name == w[..n][i + 1];
        }
      }
    }
  }

  lemma {:induction false} SkipResolved(system: seq<Package>, known: set<string>, a: seq<Package>, b: seq<Package>,
                                        ms: seq<Package>)
    requires NamesOf(a + b) <= known && NamesOf(system) <= known && NamesOf(b) <= known && NamesOf(a) <= NamesOf(ms)
    ensures VisitAll(system, known, a + b, ms) == VisitAll(system, known, b, ms)
  {
    if a == [] {
      assert a + b == b;
    } else {
      assert (a + b)[1..] == a[1..] + b;
      assert a[0] in a && forall p :: p in a[1..] ==> p in a;
      assert forall p :: p in a[1..] + b ==> p in a + b;
      SkipResolved(system, known, a[1..], b, ms);
    }
  }

  lemma UsersSplit(before: seq<Package>, t: Package, after: seq<Package>, n: string)
    requires n in UsedNames(t)
    ensures Entries(t, n) != [] && Entries(t, n)[0] == t
    ensures UsersOf(before + [t] + after, n) == UsersOf(before, n) + (Entries(t, n) + UsersOf(after, n))
  {
    hide UsersOf;
    assert t in Entries(t, n);
    assert Entries(t, n)[0] in Entries(t, n);
    UsersConcat(before + [t], after, n);
    UsersAppend(before, t, n);
  }

  lemma VisitFirst(system: seq<Package>, known: set<string>, list: seq<Package>, ms: seq<Package>)
    requires list != [] && NamesOf(list) <= known && NamesOf(system) <= known && list[0].name in known
    ensures Visit(system, known, list[0], ms) <= VisitAll(system, known, list, ms)
  {
  }

  lemma UsersKnown(system: seq<Package>, known: set<string>, n: string)
    requires NamesOf(system) <= known
    ensures NamesOf(UsersOf(system, n)) <= known
  {
  }

  /** The list of users starts with resolved ones, and then with t: so what t finds is found. */
  lemma FirstUnresolved(system: seq<Package>, known: set<string>, before: seq<Package>, t: Package,
                        after: seq<Package>, n: string, ms: seq<Package>)
    requires system == before + [t] + after && NamesOf(system) <= known
    requires NamesOf(before) <= NamesOf(ms) && n in UsedNames(t)
    ensures t.name in known && NamesOf(UsersOf(system, n)) <= known
    ensures Visit(system, known, t, ms) <= VisitAll(system, known, UsersOf(system, n), ms)
  {
    hide Visit, VisitAll;
    var a, b := UsersOf(before, n), Entries(t, n) + UsersOf(after, n);
    UsersSplit(before, t, after, n);
    UsersKnown(system, known, n);
    UsersKnown(before, NamesOf(before), n);
    assert UsersOf(system, n) == a + b && b[0] == t;
    NamesConcat(a, b);
    assert t in system;
    hide UsersOf, Entries, NamesOf;
    SkipResolved(system, known, a, b, ms);
    VisitFirst(system, known, b, ms);
  }

  lemma NamesConcat(a: seq<Package>, b: seq<Package>)
    ensures NamesOf(a + b) == NamesOf(a) + NamesOf(b)
  {
    assert forall p :: p in a + b <==> p in a || p in b;
  }

  ghost function WalkNames(w: seq<string>): set<string> {
    set x | x in w
  }

  /** The search follows the walk whose packages come first in the system, and ends at m. */
  lemma {:induction false} Follow(system: seq<Package>, known: set<string>, w: seq<string>, es: seq<Package>,
                                  m: Package, rest: seq<Package>, i: nat, ms: seq<Package>)
    requires system == es + [m] + rest && NamesOf(system) <= known
    requires Carries(Elements(system), w, es) && NoRepeats(w) && m.name !in w && w[|w| - 1] in UsedNames(m)
    requires i < |w| && NamesOf(ms) == WalkNames(w[..i + 1]) && m in system
    ensures NamesOf(UsersOf(system, w[i])) <= known && m in VisitAll(system, known, UsersOf(system, w[i]), ms)
    decreases |w| - i
  {
    hide Visit, VisitAll, UsersOf, NamesOf, Carries, NoRepeats, UsedNames;
    PastNames(Elements(system), w, es, i);
    if i == |es| {
      assert es[..i] == es;
      FirstUnresolved(system, known, es[..i], m, rest, w[i], ms);
      VisitUnresolved(system, known, m, ms);
    } else {
      var e := es[i];
      assert system == es[..i] + [e] + (es[i + 1..] + [m] + rest);
      FirstUnresolved(system, known, es[..i], e, es[i + 1..] + [m] + rest, w[i], ms);
      VisitUnresolved(system, known, e, ms);
      Follow(system, known, w, es, m, rest, i + 1, ms + [e]);
    }
  }

  /** The packages of the walk so far are resolved, the next one is not. */
  lemma PastNames(system: set<Package>, w: seq<string>, es: seq<Package>, i: nat)
    requires Carries(system, w, es) && NoRepeats(w) && i < |w|
    ensures |w| == |es| + 1 && NamesOf(es[..i]) <= WalkNames(w[..i + 1])
    ensures i < |es| ==> w[i] in UsedNames(es[i])
    ensures i < |es| ==> es[i].name == w[i + 1] && w[i + 1] !in WalkNames(w[..i + 1])
    ensures i < |es| ==> WalkNames(w[..i + 2]) == WalkNames(w[..i + 1]) + {w[i + 1]}
  {
    forall p | p in es[..i] ensures p.name in WalkNames(w[..i + 1]) {
      var k :| 0 <= k < i && es[..i][k] == p;
      assert p.name == w[k + 1] && w[..i + 1][k + 1] == w[k + 1];
    }
    if i < |es| {
      assert w[..i + 2] == w[..i + 1] + [w[i + 1]];
    }
  }

  lemma VisitUnresolved(system: seq<Package>, known: set<string>, p: Package, ms: seq<Package>)
    requires p.name in known && NamesOf(system) <= known && p.name !in NamesOf(ms)
    ensures NamesOf(ms + [p]) == NamesOf(ms) + {p.name} && NamesOf(UsersOf(system, p.name)) <= known
    ensures Visit(system, known, p, ms) == VisitAll(system, known, UsersOf(system, p.name), ms + [p])
    ensures p in Visit(system, known, p, ms)
  {
    NamesAppend(ms, p);
    assert p in ms + [p];
  }

  /** A list of exactly the packages of the set, each once. */
  ghost predicate Lists(ps: seq<Package>, all: set<Package>) {
    Elements(ps) == all && NoRepeats(ps)
  }

  lemma {:induction false} SomeList(all: set<Package>) returns (ps: seq<Package>)
    ensures Lists(ps, all)
    decreases all
  {
    if all == {} {
      ps := [];
    } else {
      var p :| p in all;
      var rest := SomeList(all - {p});
      ps := rest + [p];
      assert forall q :: q in ps <==> q in rest || q == p;
      assert forall i :: 0 <= i < |rest| ==> rest[i] in Elements(rest);
      assert p !in Elements(rest);
      assert Elements(ps) == Elements(rest) + {p};
    }
  }

  lemma ListFirst(first: seq<Package>, all: set<Package>) returns (rest: seq<Package>)
    requires Elements(first) <= all && NoRepeats(first)
    ensures Lists(first + rest, all)
  {
    rest := SomeList(all - Elements(first));
    var ps := first + rest;
    assert forall q :: q in ps <==> q in first || q in rest;
    assert forall i :: 0 <= i < |rest| ==> rest[i] in Elements(rest);
    assert forall i :: 0 <= i < |first| ==> first[i] in Elements(first);
    assert Elements(ps) == Elements(first) + Elements(rest);
    forall i, j | 0 <= i < j < |ps| ensures ps[i] != ps[j] {
      if |first| <= i {
        assert rest[i - |first|] != rest[j - |first|];
      }
    }
  }

  lemma FirstRootFound(roots: seq<Package>, system: seq<Package>)
    requires roots != []
    ensures roots[0].name in Known(roots, system)
    ensures Visit(system, Known(roots, system), roots[0], []) <= Matches(roots, system)
  {
    assert roots[0] in roots;
  }

  /** Every package that can be matched is matched in some order of the roots and of the system. */
  lemma MatchedInSomeOrder(system: set<Package>, roots: set<Package>, m: Package)
    returns (sys: seq<Package>, rs: seq<Package>)
    requires CanMatch(system, roots, m)
    ensures Lists(sys, system) && Lists(rs, roots) && m in Matches(rs, sys)
  {
    if m in roots {
      sys := SomeList(system);
      var rest := ListFirst([m], roots);
      rs := [m] + rest;
      FirstRootFound(rs, sys);
      assert m in [] + [m] && [] + [m] <= Visit(sys, Known(rs, sys), m, []);
    } else {
      var g := UsedBy(system);
      var n :| n in UsedNames(m) && Avoiding(g, RootNames(roots), m.name, n);
      var w0 :| Walk(g, w0) && w0[0] in RootNames(roots) && w0[|w0| - 1] == n && m.name !in w0;
      var w := SimpleWalk(g, w0);
      var es := CarriedWalk(system, w);
      var r :| r in roots && r.name == w[0];
      sys, rs := OrderAlong(system, roots, w, es, m, r);
    }
  }

  lemma OrderAlong(system: set<Package>, roots: set<Package>, w: seq<string>, es: seq<Package>, m: Package, r: Package)
    returns (sys: seq<Package>, rs: seq<Package>)
    requires Carries(system, w, es) && NoRepeats(w) && m.name !in w && w[|w| - 1] in UsedNames(m)
    requires m in system && r in roots && r.name == w[0]
    ensures Lists(sys, system) && Lists(rs, roots) && m in Matches(rs, sys)
  {
    var first := es + [m];
    forall i, j | 0 <= i < j < |first| ensures first[i] != first[j] {
      if j < |es| {
        assert w[i + 1] != w[j + 1];
      } else {
        assert w[i + 1] in w;
      }
    }
    forall p | p in first ensures p in system {
      if p in es {
        var i :| 0 <= i < |es| && es[i] == p;
      }
    }
    var rest := ListFirst(first, system);
    sys := first + rest;
    var others := ListFirst([r], roots);
    rs := [r] + others;
    var known := Known(rs, sys);
    FirstRootFound(rs, sys);
    NamesAppend([], r);
    assert [] + [r] == [r] && w[..1] == [w[0]];
    assert NamesOf([]) == {};
    Follow(sys, known, w, es, m, rest, 0, [r]);
    assert Visit(sys, known, r, []) == VisitAll(sys, known, UsersOf(sys, r.name), [r]);
  }

  // ---------- what is left after the removal ----------

  ghost predicate Dangling(system: seq<Package>, matches: seq<Package>) {
    exists p, n :: p in system && p !in matches && n in AtomNames(p.deps) && n in NamesOf(matches)
  }

  /** The package requires a name of the closure of the roots. */
  ghost predicate RequiresReached(system: set<Package>, roots: set<Package>, p: Package) {
    p in system && exists n :: n in AtomNames(p.deps) && ReachedFrom(UsedBy(system), RootNames(roots), n)
  }

  /** A package that requires a name of the closure has another version that can be matched in its place. */
  ghost predicate TwinCanStay(system: set<Package>, roots: set<Package>) {
    exists p, m :: RequiresReached(system, roots, p) && m != p && m.name == p.name && CanMatch(system, roots, m)
  }

  predicate SameName(p: Package, q: Package) {
    p != q && p.name == q.name
  }

  /** A package that requires a name of the closure cannot be matched, or two versions of a name both require one. */
  ghost predicate TwinMustStay(system: set<Package>, roots: set<Package>) {
    || (exists p :: RequiresReached(system, roots, p) && !CanMatch(system, roots, p))
    || (exists p, q :: RequiresReached(system, roots, p) && RequiresReached(system, roots, q) && SameName(p, q))
  }

  lemma ReachedIsMatched(roots: seq<Package>, system: seq<Package>, n: string)
    ensures n in NamesOf(Matches(roots, system)) <==>
              ReachedFrom(UsedBy(Elements(system)), RootNames(Elements(roots)), n)
  {
    hide UsedBy, CanMatch, Matches;
    var g := UsedBy(Elements(system));
    MatchesAreClosure(roots, system);
    assert RootNames(Elements(roots)) == NamesOf(roots);
    if ReachedFrom(g, NamesOf(roots), n) {
      var r :| r in NamesOf(roots) && Reaches(g, r, n);
      var w :| Walk(g, w) && w[0] == r && w[|w| - 1] == n;
      WalkStaysInside(g, NamesOf(Matches(roots, system)), w);
    }
  }

  lemma StaysAndDangles(roots: seq<Package>, system: seq<Package>, p: Package)
    requires RequiresReached(Elements(system), Elements(roots), p) && p !in Matches(roots, system)
    ensures Dangling(system, Matches(roots, system))
  {
    hide UsedBy, ReachedFrom;
    var n :| n in AtomNames(p.deps) && ReachedFrom(UsedBy(Elements(system)), RootNames(Elements(roots)), n);
    ReachedIsMatched(roots, system, n);
  }

  /** In an order in which something dangles, a twin was matched in the place of the dangling package. */
  lemma DanglingHasTwin(roots: seq<Package>, system: seq<Package>)
    requires Dangling(system, Matches(roots, system))
    ensures TwinCanStay(Elements(system), Elements(roots))
  {
    hide CanMatch, ReachedFrom;
    var ms := Matches(roots, system);
    MatchesAreClosure(roots, system);
    var p, n :| p in system && p !in ms && n in AtomNames(p.deps) && n in NamesOf(ms);
    ReachedIsMatched(roots, system, n);
    UseIsEdge(Elements(system), p, n);
    assert p.name in NamesOf(ms);
    var m :| m in ms && m.name == p.name;
    assert RequiresReached(Elements(system), Elements(roots), p);
  }

  /** Some order of the roots and of the installed packages leaves a require of a removed name if and only if
      another version can be matched in the place of a package that requires one. */
  lemma DanglesInSomeOrder(system: set<Package>, roots: set<Package>)
    ensures (exists sys, rs :: Lists(sys, system) && Lists(rs, roots) && Dangling(sys, Matches(rs, sys)))
       <==> TwinCanStay(system, roots)
  {
    hide CanMatch, RequiresReached, Dangling;
    if exists sys, rs :: Lists(sys, system) && Lists(rs, roots) && Dangling(sys, Matches(rs, sys)) {
      var sys, rs :| Lists(sys, system) && Lists(rs, roots) && Dangling(sys, Matches(rs, sys));
      DanglingHasTwin(rs, sys);
    }
    if TwinCanStay(system, roots) {
      var p, m :| RequiresReached(system, roots, p) && m != p && m.name == p.name && CanMatch(system, roots, m);
      var sys, rs := MatchedInSomeOrder(system, roots, m);
      MatchedOnce(rs, sys, m, p);
      StaysAndDangles(rs, sys, p);
    }
  }

  lemma MatchedOnce(roots: seq<Package>, system: seq<Package>, m: Package, p: Package)
    requires m in Matches(roots, system) && m.name == p.name && m != p
    ensures p !in Matches(roots, system)
  {
    MatchesAreClosure(roots, system);
  }

  /** Every order does, if such a package cannot be matched itself, or if two versions require removed names. */
  lemma DanglesInEveryOrder(roots: seq<Package>, system: seq<Package>)
    requires TwinMustStay(Elements(system), Elements(roots))
    ensures Dangling(system, Matches(roots, system))
  {
    hide CanMatch, RequiresReached, Dangling;
    var all, rs := Elements(system), Elements(roots);
    MatchesAreClosure(roots, system);
    if p :| RequiresReached(all, rs, p) && !CanMatch(all, rs, p) {
      StaysAndDangles(roots, system, p);
    } else {
      var p, q :| RequiresReached(all, rs, p) && RequiresReached(all, rs, q) && p != q && p.name == q.name;
      if p in Matches(roots, system) {
        MatchedOnce(roots, system, p, q);
        StaysAndDangles(roots, system, q);
      } else {
        StaysAndDangles(roots, system, p);
      }
    }
  }

  /** Two installed versions of p that both require x: removing x always leaves one of them. */
  lemma TwinExample()
    ensures var x, p1, p2 := Package("x", "1", [], [], []), Package("p", "1", [Atom("x", "")], [], []),
                             Package("p", "2", [Atom("x", "")], [], []);
      forall system :: Elements(system) == {x, p1, p2} ==> Dangling(system, Matches([x], system))
  {
    var x, p1, p2 := Package("x", "1", [], [], []), Package("p", "1", [Atom("x", "")], [], []),
                     Package("p", "2", [Atom("x", "")], [], []);
    forall system | Elements(system) == {x, p1, p2} ensures Dangling(system, Matches([x], system)) {
      var g := UsedBy({x, p1, p2});
      assert x in [x] && "x" in RootNames(Elements([x]));
      ReachesSelf(g, "x");
      assert ReachedFrom(g, RootNames(Elements([x])), "x");
      assert Atom("x", "") in p1.deps && Atom("x", "") in p2.deps;
      assert RequiresReached({x, p1, p2}, Elements([x]), p1) && RequiresReached({x, p1, p2}, Elements([x]), p2);
      DanglesInEveryOrder([x], system);
    }
  }

  /** With two installed versions, of which one requires x and the other only provides it, the order decides. */
  lemma OrderExample()
    ensures var x, p1, p2 := Package("x", "1", [], [], []), Package("p", "1", [Atom("x", "")], [], []),
                             Package("p", "2", [], [], [Atom("x", "")]);
      !Dangling([x, p1, p2], Matches([x], [x, p1, p2])) && Dangling([x, p2, p1], Matches([x], [x, p2, p1]))
  {
    var x, p1, p2 := Package("x", "1", [], [], []), Package("p", "1", [Atom("x", "")], [], []),
                     Package("p", "2", [], [], [Atom("x", "")]);
    assert Atom("x", "") in p1.deps && Atom("x", "") in p2.provs;
    assert AtomNames(p1.deps) == {"x"} && UsedNames(p1) == {"x"} == UsedNames(p2);
    hide Matches, Dangling;
    FirstTwinMatches(x, p1, p2);
    FirstTwinMatches(x, p2, p1);
    OnlyLeft([x, p1, p2], Matches([x], [x, p1, p2]), p2);
    StillRequires([x, p2, p1], Matches([x], [x, p2, p1]), x, p1);
  }

  lemma OnlyLeft(system: seq<Package>, matches: seq<Package>, p: Package)
    requires p.deps == [] && forall q :: q in system ==> q == p || q in matches
    ensures !Dangling(system, matches)
  {
  }

  lemma StillRequires(system: seq<Package>, matches: seq<Package>, x: Package, p: Package)
    requires p in system && p !in matches && x in matches && x.name in AtomNames(p.deps)
    ensures Dangling(system, matches)
  {
    assert x.name in NamesOf(matches);
  }

  lemma FirstTwinMatches(x: Package, a: Package, b: Package)
    requires x.name in UsedNames(a) && a.name == b.name != x.name && a != b
    ensures x in Matches([x], [x, a, b]) && a in Matches([x], [x, a, b]) && b !in Matches([x], [x, a, b])
  {
    hide Visit, VisitAll, UsersOf;
    var system, known := [x, a, b], Known([x], [x, a, b]);
    assert system == [x] + [a] + [b] && [] + [x] == [x] && a in system;
    FirstRootFound([x], system);
    VisitUnresolved(system, known, x, []);
    FirstUnresolved(system, known, [x], a, [b], x.name, [x]);
    VisitUnresolved(system, known, a, [x]);
    MatchedOnce([x], system, a, b);
  }

  ghost predicate IsWorld(system: seq<Package>, db: Db) {
    forall p :: p in system <==> p.ToAtom() in db.packages && db.packages[p.ToAtom()] == p
  }

  method World(db: Db) returns (system: seq<Package>)
    requires db.Valid()
    ensures IsWorld(system, db)
  {
    system := [];
    var rest := db.packages.Keys;
    while rest != {}
      invariant rest <= db.packages.Keys
      invariant forall p :: p in system <==>
                  p.ToAtom() in db.packages && p.ToAtom() !in rest && db.packages[p.ToAtom()] == p
    {
      var fp :| fp in rest;
      system := system + [db.packages[fp]];
      rest := rest - {fp};
    }
  }

  function Removals(matches: seq<Package>): (ops: seq<Operation>)
    ensures |ops| == |matches| && forall i :: 0 <= i < |ops| ==>
              ops[i] == Operation(RemovePackage, Artifact(matches[i], []))
  {
    seq(|matches|, i requires 0 <= i < |matches| => Operation(RemovePackage, Artifact(matches[i], [])))
  }

  /** Nothing that is left requires something that was removed. */
  ghost predicate NoneDangles(db: Db, removed: set<string>) {
    forall fp :: fp in db.packages ==> AtomNames(db.packages[fp].deps) !! removed
  }

  lemma RemovalsDrop(db: Db, system: seq<Package>, matches: seq<Package>, fp: Atom)
    requires db.Valid() && IsWorld(system, db) && forall m :: m in matches ==> m in system
    ensures Drops(Removals(matches), fp) <==> fp in db.packages && db.packages[fp] in matches
    ensures !Adds(Removals(matches), fp)
  {
    var ops := Removals(matches);
    if Drops(ops, fp) {
      var i :| 0 <= i < |ops| && ops[i].art.pkg.ToAtom() == fp;
      assert matches[i] in matches;
    }
    if fp in db.packages && db.packages[fp] in matches {
      var i :| 0 <= i < |matches| && matches[i] == db.packages[fp];
      assert ops[i] in ops;
    }
  }

  lemma RemovalsApply(db: Db, system: seq<Package>, matches: seq<Package>)
    requires db.Valid() && IsWorld(system, db) && DistinctPackages(matches) && forall m :: m in matches ==> m in system
    ensures Applicable(db, Removals(matches)) && RemoveThenAdd(Removals(matches))
    ensures forall op :: op in Removals(matches) ==> op.Removes()
  {
    var ops := Removals(matches);
    forall op | op in ops ensures op.Removes() && op.art.pkg.ToAtom() in db.packages {
      var i :| 0 <= i < |ops| && ops[i] == op;
      assert matches[i] in matches;
    }
  }

  lemma RemovalsRun(db: Db, system: seq<Package>, matches: seq<Package>, force: bool)
    requires db.Valid() && IsWorld(system, db) && DistinctPackages(matches) && forall m :: m in matches ==> m in system
    ensures db.Run(Removals(matches), force).1 == Succeeded
    ensures var db' := db.Run(Removals(matches), force).0;
      && db'.Valid()
      && (forall fp :: fp in db'.packages <==> fp in db.packages && db.packages[fp] !in matches)
      && (forall fp :: fp in db'.packages ==> db'.packages[fp] == db.packages[fp] && db'.files[fp] == db.files[fp])
  {
    hide Removals, Db.Run, Applicable, RemoveThenAdd, IsWorld, DistinctPackages, Drops, Adds;
    var ops := Removals(matches);
    RemovalsApply(db, system, matches);
    assert ops[..|ops|] == ops;
    PrefixRuns(db, ops, |ops|, force);
    var db' := db.Run(ops, force).0;
    forall fp
      ensures fp in db'.packages <==> fp in db.packages && db.packages[fp] !in matches
      ensures fp in db'.packages ==> db'.packages[fp] == db.packages[fp] && db'.files[fp] == db.files[fp]
    {
      assert AfterAt(db, ops, db', fp);
      RemovalsDrop(db, system, matches, fp);
    }
  }

  ghost function Installed(db: Db): set<Package> {
    set fp | fp in db.packages :: db.packages[fp]
  }

  /** Uninstall with dependencies, of packages that are installed: it removes one package of every name of the
      closure of the roots.  It leaves a require of a removed name only if a twin can stay, and always if one must;
      with one installed version per name it leaves none. */
  method Uninstall(m: Installer.ArtifactsManager, roots: seq<Package>, force: bool)
    returns (status: RunStatus, ghost removed: set<string>)
    requires m.database.Valid()
    requires forall p :: p in roots ==> p.ToAtom() in m.database.packages && m.database.packages[p.ToAtom()] == p
    modifies m
    ensures status == Succeeded && m.database.Valid()
    ensures IsClosure(UsedBy(Installed(old(m.database))), NamesOf(roots), removed)
    ensures NamesOf(roots) <= removed && ClosedSet(Installed(old(m.database)), removed)
    ensures forall t :: NamesOf(roots) <= t && ClosedSet(Installed(old(m.database)), t) ==> removed <= t
    ensures m.database.packages.Keys <= old(m.database.packages.Keys)
    ensures forall fp :: fp in m.database.packages ==>
              && m.database.packages[fp] == old(m.database.packages[fp])
              && m.database.files[fp] == old(m.database.files[fp])
    ensures forall fp :: fp in old(m.database.packages) && fp.name !in removed ==> fp in m.database.packages
    ensures forall n :: n in removed ==>
              exists fp :: fp in old(m.database.packages) && fp !in m.database.packages && fp.name == n
    ensures !TwinCanStay(Installed(old(m.database)), Elements(roots)) ==> NoneDangles(m.database, removed)
    ensures TwinMustStay(Installed(old(m.database)), Elements(roots)) ==> !NoneDangles(m.database, removed)
    ensures old(m.database.OneVersion()) ==>
              (forall fp :: fp in m.database.packages ==> fp.name !in removed) && NoneDangles(m.database, removed)
  {
    hide IsClosure, UsedBy, TwinCanStay, TwinMustStay, Dangling, NoneDangles, Db.Run;
    ghost var db := m.database;
    var system := World(m.database);
    WorldIsInstalled(system, db);
    var matches := ResolveAll(roots, system);
    removed := NamesOf(matches);
    MatchesInstalled(db, system, roots, matches);
    RemovalsRun(db, system, matches, force);
    status := m.ExecuteOperations(Removals(matches), force);
    ClosureMeaning(Installed(db), NamesOf(roots), removed);
    RemovalsLeave(db, system, NamesOf(roots), matches, m.database);
    DanglesInDatabase(db, system, matches, m.database);
    if Dangling(system, matches) {
      DanglingHasTwin(roots, system);
    }
    if TwinMustStay(Elements(system), Elements(roots)) {
      DanglesInEveryOrder(roots, system);
    }
  }

  lemma WorldIsInstalled(system: seq<Package>, db: Db)
    requires db.Valid() && IsWorld(system, db)
    ensures Elements(system) == Installed(db)
  {
  }

  lemma MatchesInstalled(db: Db, system: seq<Package>, roots: seq<Package>, matches: seq<Package>)
    requires IsWorld(system, db) && forall m :: m in matches ==> m in roots || m in system
    requires forall p :: p in roots ==> p.ToAtom() in db.packages && db.packages[p.ToAtom()] == p
    ensures forall m :: m in matches ==> m in system
  {
  }

  lemma DanglesInDatabase(db: Db, system: seq<Package>, matches: seq<Package>, db': Db)
    requires db.Valid() && IsWorld(system, db)
    requires forall fp :: fp in db'.packages <==> fp in db.packages && db.packages[fp] !in matches
    requires forall fp :: fp in db'.packages ==> db'.packages[fp] == db.packages[fp]
    ensures NoneDangles(db', NamesOf(matches)) <==> !Dangling(system, matches)
  {
    if !NoneDangles(db', NamesOf(matches)) {
      var fp :| fp in db'.packages && !(AtomNames(db'.packages[fp].deps) !! NamesOf(matches));
      var n :| n in AtomNames(db'.packages[fp].deps) && n in NamesOf(matches);
      assert db.packages[fp] in system;
    }
    if Dangling(system, matches) {
      var p, n :| p in system && p !in matches && n in AtomNames(p.deps) && n in NamesOf(matches);
      assert p.ToAtom() in db'.packages;
    }
  }

  /** With one installed version per name, the installed package of a matched name is the matched one. */
  lemma MatchedIsRemoved(db: Db, system: seq<Package>, matches: seq<Package>, fp: Atom)
    requires db.Valid() && IsWorld(system, db) && db.OneVersion() && forall m :: m in matches ==> m in system
    requires fp in db.packages && fp.name in NamesOf(matches)
    ensures db.packages[fp] in matches
  {
    var m :| m in matches && m.name == fp.name;
    assert m in system && m.ToAtom() in db.packages;
  }

  lemma RemovalsLeave(db: Db, system: seq<Package>, roots: set<string>, matches: seq<Package>, db': Db)
    requires db.Valid() && IsWorld(system, db) && forall m :: m in matches ==> m in system
    requires IsClosure(UsedBy(Elements(system)), roots, NamesOf(matches))
    requires forall fp :: fp in db'.packages <==> fp in db.packages && db.packages[fp] !in matches
    requires forall fp :: fp in db'.packages ==> db'.packages[fp] == db.packages[fp]
    ensures forall fp :: fp in db.packages && fp.name !in NamesOf(matches) ==> fp in db'.packages
    ensures forall n :: n in NamesOf(matches) ==> exists fp :: fp in db.packages && fp !in db'.packages && fp.name == n
    ensures db.OneVersion() ==>
              (forall fp :: fp in db'.packages ==> fp.name !in NamesOf(matches)) && NoneDangles(db', NamesOf(matches))
  {
    forall n | n in NamesOf(matches) ensures exists fp :: fp in db.packages && fp !in db'.packages && fp.name == n {
      var m :| m in matches && m.name == n;
      assert m.ToAtom() in db.packages && m.ToAtom() !in db'.packages;
    }
    if db.OneVersion() {
      forall fp | fp in db'.packages
        ensures fp.name !in NamesOf(matches) && AtomNames(db'.packages[fp].deps) !! NamesOf(matches)
      {
        var p := db.packages[fp];
        assert p in system;
        if p.name in NamesOf(matches) {
          MatchedIsRemoved(db, system, matches, fp);
        }
        forall n | n in AtomNames(p.deps) ensures n !in NamesOf(matches) {
          assert (n, p.name) in UsedBy(Elements(system));
        }
      }
    }
  }
}
