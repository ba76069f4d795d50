/** When every order of the roots and of the installed packages leaves a require of a removed name. */
module UninstallOrders {
  import opened Wrappers
  import opened Packages
  import opened Database
  import opened Digraph
  import opened Uninstall

  /** Every package that requires a name of the closure is matched. */
  ghost predicate UsersMatched(roots: seq<Package>, system: seq<Package>) {
    forall p :: RequiresReached(Elements(system), Elements(roots), p) ==> p in Matches(roots, system)
  }

  /** Nothing dangles exactly if all packages that require a removed name are matched together. */
  lemma NothingDanglesExactly(roots: seq<Package>, system: seq<Package>)
    ensures !Dangling(system, Matches(roots, system)) <==> UsersMatched(roots, system)
  {
    hide Matches, UsedBy, ReachedFrom;
    forall p | RequiresReached(Elements(system), Elements(roots), p) && p !in Matches(roots, system)
      ensures Dangling(system, Matches(roots, system))
    {
      StaysAndDangles(roots, system, p);
    }
    if Dangling(system, Matches(roots, system)) {
      var ms := Matches(roots, system);
      var p, n :| p in system && p !in ms && n in AtomNames(p.deps) && n in NamesOf(ms);
      ReachedIsMatched(roots, system, n);
      assert RequiresReached(Elements(system), Elements(roots), p);
    }
  }

  ghost predicate DanglesAlways(system: set<Package>, roots: set<Package>) {
    forall sys, rs :: Lists(sys, system) && Lists(rs, roots) ==> Dangling(sys, Matches(rs, sys))
  }

  /** Every order leaves such a require exactly if no order matches all packages that require a removed name. */
  lemma DanglesAlwaysExactly(system: set<Package>, roots: set<Package>)
    ensures DanglesAlways(system, roots) <==>
            !exists sys, rs :: Lists(sys, system) && Lists(rs, roots) && UsersMatched(rs, sys)
  {
    hide Dangling, UsersMatched, Lists, Matches;
    forall sys, rs | Lists(sys, system) && Lists(rs, roots)
      ensures Dangling(sys, Matches(rs, sys)) <==> !UsersMatched(rs, sys)
    {
      NothingDanglesExactly(rs, sys);
    }
  }

  // ---------- at most one package with another version ----------

  /** Another version can be matched in the place of p. */
  ghost predicate HasTwin(system: set<Package>, roots: set<Package>, p: Package) {
    exists m :: SameName(p, m) && CanMatch(system, roots, m)
  }

  /** Of the packages that require a name of the closure, at most one has a twin. */
  ghost predicate OneTwin(system: set<Package>, roots: set<Package>) {
    forall p, q :: Twinned(system, roots, p) && Twinned(system, roots, q) ==> p == q
  }

  ghost predicate Twinned(system: set<Package>, roots: set<Package>, p: Package) {
    RequiresReached(system, roots, p) && HasTwin(system, roots, p)
  }

  /** A package that requires a name of the closure is matched, unless a twin is. */
  lemma MatchedOrTwin(roots: seq<Package>, system: seq<Package>, p: Package)
    requires RequiresReached(Elements(system), Elements(roots), p)
    requires !HasTwin(Elements(system), Elements(roots), p)
    ensures p in Matches(roots, system)
  {
    hide CanMatch, ReachedFrom, UsedBy, Matches;
    var ms := Matches(roots, system);
    MatchesAreClosure(roots, system);
    var n :| n in AtomNames(p.deps) && ReachedFrom(UsedBy(Elements(system)), RootNames(Elements(roots)), n);
    ReachedIsMatched(roots, system, n);
    UseIsEdge(Elements(system), p, n);
    assert p.name in NamesOf(ms);
    var m :| m in ms && m.name == p.name;
    assert m == p || SameName(p, m);
  }

  /** With at most one such package, every order leaves a require exactly if one that requires a removed name cannot be
      matched. */
  lemma OneTwinExactly(system: set<Package>, roots: set<Package>)
    requires OneTwin(system, roots)
    ensures DanglesAlways(system, roots) <==>
            exists p :: RequiresReached(system, roots, p) && !CanMatch(system, roots, p)
  {
    hide CanMatch, RequiresReached, Dangling, Lists, Matches, HasTwin;
    if p :| RequiresReached(system, roots, p) && !CanMatch(system, roots, p) {
      forall sys, rs | Lists(sys, system) && Lists(rs, roots) ensures Dangling(sys, Matches(rs, sys)) {
        ListsElements(sys, system);
        ListsElements(rs, roots);
        DanglesInEveryOrder(rs, sys);
      }
    } else {
      var sys, rs := OrderForOne(system, roots);
      ListsElements(sys, system);
      ListsElements(rs, roots);
      forall p | RequiresReached(system, roots, p) ensures p in Matches(rs, sys) {
        if !Twinned(system, roots, p) {
          MatchedOrTwin(rs, sys, p);
        }
      }
      NothingDanglesExactly(rs, sys);
    }
  }

  lemma ListsElements(ps: seq<Package>, all: set<Package>)
    requires Lists(ps, all)
    ensures Elements(ps) == all
  {
  }

  /** An order in which the one package with a twin, if there is one, is matched. */
  lemma OrderForOne(system: set<Package>, roots: set<Package>) returns (sys: seq<Package>, rs: seq<Package>)
    requires OneTwin(system, roots)
    requires forall p :: RequiresReached(system, roots, p) ==> CanMatch(system, roots, p)
    ensures Lists(sys, system) && Lists(rs, roots)
    ensures forall p :: Twinned(system, roots, p) ==> p in Matches(rs, sys)
  {
    hide CanMatch, RequiresReached, Lists, Matches, HasTwin;
    if p :| Twinned(system, roots, p) {
      sys, rs := MatchedInSomeOrder(system, roots, p);
    } else {
      sys := SomeList(system);
      rs := SomeList(roots);
    }
  }

  // ---------- how the search goes on ----------

  /** From position `from` on, each match was visited when those before it were resolved. */
  ghost predicate VisitedInTurn(system: seq<Package>, known: set<string>, from: nat, found: seq<Package>)
    requires NamesOf(system) <= known
  {
    forall i :: from <= i < |found| ==>
      found[i].name in known && Visit(system, known, found[i], found[..i]) <= found
  }

  lemma InTurnMore(system: seq<Package>, known: set<string>, from: nat, next: seq<Package>, found: seq<Package>)
    requires NamesOf(system) <= known && next <= found && from <= |next|
    requires VisitedInTurn(system, known, from, next) && VisitedInTurn(system, known, |next|, found)
    ensures VisitedInTurn(system, known, from, found)
  {
    hide Visit;
    forall i | from <= i < |found|
      ensures found[i].name in known && Visit(system, known, found[i], found[..i]) <= found
    {
      if i < |next| {
        assert next[i] == found[i] && next[..i] == found[..i];
      }
    }
  }

  lemma {:induction false} VisitInTurn(system: seq<Package>, known: set<string>, p: Package, ms: seq<Package>)
    requires p.name in known && NamesOf(system) <= known
    ensures VisitedInTurn(system, known, |ms|, Visit(system, known, p, ms))
    decreases known - NamesOf(ms), 0
  {
    if p.name !in NamesOf(ms) {
      NamesAppend(ms, p);
      VisitAllInTurn(system, known, UsersOf(system, p.name), ms + [p]);
      FirstInTurn(system, known, p, ms, Visit(system, known, p, ms));
    }
  }

  lemma FirstInTurn(system: seq<Package>, known: set<string>, p: Package, ms: seq<Package>, found: seq<Package>)
    requires p.name in known && NamesOf(system) <= known && found == Visit(system, known, p, ms) && ms + [p] <= found
    requires VisitedInTurn(system, known, |ms| + 1, found)
    ensures VisitedInTurn(system, known, |ms|, found)
  {
    hide Visit;
    assert found[..|ms|] == ms && found[|ms|] == p;
  }

  lemma {:induction false} VisitAllInTurn(system: seq<Package>, known: set<string>, list: seq<Package>,
                                          ms: seq<Package>)
    requires NamesOf(list) <= known && NamesOf(system) <= known
    ensures VisitedInTurn(system, known, |ms|, VisitAll(system, known, list, ms))
    decreases known - NamesOf(ms), |list|
  {
    if list != [] {
      var next := Visit(system, known, list[0], ms);
      NamesOfPrefix(ms, next);
      VisitInTurn(system, known, list[0], ms);
      VisitAllInTurn(system, known, list[1..], next);
      InTurnMore(system, known, |ms|, next, VisitAll(system, known, list, ms));
    }
  }

  /** The match at i uses the name of one from position `from` on, before it. */
  ghost predicate UsesEarlier(found: seq<Package>, from: nat, i: nat)
    requires i < |found|
  {
    exists j :: from <= j < i && found[j].name in UsedNames(found[i])
  }

  ghost predicate AllUseEarlier(found: seq<Package>, from: nat, list: seq<Package>) {
    forall i :: from <= i < |found| ==> found[i] in list || UsesEarlier(found, from, i)
  }

  lemma {:induction false} VisitUses(system: seq<Package>, known: set<string>, p: Package, ms: seq<Package>)
    requires p.name in known && NamesOf(system) <= known
    ensures AllUseEarlier(Visit(system, known, p, ms), |ms|, [p])
    decreases known - NamesOf(ms), 0
  {
    if p.name !in NamesOf(ms) {
      NamesAppend(ms, p);
      VisitAllUses(system, known, UsersOf(system, p.name), ms + [p]);
      UsersUseFirst(system, p, ms, Visit(system, known, p, ms));
    }
  }

  lemma UsersUseFirst(system: seq<Package>, p: Package, ms: seq<Package>, found: seq<Package>)
    requires ms + [p] <= found && AllUseEarlier(found, |ms| + 1, UsersOf(system, p.name))
    ensures AllUseEarlier(found, |ms|, [p])
  {
    assert found[|ms|] == p;
    forall i | |ms| <= i < |found| ensures found[i] in [p] || UsesEarlier(found, |ms|, i) {
      if i > |ms| {
        if found[i] in UsersOf(system, p.name) {
          assert found[|ms|].name in UsedNames(found[i]);
        } else {
          assert UsesEarlier(found, |ms| + 1, i);
        }
      }
    }
  }

  lemma {:induction false} VisitAllUses(system: seq<Package>, known: set<string>, list: seq<Package>, ms: seq<Package>)
    requires NamesOf(list) <= known && NamesOf(system) <= known
    ensures AllUseEarlier(VisitAll(system, known, list, ms), |ms|, list)
    decreases known - NamesOf(ms), |list|
  {
    if list != [] {
      var next := Visit(system, known, list[0], ms);
      NamesOfPrefix(ms, next);
      VisitUses(system, known, list[0], ms);
      VisitAllUses(system, known, list[1..], next);
      UseEarlierMore(ms, next, VisitAll(system, known, list, ms), list);
    }
  }

  lemma UseEarlierMore(ms: seq<Package>, next: seq<Package>, found: seq<Package>, list: seq<Package>)
    requires list != [] && ms <= next <= found
    requires AllUseEarlier(next, |ms|, [list[0]]) && AllUseEarlier(found, |next|, list[1..])
    ensures AllUseEarlier(found, |ms|, list)
  {
    assert list == [list[0]] + list[1..];
    forall i | |ms| <= i < |found| ensures found[i] in list || UsesEarlier(found, |ms|, i) {
      if i < |next| {
        assert found[i] == next[i];
        if next[i] !in [list[0]] {
          assert UsesEarlier(next, |ms|, i);
        }
      } else if found[i] !in list[1..] {
        assert UsesEarlier(found, |next|, i);
      }
    }
  }

  /** Each match was visited in its turn, and uses the name of an earlier one or is a root. */
  lemma MatchesInTurn(roots: seq<Package>, system: seq<Package>)
    ensures NamesOf(system) <= Known(roots, system)
    ensures VisitedInTurn(system, Known(roots, system), 0, Matches(roots, system))
    ensures AllUseEarlier(Matches(roots, system), 0, roots)
  {
    assert NamesOf([]) == {};
    VisitAllInTurn(system, Known(roots, system), roots, []);
    VisitAllUses(system, Known(roots, system), roots, []);
  }

  // ---------- packages that can each be matched, but not together ----------

  // Both a and b require r.  Of n, version 1 provides a and version 2 requires b; of k, version 1 provides b and
  // version 2 requires a.
  const R := Package("r", "1", [], [], [])
  const A := Package("a", "1", [Atom("r", "")], [], [])
  const B := Package("b", "1", [Atom("r", "")], [], [])
  const N1 := Package("n", "1", [], [], [Atom("a", "")])
  const N2 := Package("n", "2", [Atom("b", "")], [], [])
  const K1 := Package("k", "1", [], [], [Atom("b", "")])
  const K2 := Package("k", "2", [Atom("a", "")], [], [])
  const Crossed: set<Package> := {R, A, B, N1, N2, K1, K2}

  lemma Uses()
    ensures UsedNames(R) == {} && UsedNames(A) == {"r"} == UsedNames(B)
    ensures UsedNames(N1) == {"a"} == UsedNames(K2) && UsedNames(N2) == {"b"} == UsedNames(K1)
  {
    assert AtomNames([Atom("r", "")]) == {"r"} && AtomNames([Atom("a", "")]) == {"a"};
    assert AtomNames([Atom("b", "")]) == {"b"} && AtomNames([]) == {};
  }

  /** y, which uses r alone, comes after all that the visit of x finds. */
  lemma FoundBefore(ms: seq<Package>, f: seq<Package>, x: Package, y: Package, ix: nat, iy: nat)
    requires DistinctPackages(ms) && f <= ms && AllUseEarlier(ms, 0, [R]) && AllUseEarlier(f, ix, [x])
    requires ix < |f| && ix < iy < |ms| && ms[iy] == y && x != y && f[ix] == x && x != R && UsedNames(y) == {"r"}
    ensures |f| <= iy
  {
    assert !UsesEarlier(ms, 0, 0) && ms[0] == R;
    forall i | ix < i < |f| ensures f[i] != y {
      if f[i] != x {
        assert UsesEarlier(f, ix, i);
        var j :| ix <= j < i && f[j].name in UsedNames(f[i]);
        assert f[j] == ms[j] && ms[j].name != ms[0].name;
      }
    }
  }

  /** So the package that uses y does not get the name that the one that uses x has taken. */
  lemma NameTaken(ms: seq<Package>, f: seq<Package>, y: Package, iy: nat, second: Package)
    requires DistinctPackages(ms) && f <= ms && AllUseEarlier(ms, 0, [R]) && |f| <= iy < |ms| && ms[iy] == y
    requires UsedNames(second) == {y.name} && second != R && second.name in NamesOf(f)
    requires forall p :: p in f && p.name == second.name ==> p != second
    ensures second !in ms
  {
    var im :| 0 <= im < |f| && f[im].name == second.name;
    forall s | 0 <= s < |ms| ensures ms[s] != second {
      if s < |f| {
        assert ms[s] == f[s] && f[s] in f;
      } else {
        assert ms[im] == f[im];
      }
    }
  }

  /** If x comes before y among the matches, the package that uses x takes the name that it shares with the one that
      uses y: x and y both use only r. */
  lemma TakesName(system: seq<Package>, x: Package, y: Package, first: Package, second: Package, ix: nat, iy: nat)
    requires Elements(system) == Crossed && ((x == A && y == B) || (x == B && y == A))
    requires UsedNames(first) == {x.name} && UsedNames(second) == {y.name} && SameName(first, second)
    requires first in Crossed && second != R
    requires ix < iy < |Matches([R], system)| && Matches([R], system)[ix] == x && Matches([R], system)[iy] == y
    ensures second !in Matches([R], system)
  {
    hide Matches, Visit, VisitAll, IsClosure, CanMatch, AllUseEarlier, DistinctPackages;
    Uses();
    var ms, known := Matches([R], system), Known([R], system);
    MatchesInTurn([R], system);
    MatchesAreClosure([R], system);
    var f := Visit(system, known, x, ms[..ix]);
    assert f <= ms && x.name in known;
    VisitCloses(system, known, x, ms[..ix]);
    VisitUses(system, known, x, ms[..ix]);
    BeforeIt(ms, ix);
    UseIsEdge(Elements(system), first, x.name);
    FirstIsThere(system, known, x, ms[..ix]);
    FoundBefore(ms, f, x, y, ix, iy);
    forall i | 0 <= i < |f| ensures f[i] != second {
      assert f[i] == ms[i];
      UsesFound(ms, f, y, iy, second, i);
    }
    NameTaken(ms, f, y, iy, second);
  }

  lemma BeforeIt(ms: seq<Package>, i: nat)
    requires DistinctPackages(ms) && i < |ms|
    ensures ms[i].name !in NamesOf(ms[..i])
  {
    forall p | p in ms[..i] ensures p.name != ms[i].name {
      var j :| 0 <= j < i && ms[..i][j] == p;
    }
  }

  lemma FirstIsThere(system: seq<Package>, known: set<string>, p: Package, ms: seq<Package>)
    requires p.name in known && NamesOf(system) <= known && p.name !in NamesOf(ms)
    ensures |Visit(system, known, p, ms)| > |ms| && Visit(system, known, p, ms)[|ms|] == p
  {
    NamesAppend(ms, p);
    assert (ms + [p])[|ms|] == p;
  }

  /** What is found before y does not use it. */
  lemma UsesFound(ms: seq<Package>, f: seq<Package>, y: Package, iy: nat, second: Package, i: nat)
    requires DistinctPackages(ms) && f <= ms && AllUseEarlier(ms, 0, [R]) && i < |f| <= iy < |ms| && ms[iy] == y
    requires UsedNames(second) == {y.name} && second != R
    ensures f[i] != second
  {
    assert f[i] == ms[i];
    if ms[i] != R {
      assert UsesEarlier(ms, 0, i);
      var j :| 0 <= j < i && ms[j].name in UsedNames(ms[i]);
      assert ms[j].name != ms[iy].name;
    }
  }

  /** x, which uses r, is the only package of its name, so it is matched. */
  lemma UserFound(system: seq<Package>, x: Package) returns (i: nat)
    requires Elements(system) == Crossed && (x == A || x == B)
    ensures i < |Matches([R], system)| && Matches([R], system)[i] == x
  {
    hide Matches, CanMatch, UsedBy, ReachedFrom;
    var ms := Matches([R], system);
    MatchesAreClosure([R], system);
    assert R in [R] && "r" in NamesOf(ms);
    Uses();
    UseIsEdge(Elements(system), x, "r");
    assert x.name in NamesOf(ms);
    i :| 0 <= i < |ms| && ms[i].name == x.name;
    OnlyOne(ms, system, i);
  }

  lemma OnlyOne(ms: seq<Package>, system: seq<Package>, i: nat)
    requires Elements(system) == Crossed && ms == Matches([R], system) && i < |ms|
    ensures ms[i] in Crossed
  {
    hide Matches, Avoiding;
    MatchesAreClosure([R], system);
    assert ms[i] in ms && CanMatch(Elements(system), Elements([R]), ms[i]);
  }

  /** Each of n 2 and k 2, which require removed names, can be matched, and no two versions of a name require one; but
      every order leaves one of them. */
  lemma CrossedExample(system: seq<Package>)
    requires Elements(system) == Crossed
    ensures !TwinMustStay(Crossed, {R})
    ensures Dangling(system, Matches([R], system))
  {
    hide Matches, CanMatch, TwinMustStay, RequiresReached;
    Uses();
    NoneMustStay();
    var ia := UserFound(system, A);
    var ib := UserFound(system, B);
    assert Elements([R]) == {R};
    TwoRequire();
    if ia < ib {
      TakesName(system, A, B, N1, N2, ia, ib);
      StaysAndDangles([R], system, N2);
    } else {
      assert A != B;
      TakesName(system, B, A, K1, K2, ib, ia);
      StaysAndDangles([R], system, K2);
    }
  }

  lemma Reached()
    ensures ReachedFrom(UsedBy(Crossed), {"r"}, "r")
    ensures ReachedFrom(UsedBy(Crossed), {"r"}, "a") && ReachedFrom(UsedBy(Crossed), {"r"}, "b")
  {
    Uses();
    var g := UsedBy(Crossed);
    UseIsEdge(Crossed, A, "r");
    UseIsEdge(Crossed, B, "r");
    ReachesSelf(g, "r");
    assert Walk(g, ["r", "a"]) && Walk(g, ["r", "b"]);
    assert Reaches(g, "r", "a") && Reaches(g, "r", "b");
  }

  lemma TwoRequire()
    ensures RequiresReached(Crossed, {R}, N2) && RequiresReached(Crossed, {R}, K2)
  {
    hide ReachedFrom;
    Reached();
    assert RootNames({R}) == {"r"};
    assert Atom("b", "") in N2.deps && Atom("a", "") in K2.deps;
    assert "b" in AtomNames(N2.deps) && "a" in AtomNames(K2.deps);
  }

  lemma NoneMustStay()
    ensures !TwinMustStay(Crossed, {R})
  {
    hide CanMatch, RequiresReached;
    forall p | RequiresReached(Crossed, {R}, p) ensures p in {A, B, N2, K2} && CanMatch(Crossed, {R}, p) {
      OnlyThese(p);
      EachCanMatch();
    }
    assert forall p, q :: p in {A, B, N2, K2} && q in {A, B, N2, K2} ==> !SameName(p, q);
  }

  lemma OnlyThese(p: Package)
    requires RequiresReached(Crossed, {R}, p)
    ensures p in {A, B, N2, K2}
  {
    hide ReachedFrom, UsedBy;
    assert AtomNames(R.deps) == {} && AtomNames(N1.deps) == {} && AtomNames(K1.deps) == {};
  }

  lemma EachCanMatch()
    ensures CanMatch(Crossed, {R}, A) && CanMatch(Crossed, {R}, B)
    ensures CanMatch(Crossed, {R}, N2) && CanMatch(Crossed, {R}, K2)
  {
    hide UsedBy;
    Uses();
    var g := UsedBy(Crossed);
    UseIsEdge(Crossed, A, "r");
    UseIsEdge(Crossed, B, "r");
    assert RootNames({R}) == {"r"};
    assert Walk(g, ["r"]) && Walk(g, ["r", "a"]) && Walk(g, ["r", "b"]);
    assert Avoiding(g, {"r"}, "a", "r") && Avoiding(g, {"r"}, "b", "r");
    assert Avoiding(g, {"r"}, "n", "b") && Avoiding(g, {"r"}, "k", "a");
  }
}
