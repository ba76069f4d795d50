/** A run of the upgrade solver that stores an older version of an installed package without the deep option. */
module DowngradeExample {
  import opened Wrappers
  import opened Packages
  import opened Resolver
  import UpgradeSelector
  import UpgradePlan
  import VersionSort
  import opened ExampleVersions

  // Installed are a 1, b 2 and c, which conflicts with b 3.  Offered are a 2, which requires the new package x, x
  // itself, which requires any b but version 2, and b in versions 3 and 1.
  const A1 := Package("a", "1", [], [], [])
  const A2 := Package("a", "2", [Atom("x", "2")], [], [])
  const B1 := Package("b", "1", [], [], [])
  const B2 := Package("b", "2", [], [], [])
  const B3 := Package("b", "3", [], [], [])
  const C := Package("c", "2", [], [Atom("b", "3")], [])
  const X := Package("x", "2", [Atom("b", "!2")], [], [])
  const Universe: set<string> := {"a", "b", "x"}

  predicate Selects(r: Atom, t: Atom) {
    if r.version == "!2" then t.version != "2" else r.version == t.version
  }

  const G := Gentoo((a: Atom) => true, (r: Atom, t: Atom) => if Selects(r, t) then Admitted else Rejected)
  const E := Env(G, false, true, map["a" := [A1], "b" := [B2], "c" := [C]], map["b" := [C]], {A2, B1, B3, X},
                 (r: Atom) => if r.name == "x" then Some([Artifact(X, [])]) else None,
                 (s: seq<Artifact>) => VersionSort.SortByVersion(Lib, s), (s: seq<Artifact>) => RankArtifacts(s))
  const U := UpgradeSelector.UpgradeEnv(false, map[], (p: Package) => 0, Leq)
  const Offered := map["a" := [Artifact(A2, [])], "b" := [Artifact(B1, []), Artifact(B3, [])]]

  lemma Ordered()
    ensures U.Valid(E)
  {
    hide VersionSort.SortByVersion, VersionSort.SortsWith, VersionSort.PoolRereads, VersionSort.LatestFirst, Rank;
    Sorts(E);
    forall s | OneNamed(E, s) && E.sortVersions(s).Some? ensures U.Descending(E.sortVersions(s).value) {
      VersionSort.SortDescends(E, Lib, U.leq, s);
    }
  }

  lemma Start(v: View)
    requires v == View(Offered, map[], map[], true, map[], map[], map[], map[])
    ensures Valid(E, Universe, v) && Settled(v, Done(v, []))
  {
    hide IsInConflict, AdmittedByAll, RequiresMet, Offers, Rank, VersionSort.SortsWith, VersionSort.PoolRereads,
      VersionSort.LatestFirst, VersionSort.SortByVersion;
    Sorts(E);
    VersionSort.LibrarySorts(E, Lib);
  }

  lemma OneSelector(r: Atom, a: Package, wanted: Verdict)
    requires wanted != Failed
    ensures r.name == a.name ==> CheckSelectors(G, [r], a, wanted) == G.verdict(r, a.ToAtom())
    ensures r.name != a.name && a.provs == [] ==> CheckSelectors(G, [r], a, wanted) == wanted
  {
    var targets := Targets(r, a);
    assert [r][1..] == [];
    if r.name == a.name {
      assert targets == [a.ToAtom()] && targets[1..] == [];
      assert CheckTargets(G, r, targets, wanted) == G.verdict(r, a.ToAtom());
    }
  }

  lemma Verdicts()
    ensures Admit(G, X, B2) == Rejected && Admit(G, C, B3) == Rejected && Admit(G, C, B1) == Admitted
  {
    OneSelector(Atom("b", "!2"), B2, Admitted);
    OneSelector(Atom("b", "3"), B3, Rejected);
    OneSelector(Atom("b", "3"), B1, Rejected);
  }

  lemma PoolAdmits(p: Package, q: Package)
    requires p in E.pool && q in E.pool
    ensures Admit(G, p, q) == Admitted
  {
    if p == A2 {
      OneSelector(Atom("x", "2"), q, Admitted);
    } else if p == X {
      OneSelector(Atom("b", "!2"), q, Admitted);
    }
  }

  lemma Conflicts(p: Package)
    requires p in E.pool
    ensures IsInConflict(E, p) <==> p == B3
  {
    hide Admit;
    Verdicts();
    assert E.conflicts["b"] == [C] && [C][0] == C;
    if p == B3 {
      assert RejectedByOne(E, [C], B3);
    } else {
      forall i | 0 <= i < |[C]| ensures [C][i] == C {
      }
    }
  }

  lemma RequiresObtainable(p: Package, r: Atom)
    requires p in E.pool && r in p.deps
    ensures Obtainable(E, Offered, p, r)
  {
    hide Admit;
    Verdicts();
    assert (p == A2 && r == Atom("x", "2")) || (p == X && r == Atom("b", "!2"));
  }

  lemma OfferedClean(n: string)
    requires n in Offered
    ensures HasClean(E, Offered[n])
  {
    hide Clean, CleanResult;
    CleanOnes();
    var a := Artifact(if n == "a" then A2 else B1, []);
    assert a in Offered[n] && Clean(E, a.pkg);
  }

  lemma SearchClean(r: Atom)
    ensures E.search(r).Some? ==> CleanResult(E, E.search(r).value)
  {
    CleanOnes();
  }

  lemma OnlyConflictsObstruct()
    ensures Unobstructed(E, Offered)
  {
    hide Admit, IsInConflict, Rank, Obtainable, HasClean, CleanResult, Clean, VersionSort.SortsWith,
      VersionSort.PoolRereads, VersionSort.LatestFirst, VersionSort.SortByVersion, SortingKeeps, SortingSucceeds;
    Sorts(E);
    VersionSort.LibrarySorts(E, Lib);
    forall p, q | p in E.pool && q in E.pool ensures Admit(E.g, p, q) == Admitted {
      PoolAdmits(p, q);
    }
    forall p, r | p in E.pool && r in p.deps ensures Obtainable(E, Offered, p, r) {
      RequiresObtainable(p, r);
    }
    forall n | n in Offered ensures HasClean(E, Offered[n]) {
      OfferedClean(n);
    }
    forall r: Atom | E.search(r).Some? ensures CleanResult(E, E.search(r).value) {
      SearchClean(r);
    }
  }

  lemma CleanOnes()
    ensures Clean(E, A2) && Clean(E, B1) && Clean(E, X)
    ensures CleanResult(E, [Artifact(X, [])])
  {
    hide IsInConflict;
    Conflicts(A2);
    Conflicts(B1);
    Conflicts(X);
    assert Artifact(X, []) in [Artifact(X, [])];
  }

  /** The new a is welcome; of b the new version is in conflict, and the old one is old. */
  lemma UpgradeWanted()
    ensures UpgradeSelector.Checkable(E, U, Offered, ["b", "a"]) && UpgradeSelector.WelcomeName(E, U, "a")
  {
    hide IsInConflict;
    Conflicts(A2);
    Conflicts(B3);
    assert UpgradeSelector.PassedName(E, U, "b");
  }

  /** Nothing provides anything here. */
  lemma NothingProvided(v: View, p: Package, n: string)
    requires ProvidersListed(E, v.provided)
    ensures !ProvidedFor(E, v.provided, p, n)
  {
    hide Admit;
    forall q ensures !Provider(E, n, q) {
      if q in E.pool || (q.name in E.system && q in E.system[q.name]) {
        assert q.provs == [];
      }
    }
  }

  /** With a chosen, the new x is chosen for it: whether it was selected for the upgrade or resolved, a 2 is what is
      offered, and nothing but x meets its require. */
  lemma NewIsChosen(v: View)
    requires Valid(E, Universe, v) && UpgradeSelector.HeadsChecked(E, U, v) && Settled(v, Done(v, []))
    requires "a" in v.candidates
    ensures "x" in v.candidates
  {
    hide Valid, Admit, ProvidersListed, UpgradeSelector.MetForUpgrade, ProvidedFor;
    ValidProviders(E, Universe, v);
    NothingProvided(v, A2, "x");
    assert A2.deps[0] == Atom("x", "2") && Atom("x", "2") in A2.deps;
    if "a" in v.accepted {
      AcceptedFacts(E, Universe, v, "a");
      assert Satisfied(E, v, Done(v, v.stacks["a"]), A2, Atom("x", "2"));
    } else {
      SelectedA(v);
    }
  }

  lemma SelectedA(v: View)
    requires Valid(E, Universe, v) && UpgradeSelector.HeadsChecked(E, U, v)
    requires "a" in v.candidates && "a" !in v.accepted && !ProvidedFor(E, v.provided, A2, "x")
    ensures "x" in v.candidates
  {
    hide Valid, Admit, ProvidedFor, IsInConflict, UpgradeSelector.SatisfiedForUpgrade, UpgradeSelector.OlderHead;
    CandidatesOffered(E, Universe, v);
    assert UpgradeSelector.HeadChecked(E, U, v, "a");
    var a :| a in v.candidates["a"] && UpgradeSelector.Upgradable(E, U, v, A1, a.pkg);
    assert a.pkg == A2;
    XIsMet(v);
  }

  lemma XIsMet(v: View)
    requires UpgradeSelector.SatisfiedForUpgrade(E, v, Done(v, []), A2, A2.deps[0])
    requires !ProvidedFor(E, v.provided, A2, "x")
    ensures "x" in v.candidates
  {
    hide Admit, ProvidedFor;
  }

  /** Only installed packages are selected, so x is resolved. */
  lemma ResolvedX(v: View)
    requires UpgradeSelector.HeadsChecked(E, U, v) && "x" in v.candidates
    ensures "x" in v.accepted
  {
    hide UpgradeSelector.Upgradable;
    assert "x" !in v.accepted ==> UpgradeSelector.HeadChecked(E, U, v, "x");
  }

  /** Neither version of b is good for the upgrade, so b is resolved too. */
  lemma ResolvedB(v: View)
    requires Valid(E, Universe, v) && UpgradeSelector.HeadsChecked(E, U, v) && "b" in v.candidates
    ensures "b" in v.accepted
  {
    hide Valid, IsInConflict, UpgradeSelector.MetForUpgrade;
    CandidatesOffered(E, Universe, v);
    Conflicts(B3);
    forall a | a in v.candidates["b"] ensures !UpgradeSelector.Upgradable(E, U, v, B2, a.pkg) {
      assert a.pkg.name == "b" && a.pkg in E.pool;
    }
    assert !UpgradeSelector.HeadChecked(E, U, v, "b");
  }

  lemma AcceptedX(v: View)
    requires Valid(E, Universe, v) && "x" in v.accepted
    ensures v.accepted["x"].pkg == X && RequiresMet(E, v, "x") && ProvidersListed(E, v.provided)
  {
    hide Valid, IsInConflict, ProvidersListed, RequiresMet;
    AcceptedFacts(E, Universe, v, "x");
  }

  /** With x chosen, b is chosen for it. */
  lemma RequiredIsChosen(v: View)
    requires Valid(E, Universe, v) && "x" in v.accepted && Settled(v, Done(v, []))
    ensures "b" in v.candidates
  {
    hide Admit, Valid, ProvidersListed, ProvidedFor;
    AcceptedX(v);
    NothingProvided(v, X, "b");
    Verdicts();
    assert Atom("b", "!2") in X.deps;
    assert Satisfied(E, v, Done(v, v.stacks["x"]), X, Atom("b", "!2"));
    assert Done(v, []) == v.candidates.Keys;
  }

  /** The head of a resolved b is in no conflict, so it is version 1. */
  lemma OlderIsHead(v: View)
    requires Valid(E, Universe, v) && "b" in v.accepted
    ensures UpgradeSelector.OlderHead(E, U, v, "b")
    ensures "b" in v.candidates && v.candidates["b"] != [] && v.candidates["b"][0].pkg == B1
  {
    hide Valid, IsInConflict, ProvidersListed, RequiresMet;
    AcceptedFacts(E, Universe, v, "b");
    Conflicts(v.candidates["b"][0].pkg);
  }

  lemma Downgraded(v: View)
    requires Valid(E, Universe, v) && UpgradeSelector.HeadsChecked(E, U, v)
    requires UpgradeSelector.Smooth(E, U, v, ["b", "a"]) && UpgradeSelector.WelcomeName(E, U, "a")
    ensures UpgradeSelector.OlderHead(E, U, v, "b")
    ensures UpgradePlan.NonemptyLists(v.candidates) && UpgradePlan.UpdatesSelf(v.candidates, E.system, "b")
  {
    hide Valid, Settled, Done, Unobstructed, UpgradeSelector.WelcomeName, UpgradeSelector.HeadsChecked;
    assert "a" in ["b", "a"];
    NewIsChosen(v);
    ResolvedX(v);
    RequiredIsChosen(v);
    ResolvedB(v);
    OlderIsHead(v);
    ValidFacts(E, Universe, v);
  }

  /** The upgrade of the packages that have a newer version, b and a, in the order of their requires.  Of b version 3 is
      in conflict and version 1 older.  For the new a the upgrade resolves x, and for x, with the installed b rejected
      and other versions available, b: version 1 is stored, and the partition updates b 2 to it. */
  method Run() returns (s: Solver, ok: bool)
    ensures s.env == E && E.hasRepos && !U.deep && U.Valid(E) && ok
    ensures UpgradeSelector.OlderHead(E, U, s.V(), "b")
    ensures UpgradePlan.NonemptyLists(s.candidates) && UpgradePlan.UpdatesSelf(s.candidates, E.system, "b")
  {
    hide Valid, Settled, Done, Unobstructed, UpgradeSelector.HeadsChecked, UpgradeSelector.OlderHead,
      UpgradePlan.UpdatesSelf, UpgradeSelector.UpgradeEnv.Valid, UpgradeSelector.Smooth, UpgradeSelector.WelcomeName,
      UpgradeSelector.Checkable;
    s := new Solver(E, Offered, map[]);
    Ordered();
    Start(s.V());
    OnlyConflictsObstruct();
    UpgradeWanted();
    ok := UpgradeSelector.CheckCandidates(s, U, ["b", "a"], Universe);
    Downgraded(s.V());
  }
}
