/** A run of the install solver that records a rejected version as the head of a package. */
module SkippedHeadExample {
  import opened Wrappers
  import opened Packages
  import opened Resolver
  import VersionSort
  import opened ExampleVersions

  // The repositories offer n in versions 2 and 1, and c, which conflicts with n 2.  Nothing is installed.
  const N1 := Package("n", "1", [], [], [])
  const N2 := Package("n", "2", [], [], [])
  const C := Package("c", "1", [], [Atom("n", "2")], [])
  const Universe: set<string> := {"c", "n"}
  const G := Gentoo((a: Atom) => true, (r: Atom, t: Atom) => if r.version == t.version then Admitted else Rejected)
  const E := Env(G, false, true, map[], map[], {N1, N2, C}, (r: Atom) => None,
                 (s: seq<Artifact>) => VersionSort.SortByVersion(Lib, s), (s: seq<Artifact>) => RankArtifacts(s))
  const Offered := map["c" := [Artifact(C, [])], "n" := [Artifact(N2, []), Artifact(N1, [])]]

  lemma Start(v: View)
    requires v == View(Offered, map[], map[], true, map[], map[], map[], map[])
    ensures Valid(E, Universe, v)
  {
    hide VersionSort.SortByVersion, VersionSort.SortsWith, VersionSort.PoolRereads, VersionSort.LatestFirst, Rank;
    Sorts(E);
    VersionSort.LibrarySorts(E, Lib);
  }

  lemma NoConflict(p: Package)
    requires p == C || p == N1 || p == N2
    ensures !IsInConflict(E, p)
  {
    hide Admit;
  }

  lemma Verdicts()
    ensures Admit(G, C, N2) == Rejected && Admit(G, C, N1) == Admitted
  {
    AdmitMeaning(G, C, N1);
    AdmitMeaning(G, C, N2);
    var r := Atom("n", "2");
    assert Targets(r, N1) == [N1.ToAtom()] && Targets(r, N2) == [N2.ToAtom()];
    assert CheckTargets(G, r, [N2.ToAtom()], Rejected) == Admitted;
    assert CheckSelectors(G, [r], N2, Rejected) == Admitted;
  }

  lemma FirstC(v: View)
    requires v.candidates == map[]
    ensures FirstFit(E, v, ["c"], [Artifact(C, [])], 0)
  {
    NoConflict(C);
  }

  lemma FirstN(v: View)
    requires v.candidates == map["c" := [Artifact(C, [])]]
    ensures FirstFit(E, v, ["n"], [Artifact(N2, []), Artifact(N1, [])], 1)
    ensures BannedBefore(E, [Artifact(N2, []), Artifact(N1, [])], 1) == {}
  {
    hide Admit, IsInConflict;
    NoConflict(N1);
    NoConflict(N2);
    Verdicts();
    assert "c" in v.candidates && v.candidates["c"] != [] && Admit(E.g, v.candidates["c"][0].pkg, N2) == Rejected;
  }

  lemma Sorting()
    ensures Sorted(E, Offered, "c") == Some([Artifact(C, [])])
    ensures Sorted(E, Offered, "n") == Some([Artifact(N2, []), Artifact(N1, [])])
  {
    hide VersionSort.SortByVersion;
    TwoSorted(Artifact(N2, []), Artifact(N1, []));
  }

  lemma AfterC(v: View, v': View)
    requires v.candidates == map[] && v.available == Offered
    requires Chose(E, v, v', "c", [Artifact(C, [])], 0) && Resolves(E, Universe, v, v', [], "c", Resolved)
    ensures Valid(E, Universe, v') && v'.candidates == map["c" := [Artifact(C, [])]] && v'.available == Offered
  {
    hide Valid, Grows;
    var l := [Artifact(C, [])];
    assert l[..0] == [] && BannedBefore(E, l, 0) == {};
    assert NotBanned(l, {}) == l;
  }

  lemma AfterN(v: View, v': View)
    requires v.candidates == map["c" := [Artifact(C, [])]]
    requires Chose(E, v, v', "n", [Artifact(N2, []), Artifact(N1, [])], 1)
    requires BannedBefore(E, [Artifact(N2, []), Artifact(N1, [])], 1) == {}
    ensures "n" in v'.accepted && v'.accepted["n"].pkg == N1
    ensures v'.candidates == map["c" := [Artifact(C, [])], "n" := [Artifact(N2, []), Artifact(N1, [])]]
  {
    hide BannedBefore;
    var l := [Artifact(N2, []), Artifact(N1, [])];
    assert l[..1] == [l[0]] && [l[0]][..0] == [];
    assert NotBanned([l[0]], {}) == [l[0]];
    assert NotBanned(l, {}) == l;
  }

  /** After c the solver is asked for n: version 2 is rejected by the candidate c and skipped, version 1 is accepted,
      and version 2 heads the list that is recorded, the one that Install returns. */
  method Run() returns (s: Solver)
    ensures s.env == E && "c" in s.candidates && "n" in s.candidates && "n" in s.accepted
    ensures s.accepted["n"].pkg == N1 && s.candidates["n"] != [] && s.candidates["n"][0].pkg == N2
    ensures s.candidates["c"] != [] && Admit(G, s.candidates["c"][0].pkg, s.candidates["n"][0].pkg) == Rejected
  {
    hide Valid, Resolves, FirstFit, Admit, BannedBefore, Listed, Chose, Sorted, VersionSort.SortByVersion;
    s := new Solver(E, Offered, map[]);
    ghost var v0 := s.V();
    Start(v0);
    Sorting();
    FirstC(v0);
    assert [] + ["c"] == ["c"] && [] + ["n"] == ["n"];
    var r := s.ResolvePackage("c", [], Universe);
    ghost var v1 := s.V();
    AfterC(v0, v1);
    FirstN(v1);
    r := s.ResolvePackage("n", [], Universe);
    AfterN(v1, s.V());
    Verdicts();
  }
}
