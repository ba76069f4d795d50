/** The install of a package that replaces an installed one, with which it conflicts. */
module ReplacementExample {
  import opened Wrappers
  import opened Packages
  import opened Resolver
  import VersionSort
  import opened ExampleVersions

  /** A package with no requires is the first fit of a request for it alone, if no user in the conflict map rejects it,
      and each of its conflicts is with what is not installed, with a version that it admits, or with a package of whose
      name it provides something. */
  lemma ReplacementFits(env: Env, v: View, a: Artifact)
    requires v.candidates == map[] && a.pkg.deps == []
    requires a.pkg.name in env.conflicts ==>
               forall u :: u in env.conflicts[a.pkg.name] ==> Admit(env.g, u, a.pkg) == Admitted
    requires forall c :: c in a.pkg.conflicts && c.name in env.system && env.system[c.name] != [] ==>
               || Admit(env.g, a.pkg, env.system[c.name][0]) == Admitted
               || exists q :: q in a.pkg.provs && q.name == env.system[c.name][0].name
    ensures FirstFit(env, v, [a.pkg.name], [a], 0) && NotBanned([a], BannedBefore(env, [a], 0)) == [a]
  {
    hide Admit;
    ConflictMeaning(env, a.pkg);
    hide IsInConflict;
    assert [a][..0] == [] && BannedBefore(env, [a], 0) == {};
  }

  // Installed is x 1.  Requested is y 1, which conflicts with every x and provides x 1.
  const X := Package("x", "1", [], [], [])
  const Y := Package("y", "1", [], [Atom("x", ">=0")], [Atom("x", "1")])
  const Universe: set<string> := {"y"}
  const G := Gentoo((a: Atom) => true, (r: Atom, t: Atom) => Admitted)
  const E := Env(G, false, true, map["x" := [X]], map[], {Y}, (r: Atom) => Some([]),
                 (s: seq<Artifact>) => VersionSort.SortByVersion(Lib, s), (s: seq<Artifact>) => RankArtifacts(s))
  const Requested := map["y" := [Artifact(Y, [])]]

  lemma Start(v: View)
    requires v == View(Requested, map[], map[], true, map[], map[], map[], map[])
    ensures Valid(E, Universe, v)
  {
    hide VersionSort.SortByVersion, VersionSort.SortsWith, VersionSort.PoolRereads, VersionSort.LatestFirst, Rank;
    Sorts(E);
    VersionSort.LibrarySorts(E, Lib);
  }

  lemma Rejects()
    ensures Admit(G, Y, X) == Rejected
  {
    var r := Atom("x", ">=0");
    assert Targets(r, X) == [X.ToAtom()];
    assert CheckTargets(G, r, [X.ToAtom()], Rejected) == Admitted;
    assert CheckSelectors(G, [r], X, Rejected) == Admitted;
  }

  /** y is installed: what it conflicts with it replaces. */
  method Run() returns (s: Solver, ok: bool, arts: seq<Artifact>)
    ensures s.env == E && Admit(G, Y, X) == Rejected
    ensures ok && s.candidates == map["y" := [Artifact(Y, [])]] && Artifact(Y, []) in arts
  {
    hide Valid, CandidateOk, IsInConflict, FirstFit, Closed, Unobstructed, NoErrors, SortingKeeps, AllOffer, FirstStays,
      Admit, BannedBefore, NotBanned, ProvidesAdded;
    s := new Solver(E, Requested, map[]);
    ghost var v := s.V();
    Start(v);
    Rejects();
    var a := Artifact(Y, []);
    assert Atom("x", "1") in Y.provs;
    ReplacementFits(E, v, a);
    assert Requested.Keys == {"y"} && Sorted(E, Requested, "y") == Some([a]);
    ok, arts := s.Install(false, Universe);
    assert Chose(E, v, s.V(), "y", [a], 0);
  }
}
