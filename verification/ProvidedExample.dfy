/** The upgrade of a package whose new version requires what an installed package provides. */
module ProvidedExample {
  import opened Wrappers
  import opened Packages
  import opened Resolver
  import opened UpgradeSelector
  import VersionSort
  import opened ExampleVersions

  // Installed are b 1 and q 1, which provides n 1.  Offered is b 2, which requires n 1; the search for n finds nothing.
  const B1 := Package("b", "1", [], [], [])
  const B2 := Package("b", "2", [Atom("n", "1")], [], [])
  const Q1 := Package("q", "1", [], [], [Atom("n", "1")])
  const Universe: set<string> := {"b"}
  const G := Gentoo((a: Atom) => true, (r: Atom, t: Atom) => if r == t then Admitted else Rejected)
  const E := Env(G, false, true, map["b" := [B1], "q" := [Q1]], map[], {B2}, (r: Atom) => Some([]),
                 (s: seq<Artifact>) => VersionSort.SortByVersion(Lib, s), (s: seq<Artifact>) => RankArtifacts(s))
  const U := UpgradeEnv(false, map[], (p: Package) => 0, Leq)
  const New := Artifact(B2, [])
  const Offered := map["b" := [New]]
  const Provided := map["n" := [Q1]]

  lemma Ordered()
    ensures U.Valid(E)
  {
    hide VersionSort.SortByVersion, VersionSort.SortsWith, VersionSort.PoolRereads, VersionSort.LatestFirst, Rank;
    Sorts(E);
    forall s | OneNamed(E, s) && E.sortVersions(s).Some? ensures U.Descending(E.sortVersions(s).value) {
      VersionSort.SortDescends(E, Lib, U.leq, s);
    }
  }

  lemma Start(v: View)
    requires v == View(Offered, map[], Provided, true, map[], map[], map[], map[])
    ensures Valid(E, Universe, v)
  {
    hide VersionSort.SortByVersion, VersionSort.SortsWith, VersionSort.PoolRereads, VersionSort.LatestFirst, Rank;
    Sorts(E);
    VersionSort.LibrarySorts(E, Lib);
    assert Atom("n", "1") in Q1.provs;
  }

  lemma RequireProvided(v: View)
    requires v.provided == Provided
    ensures SettledForUpgrade(E, v, ["b"], B2, Atom("n", "1"))
  {
    var r := Atom("n", "1");
    assert Q1 in Provided["n"] && r in Q1.provs;
    assert Targets(r, AsPackage(r)) == [r];
    assert CheckTargets(G, r, [r], Admitted) == Admitted;
    assert CheckSelectors(G, [r], AsPackage(r), Admitted) == Admitted;
  }

  lemma Matches(v: View)
    requires v.available == Offered && v.candidates == map[] && v.provided == Provided
    ensures EndsAt(E, U, v, ["b"], B1, [New], 0, Match) && BannedNow(E, U, v, ["b"], B1, [New], 0) == {}
  {
    RequireProvided(v);
    hide Admit, ProvidedFor, SettledForUpgrade;
    ConflictMeaning(E, B2);
    hide IsInConflict;
    assert U.Greater(B2.version, B1.version);
    assert DepsDecided(E, v, ["b"], B2, DepsAdmitted);
    assert TreeDecided(E, v, ["b"], B2, Fits);
  }

  lemma OneRanked()
    ensures RankArtifacts([New]) == [New] && NotBanned([New], {}) == [New]
  {
    hide Rank, NotBanned;
    var ranked := RankArtifacts([New]);
    assert multiset(ranked) == multiset([New]);
    assert |ranked| == |multiset(ranked)| == 1 && ranked[0] in multiset(ranked);
    NotBannedAll([New]);
  }

  lemma Stored(v: View, v': View, ok: bool)
    requires v == View(Offered, map[], Provided, true, map[], map[], map[], map[])
    requires CheckRight(E, U, v, v', [], "b", ok)
    ensures ok && v'.candidates == map["b" := [New]]
  {
    hide EndsAt, BannedNow, PassedTo, NothingMissing, ProvidesAdded, RankArtifacts, NotBanned;
    OneRanked();
    Matches(v);
    assert SortedForUpgrade(E, Offered, "b") == Some([New]);
    assert [] + ["b"] == ["b"];
    assert Picked(Reordered(E, v, "b"), v', "b", [New]);
  }

  /** b 2 is stored for the upgrade. */
  method Run() returns (s: Solver, ok: bool)
    ensures s.env == E && ok && s.candidates == map["b" := [New]]
  {
    hide Valid, UpgradeEnv.Valid, NothingMissing, HeadsChecked, OlderHead, Unobstructed, SortingKeeps, HasCurrent,
      Checkable, AllListed, FirstPicked, CheckRight, Smooth, NewerBanned;
    s := new Solver(E, Offered, Provided);
    ghost var v := s.V();
    Start(v);
    Ordered();
    ok := CheckCandidates(s, U, ["b"], Universe);
    Stored(v, s.V(), ok);
  }
}
