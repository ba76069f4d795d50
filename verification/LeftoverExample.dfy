/** A run of the install solver that leaves a candidate over, with a require that nothing meets. */
module LeftoverExample {
  import opened Wrappers
  import opened Packages
  import opened Digraph
  import opened Resolver
  import VersionSort
  import opened ExampleVersions
  import Leftovers

  // Requested is p, which requires m and z; m requires p.  Installed is c, which conflicts with z.
  const P := Package("p", "1", [Atom("m", "1"), Atom("z", "1")], [], [])
  const M := Package("m", "1", [Atom("p", "1")], [], [])
  const Z := Package("z", "1", [], [], [])
  const C := Package("c", "1", [], [Atom("z", "1")], [])
  const Universe: set<string> := {"m", "p", "z"}
  const G := Gentoo((a: Atom) => true, (r: Atom, t: Atom) => if r.version == t.version then Admitted else Rejected)
  const E := Env(G, false, true, map["c" := [C]], map["z" := [C]], {P, M, Z}, (r: Atom) => Search(r),
                 (s: seq<Artifact>) => VersionSort.SortByVersion(Lib, s), (s: seq<Artifact>) => RankArtifacts(s))
  const Requested := map["p" := [Artifact(P, [])]]

  function Search(r: Atom): Option<seq<Artifact>> {
    if r.name == "m" then Some([Artifact(M, [])])
    else if r.name == "z" then Some([Artifact(Z, [])])
    else None
  }

  lemma Start(v: View)
    requires v == View(Requested, map[], map[], true, map[], map[], map[], map[])
    ensures Valid(E, Universe, v)
  {
    hide VersionSort.SortByVersion, VersionSort.SortsWith, VersionSort.PoolRereads, VersionSort.LatestFirst, Rank;
    Sorts(E);
    VersionSort.LibrarySorts(E, Lib);
  }

  lemma Conflicts(p: Package)
    requires p == P || p == M || p == Z
    ensures IsInConflict(E, p) <==> p == Z
  {
    AdmitMeaning(G, C, Z);
    var r := Atom("z", "1");
    assert Targets(r, Z) == [Z.ToAtom()];
    assert CheckTargets(G, r, [Z.ToAtom()], Rejected) == Admitted;
    assert CheckSelectors(G, [r], Z, Rejected) == Admitted;
    if p == Z {
      assert E.conflicts["z"] == [C] && [C][0] == C;
      assert RejectedByOne(E, [C], Z);
    }
  }

  /** At the start m is found at once for p, which is under analysis. */
  lemma StartsWithM(v: View)
    requires v == View(Requested, map[], map[], true, map[], map[], map[], map[])
    ensures StartsWell(E, v, ["p"], P)
    ensures Sorted(E, Requested, "p") == Some([Artifact(P, [])])
  {
    hide IsInConflict, VersionSort.SortByVersion;
    Conflicts(P);
    Conflicts(M);
    var stack := ["p"] + ["m"];
    assert stack[0] == "p" && "p" in stack;
    assert forall r :: r in M.deps ==> SettledNow(E, v, stack, M, r);
    assert FitsNow(E, v, stack, M);
  }

  lemma NothingProvided(v: View, p: Package, n: string)
    requires ProvidersListed(E, v.provided)
    ensures !ProvidedFor(E, v.provided, p, n)
  {
    hide Admit;
    forall q ensures !Provider(E, n, q) {
      if q in E.pool || (q.name in E.system && q in E.system[q.name]) {
        assert q.provs == [];
      }
    }
  }

  /** z is in conflict, so it is never chosen. */
  lemma ZIsNotChosen(v: View)
    requires Valid(E, Universe, v)
    ensures "z" !in v.accepted
  {
    hide Valid, IsInConflict, RequiresMet, ProvidersListed;
    Conflicts(Z);
    if "z" in v.accepted {
      AcceptedFacts(E, Universe, v, "z");
    }
  }

  /** It requires nothing, so it is never on the stack. */
  lemma ZIsNotStacked(v: View, k: string)
    requires Valid(E, Universe, v) && k in v.accepted
    ensures k in v.stacks && "z" !in v.stacks[k]
  {
    hide Valid;
    AcceptedChain(E, Universe, v, k);
    var names := v.stacks[k] + [k];
    forall i | 0 <= i < |v.stacks[k]| ensures v.stacks[k][i] != "z" {
      assert Leads(E, names[i], names[i + 1]);
    }
  }

  lemma ZIsUnmet(v: View, stack: seq<string>)
    requires ProvidersListed(E, v.provided) && "z" !in v.candidates && "z" !in stack
    ensures !Satisfied(E, v, Done(v, stack), P, Atom("z", "1"))
  {
    hide ProvidersListed, ProvidedFor, Admit;
    NothingProvided(v, P, "z");
  }

  /** So p, which requires z, is never accepted. */
  lemma PIsNotChosen(v: View)
    requires Valid(E, Universe, v) && v.candidates.Keys <= v.accepted.Keys
    ensures "p" !in v.accepted
  {
    hide Valid, IsInConflict, ProvidersListed, ProvidedFor, Satisfied, Done;
    assert P.deps[1] == Atom("z", "1") && Atom("z", "1") in P.deps;
    ZIsNotChosen(v);
    if "p" in v.accepted {
      ZIsNotStacked(v, "p");
      AcceptedFacts(E, Universe, v, "p");
      ZIsUnmet(v, v.stacks["p"]);
    }
  }

  /** The require of m is met by nothing. */
  lemma Unmet(v: View)
    requires Valid(E, Universe, v) && v.candidates.Keys == v.accepted.Keys && "m" in v.candidates
    ensures v.candidates.Keys == {"m"} && v.candidates["m"] != [] && v.candidates["m"][0].pkg == M
    ensures v.accepted["m"].pkg == M && !Leftovers.ReallyMet(E, v, "m")
  {
    hide Valid, IsInConflict, ProvidersListed, ProvidedFor, Admit, RequiresMet;
    PIsNotChosen(v);
    ZIsNotChosen(v);
    forall k | k in v.accepted ensures k == "m" {
      AcceptedFacts(E, Universe, v, k);
    }
    AcceptedFacts(E, Universe, v, "m");
    NothingProvided(v, M, "p");
    assert M.deps[0] == Atom("p", "1") && Atom("p", "1") in M.deps;
    assert !Satisfied(E, v, v.candidates.Keys, M, Atom("p", "1"));
  }

  lemma OneHead(candidates: map<string, seq<Artifact>>, arts: seq<Artifact>)
    requires HeadsOf(candidates, arts) && candidates.Keys == {"m"} && candidates["m"][0].pkg == M
    ensures arts != [] && forall a :: a in arts ==> a.pkg == M
  {
    assert candidates["m"][0] in arts;
  }

  /** The forced install of p: m is chosen while p is under analysis, and p fails for z.  What is returned is m alone,
      which nothing requires that is chosen, and whose require p nothing meets. */
  method Run() returns (s: Solver, arts: seq<Artifact>)
    ensures s.env == E && s.candidates.Keys == {"m"} == s.accepted.Keys
    ensures arts != [] && (forall a :: a in arts ==> a.pkg == M) && M.deps == [Atom("p", "1")]
    ensures !Leftovers.ReallyMet(E, s.V(), "m")
  {
    hide Valid, CandidateOk, IsInConflict, StartsWell, Sorted, Closed, Unobstructed, Leftovers.ReallyMet;
    s := new Solver(E, Requested, map[]);
    Start(s.V());
    StartsWithM(s.V());
    assert Requested.Keys == {"p"};
    var ok;
    ok, arts := s.Install(true, Universe);
    Unmet(s.V());
    OneHead(s.candidates, arts);
  }
}
