/** The upgrade selector: which versions of an installed package become candidates for its upgrade. */
module UpgradeSelector {
  import opened Wrappers
  import opened Packages
  import opened Resolver

  /** What the upgrade adds to the resolver's environment: the deep option, the installed packages by the names
      they require, the hash that tells changed requires, and the order of versions. */
  datatype UpgradeEnv = UpgradeEnv(
    deep: bool,
    users: map<string, seq<Package>>,
    hash: Package -> int,
    leq: (string, string) -> bool)
  {
    predicate Greater(a: string, b: string) {
      !leq(a, b)
    }

    predicate Equal(a: string, b: string) {
      leq(a, b) && leq(b, a)
    }

    /** Versions are totally ordered, and the sorters of the resolver put later versions of a package first. */
    ghost predicate Valid(env: Env) {
      && (forall a, b :: leq(a, b) || leq(b, a))
      && (forall a, b, c :: leq(a, b) && leq(b, c) ==> leq(a, c))
      && (forall s :: OneNamed(env, s) ==> Descending(env.sortRepos(s)))
      && (forall s :: OneNamed(env, s) && env.sortVersions(s).Some? ==> Descending(env.sortVersions(s).value))
    }

    ghost predicate Descending(arts: seq<Artifact>) {
      forall i, j :: 0 <= i < j < |arts| ==> leq(arts[j].pkg.version, arts[i].pkg.version)
    }
  }

  // ---------- the requires of an upgrade ----------

  /** The installed version of the require is admitted, or some available version of it admits the upgrade; whether
      the upgrade admits that version is not asked. */
  ghost predicate InstalledFor(env: Env, available: map<string, seq<Artifact>>, p: Package, n: string) {
    && n in env.system && env.system[n] != []
    && (|| Admit(env.g, p, env.system[n][0]) == Admitted
        || (n in available && exists a :: a in available[n] && Admit(env.g, a.pkg, p) == Admitted))
  }

  ghost predicate SatisfiedForUpgrade(env: Env, v: View, done: set<string>, p: Package, r: Atom) {
    || InstalledFor(env, v.available, p, r.name)
    || ProvidedFor(env, v.provided, p, r.name)
    || r.name in done
    || exists n :: n in done && FoundFor(env, r, n)
  }

  /** The installed version is admitted, or some available version and the upgrade admit each other. */
  ghost predicate InstalledFits(env: Env, available: map<string, seq<Artifact>>, p: Package, n: string) {
    && n in env.system && env.system[n] != []
    && (|| Admit(env.g, p, env.system[n][0]) == Admitted
        || (n in available &&
            exists a :: a in available[n] && Admit(env.g, a.pkg, p) == Admitted && Admit(env.g, p, a.pkg) == Admitted))
  }

  /** p does not admit the installed version, nor any of the available versions that admit it. */
  ghost predicate OneSided(env: Env, available: map<string, seq<Artifact>>, p: Package, n: string) {
    && n in env.system && env.system[n] != [] && Admit(env.g, p, env.system[n][0]) != Admitted
    && (n in available ==>
          forall a :: a in available[n] && Admit(env.g, a.pkg, p) == Admitted ==> Admit(env.g, p, a.pkg) != Admitted)
  }

  lemma InstalledExactly(env: Env, available: map<string, seq<Artifact>>, p: Package, n: string)
    ensures InstalledFits(env, available, p, n) <==>
            InstalledFor(env, available, p, n) && !OneSided(env, available, p, n)
  {
    hide Admit;
  }

  /** p admits every available version of n that admits it. */
  ghost predicate Mutual(env: Env, available: map<string, seq<Artifact>>, p: Package, n: string) {
    n in available ==>
      forall a :: a in available[n] && Admit(env.g, a.pkg, p) == Admitted ==> Admit(env.g, p, a.pkg) == Admitted
  }

  /** If of n only these are available, what counts as met fits. */
  ghost predicate SelectionFits(env: Env, available: map<string, seq<Artifact>>, p: Package, n: string,
                                arts: seq<Artifact>) {
    InstalledFor(env, available[n := arts], p, n) ==> InstalledFits(env, available[n := arts], p, n)
  }

  /** The condition on the versions: whichever of them are available, what counts as met fits, exactly if the installed
      version is admitted or admission between p and the versions of n is mutual. */
  lemma FitsForAllSelections(env: Env, available: map<string, seq<Artifact>>, p: Package, n: string)
    requires n in env.system && env.system[n] != [] && n in available
    ensures (forall arts: seq<Artifact> :: multiset(arts) <= multiset(available[n]) ==>
               SelectionFits(env, available, p, n, arts))
            <==> Admit(env.g, p, env.system[n][0]) == Admitted || Mutual(env, available, p, n)
  {
    hide Admit;
    if Admit(env.g, p, env.system[n][0]) != Admitted && !Mutual(env, available, p, n) {
      var a :| a in available[n] && Admit(env.g, a.pkg, p) == Admitted && Admit(env.g, p, a.pkg) != Admitted;
      assert a in multiset(available[n]) && multiset([a]) <= multiset(available[n]);
      assert a in [a] && !SelectionFits(env, available, p, n, [a]);
    }
    forall arts: seq<Artifact>, a | multiset(arts) <= multiset(available[n]) && a in arts ensures a in available[n] {
      assert a in multiset(arts);
    }
  }

  /** p requires version 3 of n, version 2 is installed, and 2.1 is all that is available: p rejects both, and the
      require counts as met. */
  lemma OneSidedExample(env: Env, available: map<string, seq<Artifact>>, p: Package, newer: Package)
    requires p.deps == [Atom("n", "3")] && p.conflicts == [] && newer == Package("n", "2.1", [], [], [])
    requires "n" in env.system && env.system["n"] == [Package("n", "2", [], [], [])] &&
             available == map["n" := [Artifact(newer, [])]]
    requires forall a :: env.g.parses(a)
    requires forall r: Atom, t: Atom :: env.g.verdict(r, t) == if r.version == t.version then Admitted else Rejected
    ensures InstalledFor(env, available, p, "n") && !InstalledFits(env, available, p, "n")
  {
    var was, r := Package("n", "2", [], [], []), Atom("n", "3");
    assert Artifact(newer, []) in available["n"];
    assert r in p.deps;
    AdmitMeaning(env.g, p, was);
    AdmitMeaning(env.g, p, newer);
    assert Targets(r, was) == [was.ToAtom()] && was.ToAtom() in Targets(r, was);
    assert Targets(r, newer) == [newer.ToAtom()] && newer.ToAtom() in Targets(r, newer);
  }

  /** What the source asks for, read as it stands: installed or provided in versions that fit, or done. */
  ghost predicate SatisfiedForUpgradeAs(env: Env, v: View, done: set<string>, p: Package, r: Atom) {
    || InstalledFits(env, v.available, p, r.name)
    || ProvidedAs(env, v.provided, p, r.name)
    || r.name in done
    || exists n :: n in done && FoundFor(env, r, n)
  }

  /** This reading holds of what was checked, when every package offered or installed provides one name at most and
      the available versions of a required package that admit p are not all rejected by it. */
  lemma SatisfiedForUpgradeExactly(env: Env, universe: set<string>, v: View, done: set<string>, p: Package, r: Atom)
    requires Valid(env, universe, v) && PlainProviders(env)
    requires SatisfiedForUpgrade(env, v, done, p, r) && !OneSided(env, v.available, p, r.name)
    ensures SatisfiedForUpgradeAs(env, v, done, p, r)
  {
    hide Valid, ProvidersListed, OneSided, InstalledFits, InstalledFor, ProvidedFor, ProvidedAs;
    ValidProviders(env, universe, v);
    PlainProvidersExactly(env, v.provided, p, r.name);
    InstalledExactly(env, v.available, p, r.name);
  }

  /** What an upgrade knows only grows: names that have candidates, providers, and available versions. */
  ghost predicate KnowsMore(env: Env, v: View, v': View) {
    && v.candidates.Keys <= v'.candidates.Keys
    && ProvidedGrows(v.provided, v'.provided)
    && (forall k :: k in v.available ==> k in v'.available && forall a :: a in v.available[k] ==> a in v'.available[k])
    && (Unobstructed(env, v.available) ==> Unobstructed(env, v'.available))
  }

  /** So what met a require keeps meeting it. */
  lemma SatisfiedStays(env: Env, v: View, v': View, done: set<string>, done': set<string>, p: Package, r: Atom)
    requires SatisfiedForUpgrade(env, v, done, p, r) && done <= done' && KnowsMore(env, v, v')
    ensures SatisfiedForUpgrade(env, v', done', p, r)
  {
    hide Admit, Unobstructed;
    if ProvidedFor(env, v.provided, p, r.name) {
      var q, a :| q in v.provided[r.name] && a in q.provs && Admit(env.g, p, AsPackage(a)) == Admitted;
      assert q in v'.provided[r.name];
    }
    if InstalledFor(env, v.available, p, r.name) && Admit(env.g, p, env.system[r.name][0]) != Admitted {
      var a :| a in v.available[r.name] && Admit(env.g, a.pkg, p) == Admitted;
      assert a in v'.available[r.name];
    }
  }

  lemma GrowsKnows(env: Env, v: View, v': View, stack: seq<string>)
    requires Grows(env, v, v', stack)
    ensures KnowsMore(env, v, v')
  {
    hide Unobstructed;
  }

  lemma UpgradeSatisfiedGrows(env: Env, v: View, v': View, stack: seq<string>, p: Package, r: Atom)
    requires Grows(env, v, v', stack) && SatisfiedForUpgrade(env, v, Done(v, stack), p, r)
    ensures SatisfiedForUpgrade(env, v', Done(v', stack), p, r)
  {
    hide SatisfiedForUpgrade, Grows, KnowsMore;
    GrowsDone(env, v, v', stack);
    GrowsKnows(env, v, v', stack);
    SatisfiedStays(env, v, v', Done(v, stack), Done(v', stack), p, r);
  }

  method SomeAdmits(env: Env, arts: seq<Artifact>, p: Package) returns (found: bool)
    ensures found <==> exists a :: a in arts && Admit(env.g, a.pkg, p) == Admitted
  {
    for i := 0 to |arts|
      invariant forall k :: 0 <= k < i ==> Admit(env.g, arts[k].pkg, p) != Admitted
    {
      if Admit(env.g, arts[i].pkg, p) == Admitted {
        return true;
      }
    }
    return false;
  }

  // ---------- what is decided at entry ----------

  /** The require is settled without a resolution: it is installed, and admitted or some available version of it admits
      the upgrade; or it is not installed, and provided, chosen or under analysis. */
  ghost predicate SettledForUpgrade(env: Env, v: View, stack: seq<string>, p: Package, r: Atom) {
    if r.name in env.system then
      && env.system[r.name] != []
      && (|| Admit(env.g, p, env.system[r.name][0]) == Admitted
          || (Admit(env.g, p, env.system[r.name][0]) == Rejected && SomeVersionAdmits(env, v, p, r.name)))
    else ProvidedFor(env, v.provided, p, r.name) || r.name in v.candidates || r.name in stack
  }

  ghost predicate SomeVersionAdmits(env: Env, v: View, p: Package, n: string) {
    n in v.available && exists a :: a in v.available[n] && Admit(env.g, a.pkg, p) == Admitted
  }

  /** The require is installed in a version that p rejects, and no available version of it admits p. */
  ghost predicate RejectsForUpgrade(env: Env, v: View, p: Package, r: Atom) {
    && r.name in env.system && env.system[r.name] != []
    && Admit(env.g, p, env.system[r.name][0]) == Rejected && !SomeVersionAdmits(env, v, p, r.name)
  }

  /** The verdict on the installed version fails; or nothing settles the require, and the search for it fails. */
  ghost predicate ErrsForUpgrade(env: Env, v: View, stack: seq<string>, p: Package, r: Atom) {
    if r.name in env.system then env.system[r.name] != [] && Admit(env.g, p, env.system[r.name][0]) == Failed
    else
      && !ProvidedFor(env, v.provided, p, r.name) && r.name !in v.candidates && r.name !in stack
      && env.search(r).None?
  }

  /** Nothing settles the require, and the search for it leads to a name that is not done. */
  ghost predicate SearchedForUpgrade(env: Env, v: View, stack: seq<string>, p: Package, r: Atom) {
    && r.name !in env.system
    && !ProvidedFor(env, v.provided, p, r.name) && r.name !in v.candidates && r.name !in stack
    && env.search(r).Some? && OtherName(r.name, env.search(r).value) !in Done(v, stack)
  }

  ghost predicate SettledUpTo(env: Env, v: View, stack: seq<string>, p: Package, n: nat) {
    n <= |p.deps| && forall k :: 0 <= k < n ==> SettledForUpgrade(env, v, stack, p, p.deps[k])
  }

  /** How all requires of p come out, if those before the first that is not settled are what decides. */
  ghost predicate DepsDecided(env: Env, v: View, stack: seq<string>, p: Package, o: DepsOutcome) {
    match o
    case DepsAdmitted => SettledUpTo(env, v, stack, p, |p.deps|)
    case DepsRejected =>
      exists k :: 0 <= k < |p.deps| && SettledUpTo(env, v, stack, p, k) && RejectsForUpgrade(env, v, p, p.deps[k])
    case DepsError =>
      exists k :: 0 <= k < |p.deps| && SettledUpTo(env, v, stack, p, k) && ErrsForUpgrade(env, v, stack, p, p.deps[k])
  }

  /** No verdict fails, every version parses, and what is required is installed or provided. */
  ghost predicate NothingMissing(env: Env, provided: map<string, seq<Package>>) {
    && (forall p :: p in env.pool ==> env.g.parses(p.ToAtom()))
    && (forall p, q :: p in env.pool && q in env.pool ==> Admit(env.g, p, q) != Failed)
    && (forall p, n :: p in env.pool && n in env.system && env.system[n] != [] ==>
          Admit(env.g, p, env.system[n][0]) != Failed)
    && (forall p, r :: p in env.pool && r in p.deps ==>
          r.name in env.system || ProvidedFor(env, provided, p, r.name))
  }

  lemma MissesNothing(env: Env, provided: map<string, seq<Package>>, stack: seq<string>, p: Package, r: Atom)
    requires Under(env, stack, p) && r in p.deps
    ensures NothingMissing(env, provided) ==>
              && (r.name in env.system || ProvidedFor(env, provided, p, r.name))
              && (r.name in env.system && env.system[r.name] != [] ==>
                    Admit(env.g, p, env.system[r.name][0]) != Failed)
  {
    hide Admit, ProvidedFor;
  }

  /** One require of an upgrade candidate. */
  method ProcessDep4Upgrade(s: Solver, p: Package, r: Atom, stack: seq<string>, ghost universe: set<string>)
    returns (o: DepsOutcome)
    requires Valid(s.env, universe, s.V()) && StackOk(stack, universe) && Under(s.env, stack, p) && r in p.deps
    modifies s
    ensures Valid(s.env, universe, s.V()) && Extends(s.env, old(s.V()), s.V(), stack)
    ensures o == DepsAdmitted ==> SatisfiedForUpgrade(s.env, s.V(), Done(s.V(), stack), p, r)
    ensures Unobstructed(s.env, old(s.available)) && old(s.lucky) && p in s.env.pool &&
            Obtainable(s.env, old(s.available), p, r) ==>
              o == DepsAdmitted && s.lucky
    ensures SettledForUpgrade(s.env, old(s.V()), stack, p, r) ==> o == DepsAdmitted && Unchanged(old(s.V()), s.V())
    ensures o == DepsRejected <==> RejectsForUpgrade(s.env, old(s.V()), p, r)
    ensures o == DepsRejected ==> Unchanged(old(s.V()), s.V())
    ensures ErrsForUpgrade(s.env, old(s.V()), stack, p, r) ==> o == DepsError
    ensures SearchedForUpgrade(s.env, old(s.V()), stack, p, r) ==>
              FollowsSearch(s.env, old(s.V()), s.V(), stack, r, o)
    ensures NothingMissing(s.env, old(s.provided)) ==> o != DepsError && Unchanged(old(s.V()), s.V())
  {
    hide Valid, Extends, Resolves, MoreAvailable, StackOk, NamedLists, Admit, Unobstructed, Pooled, Chain, ProvidedFor,
      NothingMissing, Under, FollowsSearch, OtherName;
    MissesNothing(s.env, s.provided, stack, p, r);
    ghost var v := s.V();
    ExtendsReflexive(s.env, v, stack);
    ValidFacts(s.env, universe, v);
    if r.name in s.env.system {
      match Admit(s.env.g, p, s.env.system[r.name][0]) {
        case Failed =>
          return DepsError;
        case Rejected =>
          if r.name !in s.available {
            return DepsRejected;
          }
          // Maybe a new version of the installed package admits the candidate.
          if p in s.env.pool {
            SomeAvailableAdmits(s.env, universe, v, p, r.name);
          }
          var admit := SomeAdmits(s.env, s.available[r.name], p);
          return if admit then DepsAdmitted else DepsRejected;
        case Admitted =>
          return DepsAdmitted;
      }
    }
    var isProvided := s.IsProvided(p, r.name);
    if isProvided || r.name in s.candidates || r.name in stack {
      return DepsAdmitted;
    }
    o := ResolveDep4Upgrade(s, p, r, stack, universe);
  }

  /** A require that is not installed, and that nothing settles. */
  method ResolveDep4Upgrade(s: Solver, p: Package, r: Atom, stack: seq<string>, ghost universe: set<string>)
    returns (o: DepsOutcome)
    requires Valid(s.env, universe, s.V()) && StackOk(stack, universe) && Under(s.env, stack, p) && r in p.deps
    modifies s
    ensures Valid(s.env, universe, s.V()) && Extends(s.env, old(s.V()), s.V(), stack)
    ensures o == DepsAdmitted ==> SatisfiedForUpgrade(s.env, s.V(), Done(s.V(), stack), p, r)
    ensures o != DepsRejected
    ensures Unobstructed(s.env, old(s.available)) && old(s.lucky) && s.env.search(r).Some? &&
            s.env.search(r).value != [] ==>
              o == DepsAdmitted && s.lucky
    ensures s.env.search(r).None? ==> o == DepsError
    ensures s.env.search(r).Some? && OtherName(r.name, s.env.search(r).value) !in Done(old(s.V()), stack) ==>
              FollowsSearch(s.env, old(s.V()), s.V(), stack, r, o)
  {
    hide Valid, Extends, Resolves, MoreAvailable, StackOk, NamedLists, Admit, Unobstructed, Pooled, Chain, ProvidedFor,
      Under, AddAll, OtherName, Done, Satisfied, SatisfiedForUpgrade, OutcomeRight, FirstFit, Chose, Sorted, FirstStays,
      NoErrors;
    ghost var v := s.V();
    ExtendsReflexive(s.env, v, stack);
    ValidFacts(s.env, universe, v);
    var found := s.env.search(r);
    if found.None? {
      return DepsError;
    }
    FoundNames(s.env, universe, v, r);
    var name := OtherName(r.name, found.value);
    OtherIsFound(s.env, r);
    s.AddAvailable(found.value, r, universe);
    ghost var v1 := s.V();
    MoreAvailableGrows(s.env, universe, v, v1, stack);
    ChainStep(s.env, stack, p, r, name);
    NotDoneApart(v, v1, stack, name);
    var outcome := s.ResolvePackage(name, stack, universe);
    UnresolvedGrows(s.env, universe, v, v1, s.V(), stack, name, outcome);
    assert name !in Done(v, stack) ==> Follows(s.env, v1, s.V(), stack, name, outcome);
    if outcome != Resolved {
      return DepsError;
    }
    ResolvedSatisfies(s.env, universe, v, v1, s.V(), stack, p, r, name);
    InstallIsUpgrade(s.env, s.V(), Done(s.V(), stack), p, r);
    o := DepsAdmitted;
  }

  /** The name that the search leads to is resolved: with a version, or the upgrade ends with an error. */
  ghost predicate FollowsSearch(env: Env, v: View, v': View, stack: seq<string>, r: Atom, o: DepsOutcome)
    requires env.search(r).Some?
  {
    var v1 := v.(available := AddAll(v.available, env.search(r).value));
    exists outcome :: Follows(env, v1, v', stack, OtherName(r.name, env.search(r).value), outcome)
                      && o == if outcome == Resolved then DepsAdmitted else DepsError
  }

  lemma OtherIsFound(env: Env, r: Atom)
    requires env.search(r).Some?
    ensures var name := OtherName(r.name, env.search(r).value);
      && (name == r.name || FoundFor(env, r, name))
      && (env.search(r).value != [] ==> exists a :: a in env.search(r).value && a.pkg.name == name)
  {
    if env.search(r).value != [] {
      assert env.search(r).value[0] in env.search(r).value;
    }
  }

  lemma NotDoneApart(v: View, v1: View, stack: seq<string>, n: string)
    requires v1 == v.(available := v1.available)
    ensures n !in Done(v, stack) ==> n !in stack && n !in v1.candidates
  {
  }

  lemma SomeAvailableAdmits(env: Env, universe: set<string>, v: View, p: Package, n: string)
    requires Valid(env, universe, v) && n in v.available && p in env.pool
    ensures Unobstructed(env, v.available) ==> exists a :: a in v.available[n] && Admit(env.g, a.pkg, p) == Admitted
  {
    hide Admit, IsInConflict, Clean, Obtainable;
    var a := v.available[n][0];
    assert a in v.available[n];
  }

  lemma FoundNames(env: Env, universe: set<string>, v: View, r: Atom)
    requires Valid(env, universe, v) && env.search(r).Some?
    ensures forall a :: a in env.search(r).value ==>
              a.pkg.name in universe && a.pkg in env.pool && FoundFor(env, r, a.pkg.name)
  {
  }

  lemma InstallIsUpgrade(env: Env, v: View, done: set<string>, p: Package, r: Atom)
    requires Satisfied(env, v, done, p, r)
    ensures SatisfiedForUpgrade(env, v, done, p, r)
  {
  }

  /** All requires of p are met. */
  ghost predicate MetForUpgrade(env: Env, v: View, stack: seq<string>, p: Package, n: nat) {
    n <= |p.deps| && forall k :: 0 <= k < n ==> SatisfiedForUpgrade(env, v, Done(v, stack), p, p.deps[k])
  }

  lemma NextMet(env: Env, v: View, v': View, stack: seq<string>, p: Package, n: nat)
    requires MetForUpgrade(env, v, stack, p, n) && Grows(env, v, v', stack) && n < |p.deps|
    requires SatisfiedForUpgrade(env, v', Done(v', stack), p, p.deps[n])
    ensures MetForUpgrade(env, v', stack, p, n + 1)
  {
    hide Grows, SatisfiedForUpgrade, Done;
    forall k | 0 <= k < n ensures SatisfiedForUpgrade(env, v', Done(v', stack), p, p.deps[k]) {
      UpgradeSatisfiedGrows(env, v, v', stack, p, p.deps[k]);
    }
  }

  lemma ExtendsFacts(env: Env, v: View, v': View, stack: seq<string>)
    requires Extends(env, v, v', stack)
    ensures Grows(env, v, v', stack)
    ensures Unobstructed(env, v.available) ==> Unobstructed(env, v'.available)
  {
    hide Grows, Unobstructed, Settled;
    GrowsFacts(env, v, v', stack);
  }

  /** After a require that is not settled at entry, what decides is how it came out. */
  lemma DecidedAtRequire(env: Env, v: View, stack: seq<string>, p: Package, i: nat, o: DepsOutcome)
    requires i < |p.deps| && SettledUpTo(env, v, stack, p, i)
    requires SettledForUpgrade(env, v, stack, p, p.deps[i]) ==> o == DepsAdmitted
    requires RejectsForUpgrade(env, v, p, p.deps[i]) ==> o == DepsRejected
    requires ErrsForUpgrade(env, v, stack, p, p.deps[i]) ==> o == DepsError
    ensures SettledForUpgrade(env, v, stack, p, p.deps[i]) <==> SettledUpTo(env, v, stack, p, i + 1)
    ensures !SettledUpTo(env, v, stack, p, i + 1) ==>
              forall x :: DepsDecided(env, v, stack, p, x) ==> x == o && o != DepsAdmitted
  {
    hide SettledForUpgrade, RejectsForUpgrade, ErrsForUpgrade;
    forall k: nat | k < i
      ensures !RejectsForUpgrade(env, v, p, p.deps[k]) && !ErrsForUpgrade(env, v, stack, p, p.deps[k])
    {
      SettledIsFine(env, v, stack, p, p.deps[k]);
    }
    if !SettledUpTo(env, v, stack, p, i + 1) {
      forall x | DepsDecided(env, v, stack, p, x) ensures x == o && o != DepsAdmitted {
        if x != DepsAdmitted {
          var k :| 0 <= k < |p.deps| && SettledUpTo(env, v, stack, p, k) &&
            if x == DepsRejected then RejectsForUpgrade(env, v, p, p.deps[k])
            else ErrsForUpgrade(env, v, stack, p, p.deps[k]);
          assert k <= i;
        }
      }
    }
  }

  lemma NoneSettled(env: Env, v: View, stack: seq<string>, p: Package)
    ensures SettledUpTo(env, v, stack, p, 0)
  {
  }

  lemma SettledFewer(env: Env, v: View, stack: seq<string>, p: Package, i: nat)
    requires !SettledUpTo(env, v, stack, p, i) && i < |p.deps|
    ensures !SettledUpTo(env, v, stack, p, i + 1)
  {
    hide SettledForUpgrade;
  }

  lemma SettledIsFine(env: Env, v: View, stack: seq<string>, p: Package, r: Atom)
    requires SettledForUpgrade(env, v, stack, p, r)
    ensures !RejectsForUpgrade(env, v, p, r) && !ErrsForUpgrade(env, v, stack, p, r)
  {
    hide Admit, ProvidedFor;
  }

  lemma AllDecided(env: Env, v: View, stack: seq<string>, p: Package)
    requires SettledUpTo(env, v, stack, p, |p.deps|)
    ensures forall x :: DepsDecided(env, v, stack, p, x) ==> x == DepsAdmitted
  {
    hide SettledForUpgrade, RejectsForUpgrade, ErrsForUpgrade;
    forall k: nat | k < |p.deps|
      ensures !RejectsForUpgrade(env, v, p, p.deps[k]) && !ErrsForUpgrade(env, v, stack, p, p.deps[k])
    {
      SettledIsFine(env, v, stack, p, p.deps[k]);
    }
  }

  /** What is rejected was rejected with less available, too. */
  lemma RejectsBefore(env: Env, v: View, v': View, stack: seq<string>, p: Package, r: Atom)
    requires Grows(env, v, v', stack) && RejectsForUpgrade(env, v', p, r)
    ensures RejectsForUpgrade(env, v, p, r)
  {
    hide Admit, Unobstructed, SameRecord, NewSince;
  }

  method ProcessArtefactDeps4Upgrade(s: Solver, p: Package, stack: seq<string>, ghost universe: set<string>)
    returns (o: DepsOutcome)
    requires Valid(s.env, universe, s.V()) && StackOk(stack, universe) && Under(s.env, stack, p)
    modifies s
    ensures Valid(s.env, universe, s.V()) && Extends(s.env, old(s.V()), s.V(), stack)
    ensures o == DepsAdmitted ==> MetForUpgrade(s.env, s.V(), stack, p, |p.deps|)
    ensures Unobstructed(s.env, old(s.available)) && old(s.lucky) && p in s.env.pool ==> o == DepsAdmitted && s.lucky
    ensures forall x :: DepsDecided(s.env, old(s.V()), stack, p, x) ==>
              o == x && (o != DepsError ==> Unchanged(old(s.V()), s.V()))
    ensures o == DepsRejected ==> exists r :: r in p.deps && RejectsForUpgrade(s.env, old(s.V()), p, r)
    ensures NothingMissing(s.env, old(s.provided)) ==> o != DepsError && Unchanged(old(s.V()), s.V())
  {
    hide Valid, Extends, Grows, StackOk, SatisfiedForUpgrade, Unobstructed, Obtainable, SettledForUpgrade,
      RejectsForUpgrade, ErrsForUpgrade, NothingMissing, SearchedForUpgrade, FollowsSearch, Under, DepsDecided,
      SettledUpTo;
    ghost var v0 := s.V();
    ExtendsReflexive(s.env, v0, stack);
    NoneSettled(s.env, v0, stack, p);
    for i := 0 to |p.deps|
      invariant Valid(s.env, universe, s.V()) && Extends(s.env, v0, s.V(), stack)
      invariant MetForUpgrade(s.env, s.V(), stack, p, i)
      invariant Unobstructed(s.env, v0.available) && v0.lucky && p in s.env.pool ==> s.lucky
      invariant if SettledUpTo(s.env, v0, stack, p, i) then Unchanged(v0, s.V())
                else forall x :: !DepsDecided(s.env, v0, stack, p, x)
      invariant NothingMissing(s.env, v0.provided) ==> Unchanged(v0, s.V())
    {
      ghost var v := s.V();
      RequireObtainable(s.env, s.available, p, p.deps[i]);
      ExtendsFacts(s.env, v0, v, stack);
      o := ProcessDep4Upgrade(s, p, p.deps[i], stack, universe);
      ExtendsTransitive(s.env, v0, v, s.V(), stack);
      if SettledUpTo(s.env, v0, stack, p, i) {
        DecidedAtRequire(s.env, v0, stack, p, i, o);
      } else {
        SettledFewer(s.env, v0, stack, p, i);
      }
      if o == DepsRejected {
        RejectsBefore(s.env, v0, v, stack, p, p.deps[i]);
      }
      if o != DepsAdmitted {
        return;
      }
      ExtendsFacts(s.env, v, s.V(), stack);
      NextMet(s.env, v, s.V(), stack, p, i);
    }
    if SettledUpTo(s.env, v0, stack, p, |p.deps|) {
      AllDecided(s.env, v0, stack, p);
    }
    o := DepsAdmitted;
  }

  // ---------- the versions of one installed package ----------

  /** The user admits the new version, or some available version of the user does. */
  ghost predicate UserAdmits(env: Env, available: map<string, seq<Artifact>>, user: Package, p: Package) {
    || Admit(env.g, user, p) == Admitted
    || (user.name in available && exists a :: a in available[user.name] && Admit(env.g, a.pkg, p) == Admitted)
  }

  ghost predicate UsersAdmit(env: Env, u: UpgradeEnv, available: map<string, seq<Artifact>>, p: Package) {
    p.name in u.users ==> forall i :: 0 <= i < |u.users[p.name]| ==> UserAdmits(env, available, u.users[p.name][i], p)
  }

  /** The user does not admit the new version, and each available version of the user rejects it. */
  ghost predicate UserRejects(env: Env, available: map<string, seq<Artifact>>, user: Package, p: Package) {
    && Admit(env.g, user, p) != Admitted
    && (user.name in available ==> forall a :: a in available[user.name] ==> Admit(env.g, a.pkg, p) == Rejected)
  }

  /** A user does not admit the new version, and the verdict of one of its available versions fails. */
  ghost predicate UserFails(env: Env, u: UpgradeEnv, available: map<string, seq<Artifact>>, p: Package) {
    p.name in u.users &&
    exists user, a :: user in u.users[p.name] && Admit(env.g, user, p) != Admitted
      && user.name in available && a in available[user.name] && Admit(env.g, a.pkg, p) == Failed
  }

  /** The installed packages that require the candidate admit it as they are. */
  ghost predicate UsersAdmitNow(env: Env, u: UpgradeEnv, p: Package) {
    p.name in u.users ==> forall i :: 0 <= i < |u.users[p.name]| ==> Admit(env.g, u.users[p.name][i], p) == Admitted
  }

  lemma UsersAdmitMore(env: Env, u: UpgradeEnv, v: View, v': View, stack: seq<string>, p: Package)
    requires UsersAdmit(env, u, v.available, p) && Grows(env, v, v', stack)
    ensures UsersAdmit(env, u, v'.available, p)
  {
    hide Admit;
    if p.name in u.users {
      var users := u.users[p.name];
      forall i | 0 <= i < |users| ensures UserAdmits(env, v'.available, users[i], p) {
        assert UserAdmits(env, v.available, users[i], p);
        if Admit(env.g, users[i], p) != Admitted {
          var a :| a in v.available[users[i].name] && Admit(env.g, a.pkg, p) == Admitted;
          assert a in v'.available[users[i].name];
        }
      }
    }
  }

  /** The installed packages that require the candidate admit it, now or after their own upgrade; an error of
      a new version of a user is reported. */
  method UsersAdmitNew(s: Solver, u: UpgradeEnv, p: Package) returns (r: Verdict)
    ensures r == Admitted ==> UsersAdmit(s.env, u, s.available, p)
    ensures r == Rejected ==> !UsersAdmit(s.env, u, s.available, p)
    ensures r == Admitted && p.name in u.users ==> forall user :: user in u.users[p.name] ==>
              || Admit(s.env.g, user, p) == Admitted
              || (user.name in s.available &&
                  exists a :: a in s.available[user.name] && Admit(s.env.g, a.pkg, p) == Admitted)
    ensures r == Rejected ==>
              p.name in u.users && exists user :: user in u.users[p.name] && UserRejects(s.env, s.available, user, p)
    ensures r == Failed ==> UserFails(s.env, u, s.available, p)
    ensures UsersAdmitNow(s.env, u, p) ==> r == Admitted
  {
    if p.name in u.users {
      var users := u.users[p.name];
      for i := 0 to |users|
        invariant forall k :: 0 <= k < i ==> UserAdmits(s.env, s.available, users[k], p)
      {
        if Admit(s.env.g, users[i], p) != Admitted {
          if users[i].name !in s.available {
            assert users[i] in users && UserRejects(s.env, s.available, users[i], p);
            return Rejected;
          }
          var versions := s.available[users[i].name];
          var admit := false;
          for k := 0 to |versions|
            invariant admit ==> exists a :: a in versions && Admit(s.env.g, a.pkg, p) == Admitted
            invariant !admit ==> forall x :: 0 <= x < k ==> Admit(s.env.g, versions[x].pkg, p) == Rejected
          {
            var v := Admit(s.env.g, versions[k].pkg, p);
            if v == Failed {
              assert users[i] in users && versions[k] in versions;
              return Failed;
            }
            if v == Admitted {
              admit := true;
            }
          }
          if !admit {
            assert users[i] in users && UserRejects(s.env, s.available, users[i], p);
            return Rejected;
          }
        }
      }
    }
    return Admitted;
  }

  /** What the check of one version against the tree does; as for the install, with the requires of an upgrade. */
  ghost predicate TriedForUpgrade(env: Env, universe: set<string>, v: View, v': View, stack: seq<string>, p: Package,
                                  attempt: Attempt) {
    && Valid(env, universe, v') && Extends(env, v, v', stack)
    && (attempt == Fits ==> AdmittedByAll(env, v.candidates, p) && MetForUpgrade(env, v', stack, p, |p.deps|))
    && (attempt == Conflicts <==> !env.ignoreConflicts && IsInConflict(env, p))
    && (attempt == Conflicts ==> v' == v)
    && (Unobstructed(env, v.available) && v.lucky ==> (attempt == Fits || attempt == Conflicts) && v'.lucky)
    && (forall x :: TreeDecided(env, v, stack, p, x) ==> attempt == x && (x != Errs ==> Unchanged(v, v')))
    && (attempt == NotAdmitted ==>
          !AdmittedByAll(env, v.candidates, p) || exists r :: r in p.deps && RejectsForUpgrade(env, v, p, r))
    && (NothingMissing(env, v.provided) && p in env.pool ==> attempt != Errs && Unchanged(v, v'))
  }

  /** What the check of one version against the tree comes to, if that is decided at entry. */
  ghost predicate TreeDecided(env: Env, v: View, stack: seq<string>, p: Package, attempt: Attempt) {
    if !env.ignoreConflicts && IsInConflict(env, p) then attempt == Conflicts
    else
      match attempt
      case Conflicts => false
      case Fits => AdmittedByAll(env, v.candidates, p) && DepsDecided(env, v, stack, p, DepsAdmitted)
      case NotAdmitted =>
        || RejectedByQueue(env, v.candidates, p)
        || (AdmittedByAll(env, v.candidates, p) && DepsDecided(env, v, stack, p, DepsRejected))
      case Errs =>
        || FailsInQueue(env, v.candidates, p)
        || (AdmittedByAll(env, v.candidates, p) && DepsDecided(env, v, stack, p, DepsError))
  }

  lemma TriedConflictForUpgrade(env: Env, universe: set<string>, v: View, stack: seq<string>, p: Package)
    requires Valid(env, universe, v) && !env.ignoreConflicts && IsInConflict(env, p)
    ensures TriedForUpgrade(env, universe, v, v, stack, p, Conflicts)
  {
    hide Valid, Extends, IsInConflict, AdmittedByAll, Unobstructed, MetForUpgrade, NothingMissing;
    ExtendsReflexive(env, v, stack);
  }

  lemma TriedEarlyForUpgrade(env: Env, universe: set<string>, v: View, stack: seq<string>, p: Package, admit: Verdict)
    requires Valid(env, universe, v) && p in env.pool && admit != Admitted
    requires env.ignoreConflicts || !IsInConflict(env, p)
    requires !AdmittedByAll(env, v.candidates, p)
    requires exists k :: k in v.candidates && v.candidates[k] != [] && Admit(env.g, v.candidates[k][0].pkg, p) == admit
    ensures TriedForUpgrade(env, universe, v, v, stack, p, if admit == Failed then Errs else NotAdmitted)
  {
    hide Valid, Extends, IsInConflict, AdmittedByAll, Unobstructed, MetForUpgrade, DepsDecided, Admit, NothingMissing,
      RejectsForUpgrade;
    NothingBlocks(env, universe, v, p);
    ExtendsReflexive(env, v, stack);
    if NothingMissing(env, v.provided) {
      NoVerdictFails(env, universe, v, p);
    }
  }

  lemma NoVerdictFails(env: Env, universe: set<string>, v: View, p: Package)
    requires Valid(env, universe, v) && p in env.pool && NothingMissing(env, v.provided)
    ensures forall k :: k in v.candidates && v.candidates[k] != [] ==> Admit(env.g, v.candidates[k][0].pkg, p) != Failed
    ensures forall n, a :: n in v.available && a in v.available[n] ==> Admit(env.g, a.pkg, p) != Failed
    ensures env.g.parses(p.ToAtom())
  {
    hide Admit, CandidateOk, Ordered, ProvidersListed, ProvidedFor;
    forall k | k in v.candidates && v.candidates[k] != [] ensures Admit(env.g, v.candidates[k][0].pkg, p) != Failed {
      assert v.candidates[k][0] in v.candidates[k];
    }
  }

  lemma TreeAfterDeps(env: Env, universe: set<string>, v: View, v': View, stack: seq<string>, p: Package,
                      deps: DepsOutcome)
    requires Valid(env, universe, v') && Extends(env, v, v', stack) && p in env.pool
    requires (env.ignoreConflicts || !IsInConflict(env, p)) && AdmittedByAll(env, v.candidates, p)
    requires deps == DepsAdmitted ==> MetForUpgrade(env, v', stack, p, |p.deps|)
    requires Unobstructed(env, v.available) && v.lucky ==> deps == DepsAdmitted && v'.lucky
    requires forall x :: DepsDecided(env, v, stack, p, x) ==> deps == x && (x != DepsError ==> Unchanged(v, v'))
    requires deps == DepsRejected ==> exists r :: r in p.deps && RejectsForUpgrade(env, v, p, r)
    requires NothingMissing(env, v.provided) ==> deps != DepsError && Unchanged(v, v')
    ensures TriedForUpgrade(env, universe, v, v', stack, p, AttemptOf(deps))
  {
    hide Valid, Extends, IsInConflict, Unobstructed, MetForUpgrade, DepsDecided, Admit, NothingMissing,
      RejectsForUpgrade;
    QueueAdmits(env, v.candidates, p);
  }

  /** The common tail of a candidate that is newer, or older in deep mode: conflicts, the queue, the requires. */
  method CheckTree(s: Solver, p: Package, stack: seq<string>, ghost universe: set<string>) returns (attempt: Attempt)
    requires Valid(s.env, universe, s.V()) && StackOk(stack, universe) && Under(s.env, stack, p)
    modifies s
    ensures TriedForUpgrade(s.env, universe, old(s.V()), s.V(), stack, p, attempt)
  {
    hide Valid, Extends, StackOk, IsInConflict, AdmittedByAll, NamedLists, Unobstructed, Pooled, MetForUpgrade,
      TriedForUpgrade, DepsDecided, Admit, NothingMissing, RejectsForUpgrade;
    ghost var v := s.V();
    ValidFacts(s.env, universe, v);
    var conflict := ArtefactIsInConflict(s.env, p);
    if !s.env.ignoreConflicts && conflict {
      TriedConflictForUpgrade(s.env, universe, v, stack, p);
      return Conflicts;
    }
    var admit := s.ArtefactAdmitByQueue(p);
    if admit != Admitted {
      attempt := if admit == Failed then Errs else NotAdmitted;
      TriedEarlyForUpgrade(s.env, universe, v, stack, p, admit);
      return;
    }
    var deps := ProcessArtefactDeps4Upgrade(s, p, stack, universe);
    attempt := AttemptOf(deps);
    TreeAfterDeps(s.env, universe, v, s.V(), stack, p, deps);
  }

  /** Selecting a version of n in progress. */
  ghost predicate Selecting(env: Env, u: UpgradeEnv, universe: set<string>, v0: View, v: View, stack: seq<string>,
                            n: string, selected: seq<Artifact>) {
    && Valid(env, universe, v) && Extends(env, v0, v, stack + [n])
    && n !in stack && n !in v0.candidates && n in universe
    && (forall a :: a in selected ==> a.pkg.name == n && a.pkg in env.pool)
    && u.Descending(selected)
  }

  /** Sorted for the upgrade: with repositories by version and repository, else by version. */
  function SortedForUpgrade(env: Env, available: map<string, seq<Artifact>>, n: string): Option<seq<Artifact>> {
    if env.hasRepos && n in available then Some(env.sortRepos(available[n])) else Sorted(env, available, n)
  }

  /** A version that is newer than the installed one is banned only for a conflict. */
  ghost predicate BannedForUpgrade(env: Env, u: UpgradeEnv, selected: seq<Artifact>, banned: set<string>,
                                   installed: string) {
    forall x :: x in banned ==> u.leq(x, installed) || (!env.ignoreConflicts && InConflict(env, selected, x))
  }

  ghost predicate InConflict(env: Env, selected: seq<Artifact>, version: string) {
    exists a :: a in selected && a.pkg.version == version && IsInConflict(env, a.pkg)
  }

  lemma BanVersion(env: Env, u: UpgradeEnv, selected: seq<Artifact>, banned: set<string>, installed: string, i: nat)
    requires BannedForUpgrade(env, u, selected, banned, installed) && i < |selected|
    requires u.leq(selected[i].pkg.version, installed) || (!env.ignoreConflicts && IsInConflict(env, selected[i].pkg))
    ensures BannedForUpgrade(env, u, selected, banned + {selected[i].pkg.version}, installed)
  {
    hide IsInConflict;
    assert selected[i] in selected;
  }

  /** The version matches: in no conflict and admitted by the candidates before, unless it is the installed
      version with other requires; admitted by its users if it is newer; and its requires are met. */
  ghost predicate FitForUpgrade(env: Env, u: UpgradeEnv, v0: View, v: View, stack: seq<string>, installed: Package,
                                p: Package) {
    && (!u.deep ==> u.leq(installed.version, p.version))
    && (u.Greater(p.version, installed.version) ==> UsersAdmit(env, u, v.available, p))
    && (if u.Equal(p.version, installed.version) then u.hash(p) != u.hash(installed)
        else (env.ignoreConflicts || !IsInConflict(env, p)) && AdmittedByAll(env, v0.candidates, p))
    && MetForUpgrade(env, v, stack, p, |p.deps|)
  }

  /** The version is newer, its users admit it as they are, and it is in no conflict. */
  ghost predicate Welcome(env: Env, u: UpgradeEnv, installed: Package, p: Package) {
    && env.g.parses(p.ToAtom()) && u.Greater(p.version, installed.version) && UsersAdmitNow(env, u, p)
    && (env.ignoreConflicts || !IsInConflict(env, p))
  }

  /** The version is passed over: newer, but in conflict; or the installed one; or older, without the deep option. */
  ghost predicate PassedOver(env: Env, u: UpgradeEnv, installed: Package, p: Package) {
    && env.g.parses(p.ToAtom())
    && (if u.Greater(p.version, installed.version) then
          UsersAdmitNow(env, u, p) && !env.ignoreConflicts && IsInConflict(env, p)
        else if u.Equal(p.version, installed.version) then u.hash(p) == u.hash(installed)
        else !u.deep)
  }

  ghost predicate AllPassedOver(env: Env, u: UpgradeEnv, installed: Package, arts: seq<Artifact>) {
    forall a :: a in arts ==> PassedOver(env, u, installed, a.pkg)
  }

  lemma PassedAt(env: Env, u: UpgradeEnv, installed: Package, arts: seq<Artifact>, i: nat)
    requires i < |arts|
    ensures AllPassedOver(env, u, installed, arts) ==> PassedOver(env, u, installed, arts[i].pkg)
  {
  }

  lemma TreeFits(env: Env, universe: set<string>, u: UpgradeEnv, v0: View, v: View, v': View, stack: seq<string>,
                 installed: Package, p: Package, attempt: Attempt)
    requires Extends(env, v0, v, stack) && TriedForUpgrade(env, universe, v, v', stack, p, attempt)
    requires !u.Equal(p.version, installed.version) && (!u.deep ==> u.leq(installed.version, p.version))
    requires u.Greater(p.version, installed.version) ==> UsersAdmit(env, u, v.available, p)
    ensures Valid(env, universe, v') && Extends(env, v0, v', stack)
    ensures attempt == Fits ==> FitForUpgrade(env, u, v0, v', stack, installed, p)
    ensures attempt == Conflicts <==> !env.ignoreConflicts && IsInConflict(env, p)
    ensures attempt == Conflicts ==> Unchanged(v, v')
    ensures forall x :: TreeDecided(env, v, stack, p, x) ==> attempt == x && (x != Errs ==> Unchanged(v, v'))
    ensures NothingMissing(env, v.provided) && p in env.pool ==> attempt != Errs && Unchanged(v, v')
    ensures Unobstructed(env, v.available) && v.lucky ==> (attempt == Fits || attempt == Conflicts) && v'.lucky
  {
    hide Valid, IsInConflict, UsersAdmit, MetForUpgrade, Extends, Grows, Unobstructed, Admit;
    ExtendsTransitive(env, v0, v, v', stack);
    ExtendsFacts(env, v0, v, stack);
    ExtendsFacts(env, v, v', stack);
    GrowsFacts(env, v0, v, stack);
    if u.Greater(p.version, installed.version) {
      UsersAdmitMore(env, u, v, v', stack, p);
    }
  }

  /** The head of what is not banned is at least as new as the version that matched. */
  lemma HeadIsNotOlder(u: UpgradeEnv, selected: seq<Artifact>, banned: set<string>, idx: nat, installed: string)
    requires (forall a, b :: u.leq(a, b) || u.leq(b, a)) &&
             (forall a, b, c :: u.leq(a, b) && u.leq(b, c) ==> u.leq(a, c))
    requires u.Descending(selected) && idx < |selected| && selected[idx].pkg.version !in banned
    requires u.leq(installed, selected[idx].pkg.version)
    ensures NotBanned(selected, banned) != [] && u.leq(installed, NotBanned(selected, banned)[0].pkg.version)
  {
    var h := FirstNotBanned(selected, banned, idx);
    if h < idx {
      assert u.leq(selected[idx].pkg.version, selected[h].pkg.version);
    }
  }

  /** The versions of n, sorted, and how they come to be the ones that are tried. */
  method SelectVersions(s: Solver, u: UpgradeEnv, n: string, stack: seq<string>, ghost universe: set<string>)
    returns (r: Option<seq<Artifact>>)
    requires Valid(s.env, universe, s.V()) && u.Valid(s.env) && n !in stack && n !in s.candidates
    modifies s`available
    ensures r.Some? ==> Selecting(s.env, u, universe, old(s.V()), s.V(), stack, n, r.value)
    ensures r.None? ==> s.V() == old(s.V())
    ensures r == SortedForUpgrade(s.env, old(s.available), n) && s.lucky == old(s.lucky)
    ensures s.V() == Reordered(s.env, old(s.V()), n)
  {
    hide Valid, Extends, NamedLists, Pooled;
    ghost var v := s.V();
    ValidFacts(s.env, universe, v);
    if n !in s.available {
      return None;
    }
    EnvIsValid(s.env, universe, v);
    AvailableNames(s.env, universe, v, n);
    if s.env.hasRepos {
      s.SortAvailable(n, universe);
      MoreAvailableExtends(s.env, universe, v, s.V(), stack + [n]);
      AvailableNames(s.env, universe, s.V(), n);
      r := Some(s.available[n]);
    } else {
      var sorted := s.GetSortedArtifactsByKey(n);
      ExtendsReflexive(s.env, v, stack + [n]);
      if sorted.None? {
        return None;
      }
      r := sorted;
    }
  }

  lemma MoreAvailableExtends(env: Env, universe: set<string>, v: View, v': View, stack: seq<string>)
    requires Valid(env, universe, v) && MoreAvailable(env, v, v', universe)
    ensures Valid(env, universe, v') && Extends(env, v, v', stack)
  {
    hide Valid, Settled, Grows;
    MoreAvailableGrows(env, universe, v, v', stack);
  }

  lemma AvailableNames(env: Env, universe: set<string>, v: View, n: string)
    requires Valid(env, universe, v) && n in v.available
    ensures n in universe && forall a :: a in v.available[n] ==> a.pkg.name == n && a.pkg in env.pool
    ensures env.sortVersions(v.available[n]).Some? ==> forall a :: a in env.sortVersions(v.available[n]).value ==>
              a in v.available[n]
  {
  }

  /** What a call for n does to the candidates: what is recorded stays, and only n may be new without the record
      of a resolution. */
  ghost predicate Selects(env: Env, universe: set<string>, v: View, v': View, stack: seq<string>, n: string) {
    && Valid(env, universe, v')
    && SubMap(v.candidates, v'.candidates) && v.accepted.Keys <= v'.accepted.Keys
    && (forall k :: k in v'.candidates && k !in v.candidates && k != n ==> k in v'.accepted && k !in stack)
    && (forall k :: k in v.accepted ==> SameRecord(v, v', k))
    && (forall k :: k in v'.accepted && k !in v.accepted ==> NewSince(v, v', stack, k))
    && KnowsMore(env, v, v')
    && (n in v'.candidates && n !in v.candidates && v'.lucky && Settled(v, Done(v, stack)) ==>
          Settled(v', Done(v', stack)))
  }

  lemma SelectsNothing(env: Env, universe: set<string>, v: View, v': View, stack: seq<string>, n: string)
    requires Valid(env, universe, v') && Extends(env, v, v', stack + [n])
    ensures Selects(env, universe, v, v', stack, n) && (n in v'.candidates ==> n in v.candidates)
  {
    hide Unobstructed, Valid;
    GrowsFewer(env, v, v', stack, n);
  }

  lemma SelectedIsValid(env: Env, universe: set<string>, v: View, n: string, arts: seq<Artifact>,
                        provided: map<string, seq<Package>>)
    requires Valid(env, universe, v) && n !in v.candidates && arts != []
    requires forall a :: a in arts ==> a.pkg.name == n && a.pkg in env.pool
    requires ProvidedGrows(v.provided, provided) && ProvidersListed(env, provided)
    ensures Valid(env, universe, v.(candidates := v.candidates[n := arts], provided := provided))
  {
    hide IsInConflict, AdmittedByAll, Env.Valid, RequiresMet, Offers, ProvidersListed, CandidateOk, Ordered;
    var v' := v.(candidates := v.candidates[n := arts], provided := provided);
    forall k | k in v'.accepted ensures CandidateOk(env, v', k) {
      SelectedIsOk(env, v, n, arts, provided, k);
    }
    forall j, k | j in v'.accepted && k in v'.accepted && j != k ensures Ordered(v', j, k) {
      SelectedIsOrdered(v, n, arts, provided, j, k);
    }
  }

  lemma SelectedIsOk(env: Env, v: View, n: string, arts: seq<Artifact>, provided: map<string, seq<Package>>, k: string)
    requires CandidateOk(env, v, k) && n !in v.candidates && ProvidedGrows(v.provided, provided)
    ensures CandidateOk(env, v.(candidates := v.candidates[n := arts], provided := provided), k)
  {
    hide IsInConflict, AdmittedByAll, RequiresMet, Offers;
    RequiresStillMet(env, v, v.(candidates := v.candidates[n := arts], provided := provided), k);
  }

  lemma SelectedIsOrdered(v: View, n: string, arts: seq<Artifact>, provided: map<string, seq<Package>>, j: string,
                          k: string)
    requires Ordered(v, j, k)
    ensures Ordered(v.(candidates := v.candidates[n := arts], provided := provided), j, k)
  {
  }

  lemma SelectsCandidate(env: Env, universe: set<string>, v: View, v': View, v'': View, stack: seq<string>, n: string,
                         arts: seq<Artifact>, provided: map<string, seq<Package>>)
    requires Valid(env, universe, v') && Extends(env, v, v', stack + [n]) && n !in v.candidates
    requires arts != [] && forall a :: a in arts ==> a.pkg.name == n && a.pkg in env.pool
    requires v'' == v'.(candidates := v'.candidates[n := arts], provided := provided)
    requires ProvidedGrows(v'.provided, provided) && ProvidersListed(env, provided)
    ensures Selects(env, universe, v, v'', stack, n) && v''.candidates[n] == arts
  {
    hide Valid, Unobstructed, NewSince, SameRecord, Settled, Done;
    GrowsFewer(env, v, v', stack, n);
    SelectedIsValid(env, universe, v', n, arts, provided);
    SameRecords(v, v', v'', stack);
    if Settled(v, Done(v, stack)) {
      SettledDeeper(v, stack, n);
      SettledAfterWrite(v', v'', stack, n, arts);
    }
  }

  /** Writing a candidate and its provides leaves the records as they are. */
  lemma SameRecords(v: View, v': View, v'': View, stack: seq<string>)
    requires v'' == v'.(candidates := v''.candidates, provided := v''.provided)
    ensures forall k :: SameRecord(v, v'', k) <==> SameRecord(v, v', k)
    ensures forall k :: NewSince(v, v'', stack, k) <==> NewSince(v, v', stack, k)
  {
  }

  lemma SettledAfterWrite(v': View, v'': View, stack: seq<string>, n: string, arts: seq<Artifact>)
    requires v'' == v'.(candidates := v'.candidates[n := arts], provided := v''.provided)
    ensures Settled(v', Done(v', stack + [n])) ==> Settled(v'', Done(v'', stack))
  {
    assert forall x :: x in stack + [n] <==> x in stack || x == n;
    assert Done(v'', stack) == Done(v', stack + [n]);
  }

  datatype Found = Matched | Nothing | Aborted

  /** What becomes of one version: it matches, it is skipped or banned, it ends the search, or it aborts it. */
  datatype Step = Match | Skip | Ban | Stop | Abort

  /** What becomes of the version, if that is decided at entry: it does not parse; or it is newer, and its users and the
      tree decide; or it is the installed one with other requires, and these decide; or it is older and the deep
      option is set, and the tree decides. */
  ghost predicate StepDecided(env: Env, u: UpgradeEnv, v: View, stack: seq<string>, installed: Package, p: Package,
                              foundEqual: bool, r: Step) {
    if !env.g.parses(p.ToAtom()) then r == Abort
    else if u.Greater(p.version, installed.version) then NewerDecided(env, u, v, stack, p, r)
    else if u.Equal(p.version, installed.version) then
      if u.hash(p) == u.hash(installed) then r == Stop
      else
        || (r == Match && DepsDecided(env, v, stack, p, DepsAdmitted))
        || (r == Ban && DepsDecided(env, v, stack, p, DepsRejected))
        || (r == Abort && DepsDecided(env, v, stack, p, DepsError))
    else if u.deep && !foundEqual then
      || (r == Match && TreeDecided(env, v, stack, p, Fits))
      || (r == Ban && (TreeDecided(env, v, stack, p, Conflicts) || TreeDecided(env, v, stack, p, NotAdmitted)))
      || (r == Abort && TreeDecided(env, v, stack, p, Errs))
    else r == Ban
  }

  ghost predicate NewerDecided(env: Env, u: UpgradeEnv, v: View, stack: seq<string>, p: Package, r: Step) {
    && !UserFails(env, u, v.available, p)
    && if !UsersAdmit(env, u, v.available, p) then r == Skip
       else
         || (r == Match && TreeDecided(env, v, stack, p, Fits))
         || (r == Ban && TreeDecided(env, v, stack, p, Conflicts))
         || (r == Skip && TreeDecided(env, v, stack, p, NotAdmitted))
         || (r == Abort && TreeDecided(env, v, stack, p, Errs))
  }

  lemma NoStepFails(env: Env, u: UpgradeEnv, universe: set<string>, v: View, stack: seq<string>, p: Package)
    requires Valid(env, universe, v) && Under(env, stack, p)
    ensures NothingMissing(env, v.provided) ==> env.g.parses(p.ToAtom()) && !UserFails(env, u, v.available, p)
  {
    hide Valid, Admit, NothingMissing;
    if NothingMissing(env, v.provided) {
      NoVerdictFails(env, universe, v, p);
    }
  }

  /** One version of the list. */
  method TryForUpgrade(s: Solver, u: UpgradeEnv, installed: Package, p: Package, foundEqual: bool, stack: seq<string>,
                       ghost universe: set<string>, ghost v0: View) returns (r: Step)
    requires Valid(s.env, universe, s.V()) && StackOk(stack, universe) && Under(s.env, stack, p)
    requires Extends(s.env, v0, s.V(), stack) && u.Valid(s.env)
    modifies s
    ensures Valid(s.env, universe, s.V()) && Extends(s.env, v0, s.V(), stack)
    ensures r == Match ==> s.env.g.parses(p.ToAtom()) && FitForUpgrade(s.env, u, v0, s.V(), stack, installed, p)
    ensures r == Ban || r == Stop ==>
              u.leq(p.version, installed.version) || (!s.env.ignoreConflicts && IsInConflict(s.env, p))
    ensures Unobstructed(s.env, old(s.available)) && old(s.lucky) && Welcome(s.env, u, installed, p) ==>
              r == Match && s.lucky
    ensures r == Match && foundEqual ==> u.leq(installed.version, p.version)
    ensures s.env.g.parses(p.ToAtom()) && SameBuild(u, p, installed) ==> r == Stop
    ensures PassedOver(s.env, u, installed, p) ==> r != Abort && r != Match && Unchanged(old(s.V()), s.V())
    ensures forall x :: StepDecided(s.env, u, old(s.V()), stack, installed, p, foundEqual, x) ==>
              r == x && (x != Abort ==> Unchanged(old(s.V()), s.V()))
    ensures NothingMissing(s.env, old(s.provided)) ==> r != Abort && Unchanged(old(s.V()), s.V())
  {
    hide Valid, Extends, StackOk, IsInConflict, AdmittedByAll, MetForUpgrade, UsersAdmit, UsersAdmitNow, Unobstructed,
      FitForUpgrade, TriedForUpgrade, Unchanged, TreeDecided, DepsDecided, RejectsForUpgrade, NothingMissing, UserFails;
    ghost var v := s.V();
    StartsUnchanged(v);
    NoStepFails(s.env, u, universe, v, stack, p);
    if !s.env.g.parses(p.ToAtom()) {
      return Abort;
    }
    if u.Greater(p.version, installed.version) {
      var users := UsersAdmitNew(s, u, p);
      if users != Admitted {
        return if users == Failed then Abort else Skip;
      }
      var attempt := CheckTree(s, p, stack, universe);
      TreeFits(s.env, universe, u, v0, v, s.V(), stack, installed, p, attempt);
      r := match attempt case Fits => Match case Conflicts => Ban case NotAdmitted => Skip case Errs => Abort;
    } else if u.Equal(p.version, installed.version) {
      if u.hash(p) == u.hash(installed) {
        return Stop;
      }
      // The same version with other requires.
      var o := ProcessArtefactDeps4Upgrade(s, p, stack, universe);
      SameVersionFits(s.env, u, v0, v, s.V(), stack, installed, p, o);
      r := match o case DepsAdmitted => Match case DepsRejected => Ban case DepsError => Abort;
    } else if u.deep && !foundEqual {
      var attempt := CheckTree(s, p, stack, universe);
      TreeFits(s.env, universe, u, v0, v, s.V(), stack, installed, p, attempt);
      r := match attempt case Fits => Match case Errs => Abort case _ => Ban;
    } else {
      r := Ban;
    }
  }

  // ---------- a search decided at entry ----------

  ghost predicate EqualBefore(u: UpgradeEnv, selected: seq<Artifact>, i: nat, installed: string)
    requires i <= |selected|
  {
    exists j :: 0 <= j < i && u.Equal(selected[j].pkg.version, installed)
  }

  ghost predicate DecidedAt(env: Env, u: UpgradeEnv, v: View, stack: seq<string>, installed: Package,
                            selected: seq<Artifact>, i: nat, r: Step)
    requires i < |selected|
  {
    StepDecided(env, u, v, stack, installed, selected[i].pkg, EqualBefore(u, selected, i, installed.version), r)
  }

  /** The versions before i that are banned. */
  ghost function BannedNow(env: Env, u: UpgradeEnv, v: View, stack: seq<string>, installed: Package,
                           selected: seq<Artifact>, i: nat): set<string>
    requires i <= |selected|
  {
    set j | 0 <= j < i && DecidedAt(env, u, v, stack, installed, selected, j, Ban) :: selected[j].pkg.version
  }

  /** The version at i parses and is banned before. */
  ghost predicate BannedAt(env: Env, u: UpgradeEnv, v: View, stack: seq<string>, installed: Package,
                           selected: seq<Artifact>, i: nat)
    requires i < |selected|
  {
    env.g.parses(selected[i].pkg.ToAtom()) &&
    selected[i].pkg.version in BannedNow(env, u, v, stack, installed, selected, i)
  }

  /** Each version before n is banned or skipped. */
  ghost predicate PassedTo(env: Env, u: UpgradeEnv, v: View, stack: seq<string>, installed: Package,
                           selected: seq<Artifact>, n: nat)
  {
    n <= |selected| &&
    forall j :: 0 <= j < n ==>
      || BannedAt(env, u, v, stack, installed, selected, j)
      || DecidedAt(env, u, v, stack, installed, selected, j, Skip)
      || DecidedAt(env, u, v, stack, installed, selected, j, Ban)
  }

  /** The search ends at i: each version before is banned or skipped, and this one matches, or stops or aborts it. */
  ghost predicate EndsAt(env: Env, u: UpgradeEnv, v: View, stack: seq<string>, installed: Package,
                         selected: seq<Artifact>, i: nat, r: Step) {
    && i < |selected| && PassedTo(env, u, v, stack, installed, selected, i)
    && !BannedAt(env, u, v, stack, installed, selected, i)
    && DecidedAt(env, u, v, stack, installed, selected, i, r) && r != Skip && r != Ban
  }

  lemma StepTaken(env: Env, u: UpgradeEnv, v: View, stack: seq<string>, installed: Package, selected: seq<Artifact>,
                  i: nat, banned: set<string>, r: Step)
    requires i < |selected|
    requires PassedTo(env, u, v, stack, installed, selected, i) ==>
               banned == BannedNow(env, u, v, stack, installed, selected, i)
    requires if selected[i].pkg.version in banned && env.g.parses(selected[i].pkg.ToAtom()) then r == Skip
             else PassedTo(env, u, v, stack, installed, selected, i) ==>
                    forall x :: DecidedAt(env, u, v, stack, installed, selected, i, x) ==> r == x
    ensures PassedTo(env, u, v, stack, installed, selected, i + 1) ==>
              && PassedTo(env, u, v, stack, installed, selected, i) && (r == Skip || r == Ban)
              && BannedNow(env, u, v, stack, installed, selected, i + 1) ==
                 if r == Ban then banned + {selected[i].pkg.version} else banned
    ensures PassedTo(env, u, v, stack, installed, selected, i + 1) ==>
              || (selected[i].pkg.version in banned && env.g.parses(selected[i].pkg.ToAtom()))
              || DecidedAt(env, u, v, stack, installed, selected, i, r)
    ensures forall x :: EndsAt(env, u, v, stack, installed, selected, i, x) ==>
              && r == x && banned == BannedNow(env, u, v, stack, installed, selected, i)
              && DecidedAt(env, u, v, stack, installed, selected, i, x)
              && PassedTo(env, u, v, stack, installed, selected, i)
    ensures r == Skip || r == Ban ==> forall k: nat, x :: EndsAt(env, u, v, stack, installed, selected, k, x) ==> k != i
    ensures r != Skip && r != Ban ==>
              && !PassedTo(env, u, v, stack, installed, selected, |selected|)
              && forall k: nat, x :: EndsAt(env, u, v, stack, installed, selected, k, x) ==> k <= i
  {
    hide DecidedAt;
    if PassedTo(env, u, v, stack, installed, selected, i + 1) {
      NextBannedNow(env, u, v, stack, installed, selected, i);
    }
    forall k: nat, x | k > i && EndsAt(env, u, v, stack, installed, selected, k, x)
      ensures PassedTo(env, u, v, stack, installed, selected, i + 1)
    {
    }
  }

  lemma NextBannedNow(env: Env, u: UpgradeEnv, v: View, stack: seq<string>, installed: Package,
                      selected: seq<Artifact>, i: nat)
    requires i < |selected|
    ensures BannedNow(env, u, v, stack, installed, selected, i + 1) ==
            BannedNow(env, u, v, stack, installed, selected, i) +
            if DecidedAt(env, u, v, stack, installed, selected, i, Ban) then {selected[i].pkg.version} else {}
  {
    hide DecidedAt;
  }

  /** What the search comes to if it ends at i, or if all versions are passed. */
  ghost predicate EndsRight(env: Env, u: UpgradeEnv, v: View, v': View, stack: seq<string>, installed: Package,
                            selected: seq<Artifact>, found: Found, banned: set<string>, idx: nat) {
    && (forall i :: EndsAt(env, u, v, stack, installed, selected, i, Match) ==>
          found == Matched && idx == i && banned == BannedNow(env, u, v, stack, installed, selected, i) &&
          Unchanged(v, v'))
    && (forall i :: EndsAt(env, u, v, stack, installed, selected, i, Stop) ==> found == Nothing && Unchanged(v, v'))
    && (forall i :: EndsAt(env, u, v, stack, installed, selected, i, Abort) ==> found == Aborted)
    && (PassedTo(env, u, v, stack, installed, selected, |selected|) ==> found == Nothing && Unchanged(v, v'))
  }

  lemma EndsHere(env: Env, u: UpgradeEnv, v: View, v': View, stack: seq<string>, installed: Package,
                 selected: seq<Artifact>, i: nat, banned: set<string>, r: Step, found: Found, banned': set<string>)
    requires forall k: nat, x :: EndsAt(env, u, v, stack, installed, selected, k, x) ==> k == i && r == x
    requires forall x :: EndsAt(env, u, v, stack, installed, selected, i, x) ==>
               banned == BannedNow(env, u, v, stack, installed, selected, i) && (x != Abort ==> Unchanged(v, v'))
    requires !PassedTo(env, u, v, stack, installed, selected, |selected|)
    requires match r case Match => found == Matched && banned' == banned case Stop => found == Nothing
                     case Abort => found == Aborted case _ => false
    ensures EndsRight(env, u, v, v', stack, installed, selected, found, banned', i)
  {
    hide EndsAt, PassedTo, BannedNow, Unchanged;
  }

  /** The version that is installed, with the same requires. */
  ghost predicate SameBuild(u: UpgradeEnv, p: Package, installed: Package) {
    u.Equal(p.version, installed.version) && u.hash(p) == u.hash(installed)
  }

  /** The installed build is not among the first i artefacts, but for a version that was listed before it. */
  ghost predicate NoStopBefore(env: Env, u: UpgradeEnv, selected: seq<Artifact>, i: nat, installed: Package)
    requires i <= |selected|
  {
    forall j :: 0 <= j < i && env.g.parses(selected[j].pkg.ToAtom()) && SameBuild(u, selected[j].pkg, installed) ==>
      ListedBefore(selected, j, selected[j].pkg.version)
  }

  ghost predicate ListedBefore(selected: seq<Artifact>, i: nat, version: string)
    requires i <= |selected|
  {
    exists k :: 0 <= k < i && selected[k].pkg.version == version
  }

  ghost predicate AllListedBefore(selected: seq<Artifact>, i: nat, versions: set<string>)
    requires i <= |selected|
  {
    forall x :: x in versions ==> ListedBefore(selected, i, x)
  }

  lemma NextUnstopped(env: Env, u: UpgradeEnv, selected: seq<Artifact>, i: nat, installed: Package, banned: set<string>,
                      r: Step)
    requires i < |selected| && NoStopBefore(env, u, selected, i, installed)
    requires AllListedBefore(selected, i, banned)
    requires (selected[i].pkg.version in banned || !env.g.parses(selected[i].pkg.ToAtom())
              || !SameBuild(u, selected[i].pkg, installed)) || r == Stop
    ensures r != Stop ==> NoStopBefore(env, u, selected, i + 1, installed)
    ensures AllListedBefore(selected, i + 1, banned)
    ensures AllListedBefore(selected, i + 1, banned + {selected[i].pkg.version})
  {
    hide SameBuild;
    forall x | x in banned ensures ListedBefore(selected, i + 1, x) {
      var k :| 0 <= k < i && selected[k].pkg.version == x;
    }
  }

  lemma EqualSoFar(u: UpgradeEnv, selected: seq<Artifact>, i: nat, installed: string)
    requires i < |selected|
    ensures EqualBefore(u, selected, i + 1, installed) <==>
              EqualBefore(u, selected, i, installed) || u.Equal(selected[i].pkg.version, installed)
  {
  }

  /** The version at i is decided now as at the start, when nothing has changed. */
  lemma DecidedNow(env: Env, u: UpgradeEnv, v: View, v': View, stack: seq<string>, installed: Package,
                   selected: seq<Artifact>, i: nat)
    requires i < |selected| && Unchanged(v, v')
    ensures forall x :: DecidedAt(env, u, v, stack, installed, selected, i, x) ==>
              StepDecided(env, u, v', stack, installed, selected[i].pkg,
                          EqualBefore(u, selected, i, installed.version), x)
  {
    hide StepDecided;
  }

  /** The loop over the versions before it tries the one at i, with regard to what is decided at the start. */
  ghost predicate Searching(env: Env, u: UpgradeEnv, start: View, v: View, stack: seq<string>, installed: Package,
                            selected: seq<Artifact>, i: nat, banned: set<string>, foundEqual: bool) {
    && i <= |selected| && foundEqual == EqualBefore(u, selected, i, installed.version)
    && (PassedTo(env, u, start, stack, installed, selected, i) ==>
          banned == BannedNow(env, u, start, stack, installed, selected, i) && Unchanged(start, v))
    && (forall k: nat, x :: EndsAt(env, u, start, stack, installed, selected, k, x) ==> i <= k)
    && (NothingMissing(env, start.provided) ==> Unchanged(start, v))
    && NoStopBefore(env, u, selected, i, installed) && AllListedBefore(selected, i, banned)
  }

  /** What becomes of one version: it is skipped if it is banned, or else tried. */
  ghost predicate Stepped(env: Env, u: UpgradeEnv, v: View, v': View, stack: seq<string>, installed: Package,
                          p: Package, banned: set<string>, foundEqual: bool, r: Step) {
    if p.version in banned && env.g.parses(p.ToAtom()) then r == Skip && Unchanged(v, v')
    else
      && (forall x :: StepDecided(env, u, v, stack, installed, p, foundEqual, x) ==>
            r == x && (x != Abort ==> Unchanged(v, v')))
      && (env.g.parses(p.ToAtom()) && SameBuild(u, p, installed) ==> r == Stop)
      && (NothingMissing(env, v.provided) ==> r != Abort && Unchanged(v, v'))
  }

  lemma SearchStart(env: Env, u: UpgradeEnv, start: View, stack: seq<string>, installed: Package,
                    selected: seq<Artifact>)
    ensures Searching(env, u, start, start, stack, installed, selected, 0, {}, false)
  {
    hide DecidedAt, NothingMissing, SameBuild;
  }

  lemma SearchStep(env: Env, u: UpgradeEnv, start: View, v: View, v': View, stack: seq<string>, installed: Package,
                   selected: seq<Artifact>, i: nat, banned: set<string>, foundEqual: bool, r: Step)
    requires i < |selected| && Searching(env, u, start, v, stack, installed, selected, i, banned, foundEqual)
    requires Stepped(env, u, v, v', stack, installed, selected[i].pkg, banned, foundEqual, r)
    ensures foundEqual == EqualBefore(u, selected, i, installed.version)
    ensures NoStopBefore(env, u, selected, i, installed)
    ensures NothingMissing(env, start.provided) ==> r != Abort && Unchanged(start, v')
    ensures var later := banned + {selected[i].pkg.version};
      match r
      case Skip => Searching(env, u, start, v', stack, installed, selected, i + 1, banned,
                             foundEqual || u.Equal(selected[i].pkg.version, installed.version))
      case Ban => Searching(env, u, start, v', stack, installed, selected, i + 1, later,
                            foundEqual || u.Equal(selected[i].pkg.version, installed.version))
      case Match => EndsRight(env, u, start, v', stack, installed, selected, Matched, banned, i)
      case Stop => EndsRight(env, u, start, v', stack, installed, selected, Nothing, later, i)
      case Abort => EndsRight(env, u, start, v', stack, installed, selected, Aborted, banned, i)
  {
    hide StepDecided, DecidedAt, EqualBefore, BannedNow, PassedTo, EndsAt, EndsRight, NothingMissing, UpgradeEnv.Equal,
      SameBuild, NoStopBefore, AllListedBefore, Unchanged;
    StaysUnchanged(start, v);
    EqualSoFar(u, selected, i, installed.version);
    if Unchanged(start, v) {
      DecidedNow(env, u, start, v, stack, installed, selected, i);
    }
    StepTaken(env, u, start, stack, installed, selected, i, banned, r);
    NextUnstopped(env, u, selected, i, installed, banned, r);
    match r
    case Match => EndsHere(env, u, start, v', stack, installed, selected, i, banned, r, Matched, banned);
    case Abort => EndsHere(env, u, start, v', stack, installed, selected, i, banned, r, Aborted, banned);
    case Stop =>
      EndsHere(env, u, start, v', stack, installed, selected, i, banned, r, Nothing,
               banned + {selected[i].pkg.version});
    case _ =>
  }

  lemma SearchEnd(env: Env, u: UpgradeEnv, start: View, v: View, stack: seq<string>, installed: Package,
                  selected: seq<Artifact>, banned: set<string>, foundEqual: bool, idx: nat)
    requires Searching(env, u, start, v, stack, installed, selected, |selected|, banned, foundEqual)
    ensures EndsRight(env, u, start, v, stack, installed, selected, Nothing, banned, idx)
    ensures NothingMissing(env, start.provided) ==> Unchanged(start, v)
  {
    hide EqualBefore, BannedNow, PassedTo, EndsAt, EndsRight, NothingMissing, NoStopBefore, AllListedBefore, Unchanged;
    NeverEnds(env, u, start, v, stack, installed, selected, banned, idx);
  }

  /** The loop over the versions: the first one that is good for the upgrade, and the versions to ban. */
  method FindMatch(s: Solver, u: UpgradeEnv, n: string, installed: Package, selected: seq<Artifact>, stack: seq<string>,
                   ghost universe: set<string>, ghost v0: View)
    returns (found: Found, banned: set<string>, ghost idx: nat)
    requires Selecting(s.env, u, universe, v0, s.V(), stack, n, selected) && StackOk(stack, universe)
    requires Chain(s.env, stack + [n])
    requires u.Valid(s.env)
    modifies s
    ensures Selecting(s.env, u, universe, v0, s.V(), stack, n, selected)
    ensures BannedForUpgrade(s.env, u, selected, banned, installed.version)
    ensures found == Matched ==>
              && idx < |selected| && selected[idx].pkg.version !in banned
              && FitForUpgrade(s.env, u, v0, s.V(), stack + [n], installed, selected[idx].pkg)
              && (EqualBefore(u, selected, idx, installed.version) ==>
                    u.leq(installed.version, selected[idx].pkg.version))
              && NoStopBefore(s.env, u, selected, idx, installed)
    ensures Unobstructed(s.env, old(s.available)) && old(s.lucky) && selected != [] &&
            Welcome(s.env, u, installed, selected[0].pkg) ==>
              found == Matched && idx == 0 && banned == {} && s.lucky
    ensures AllPassedOver(s.env, u, installed, selected) ==> found == Nothing && Unchanged(old(s.V()), s.V())
    ensures EndsRight(s.env, u, old(s.V()), s.V(), stack + [n], installed, selected, found, banned, idx)
    ensures NothingMissing(s.env, old(s.provided)) ==> found != Aborted && Unchanged(old(s.V()), s.V())
  {
    hide Valid, Extends, StackOk, IsInConflict, Unobstructed, UpgradeEnv.Valid, BannedForUpgrade, FitForUpgrade,
      AllPassedOver, PassedOver, Welcome, Unchanged, StepDecided, EqualBefore, EndsRight, NothingMissing,
      UpgradeEnv.Equal, Chain, SameBuild, NoStopBefore, Searching;
    ghost var start := s.V();
    StartsUnchanged(start);
    banned := {};
    idx := 0;
    var foundEqual := false;
    var i := 0;
    PushedStack(universe, stack, n);
    NothingBanned(s.env, u, selected, installed.version);
    SearchStart(s.env, u, start, stack + [n], installed, selected);
    while i < |selected|
      invariant i <= |selected| && BannedForUpgrade(s.env, u, selected, banned, installed.version)
      invariant Selecting(s.env, u, universe, v0, s.V(), stack, n, selected)
      invariant Searching(s.env, u, start, s.V(), stack + [n], installed, selected, i, banned, foundEqual)
      invariant i == 0 ==> banned == {} && s.V() == start
      invariant AllPassedOver(s.env, u, installed, selected) ==> Unchanged(start, s.V())
      invariant i > 0 ==> !(Unobstructed(s.env, start.available) && start.lucky &&
                            Welcome(s.env, u, installed, selected[0].pkg))
    {
      ghost var v := s.V();
      var p := selected[i].pkg;
      assert selected[i] in selected;
      PassedAt(s.env, u, installed, selected, i);
      StaysUnchanged(start, v);
      StartsUnchanged(v);
      var r := Skip;
      if p.version !in banned || !s.env.g.parses(p.ToAtom()) {
        ChainUnder(s.env, stack, n, p);
        r := TryForUpgrade(s, u, installed, p, foundEqual, stack + [n], universe, v0);
      }
      SearchStep(s.env, u, start, v, s.V(), stack + [n], installed, selected, i, banned, foundEqual, r);
      foundEqual := foundEqual || u.Equal(p.version, installed.version);
      if r == Match {
        return Matched, banned, i;
      }
      if r == Abort {
        return Aborted, banned, i;
      }
      if r == Ban || r == Stop {
        BanVersion(s.env, u, selected, banned, installed.version, i);
        banned := banned + {p.version};
      }
      if r == Stop {
        return Nothing, banned, i;
      }
      i := i + 1;
    }
    SearchEnd(s.env, u, start, s.V(), stack + [n], installed, selected, banned, foundEqual, idx);
    return Nothing, banned, idx;
  }

  lemma NeverEnds(env: Env, u: UpgradeEnv, v: View, v': View, stack: seq<string>, installed: Package,
                  selected: seq<Artifact>, banned: set<string>, idx: nat)
    requires forall k: nat, x :: EndsAt(env, u, v, stack, installed, selected, k, x) ==> |selected| <= k
    requires PassedTo(env, u, v, stack, installed, selected, |selected|) ==> Unchanged(v, v')
    ensures EndsRight(env, u, v, v', stack, installed, selected, Nothing, banned, idx)
  {
    hide PassedTo, BannedNow, DecidedAt, BannedAt, Unchanged;
  }

  lemma StartsUnchanged(v: View)
    ensures Unchanged(v, v)
  {
  }

  lemma StaysUnchanged(v0: View, v: View)
    ensures forall v' :: Unchanged(v0, v) && Unchanged(v, v') ==> Unchanged(v0, v')
    ensures Unchanged(v0, v) ==> v0.provided == v.provided
  {
  }

  lemma NothingBanned(env: Env, u: UpgradeEnv, selected: seq<Artifact>, installed: string)
    ensures BannedForUpgrade(env, u, selected, {}, installed)
  {
  }

  lemma SameVersionFits(env: Env, u: UpgradeEnv, v0: View, v: View, v': View, stack: seq<string>, installed: Package,
                        p: Package, o: DepsOutcome)
    requires Extends(env, v0, v, stack) && Extends(env, v, v', stack) &&
             (o == DepsAdmitted ==> MetForUpgrade(env, v', stack, p, |p.deps|))
    requires u.Equal(p.version, installed.version) && u.hash(p) != u.hash(installed)
    ensures Extends(env, v0, v', stack)
    ensures o == DepsAdmitted ==> FitForUpgrade(env, u, v0, v', stack, installed, p)
  {
    hide Extends, MetForUpgrade, IsInConflict, AdmittedByAll, UsersAdmit;
    ExtendsTransitive(env, v0, v, v', stack);
  }

  /** With repositories, what is available for n is sorted in place. */
  ghost function Reordered(env: Env, v: View, n: string): View {
    if env.hasRepos && n in v.available then v.(available := v.available[n := env.sortRepos(v.available[n])]) else v
  }

  /** The order of what is available decides nothing. */
  lemma OrderDecidesNothing(env: Env, u: UpgradeEnv, universe: set<string>, v: View, n: string, stack: seq<string>,
                            installed: Package, p: Package, foundEqual: bool, r: Step)
    requires Valid(env, universe, v)
    ensures StepDecided(env, u, v, stack, installed, p, foundEqual, r) <==>
              StepDecided(env, u, Reordered(env, v, n), stack, installed, p, foundEqual, r)
  {
    hide Valid, IsInConflict, Admit, RejectedByQueue, FailsInQueue, AdmittedByAll, DepsDecided, UserFails, UsersAdmit,
      Reordered;
    SameMembers(env, universe, v, n);
    var v' := Reordered(env, v, n);
    SameUsers(env, u, v, v', p);
    forall o ensures DepsDecided(env, v, stack, p, o) <==> DepsDecided(env, v', stack, p, o) {
      SameDeps(env, v, v', stack, p, o);
    }
  }

  ghost predicate SameOffer(v: View, v': View) {
    && v' == v.(available := v'.available) && v'.available.Keys == v.available.Keys
    && forall k, a :: k in v.available ==> (a in v'.available[k] <==> a in v.available[k])
  }

  lemma SameMembers(env: Env, universe: set<string>, v: View, n: string)
    requires Valid(env, universe, v)
    ensures SameOffer(v, Reordered(env, v, n))
  {
    hide CandidateOk, Ordered, ProvidersListed, NamedLists, Pooled;
    if env.hasRepos && n in v.available {
      var arts := v.available[n];
      assert multiset(env.sortRepos(arts)) == multiset(arts);
      forall a ensures a in env.sortRepos(arts) <==> a in arts {
        assert a in env.sortRepos(arts) <==> a in multiset(env.sortRepos(arts));
        assert a in arts <==> a in multiset(arts);
      }
    }
  }

  lemma SameUsers(env: Env, u: UpgradeEnv, v: View, v': View, p: Package)
    requires SameOffer(v, v')
    ensures UsersAdmit(env, u, v.available, p) <==> UsersAdmit(env, u, v'.available, p)
    ensures UserFails(env, u, v.available, p) <==> UserFails(env, u, v'.available, p)
  {
    hide Admit;
    forall user ensures UserAdmits(env, v.available, user, p) <==> UserAdmits(env, v'.available, user, p) {
    }
  }

  lemma SameDeps(env: Env, v: View, v': View, stack: seq<string>, p: Package, o: DepsOutcome)
    requires SameOffer(v, v')
    ensures DepsDecided(env, v, stack, p, o) <==> DepsDecided(env, v', stack, p, o)
  {
    hide SettledForUpgrade, RejectsForUpgrade, ErrsForUpgrade;
    forall r
      ensures SettledForUpgrade(env, v, stack, p, r) <==> SettledForUpgrade(env, v', stack, p, r)
      ensures RejectsForUpgrade(env, v, p, r) <==> RejectsForUpgrade(env, v', p, r)
      ensures ErrsForUpgrade(env, v, stack, p, r) <==> ErrsForUpgrade(env, v', stack, p, r)
    {
      SameRequire(env, v, v', stack, p, r);
    }
  }

  lemma SameRequire(env: Env, v: View, v': View, stack: seq<string>, p: Package, r: Atom)
    requires SameOffer(v, v')
    ensures SettledForUpgrade(env, v, stack, p, r) <==> SettledForUpgrade(env, v', stack, p, r)
    ensures RejectsForUpgrade(env, v, p, r) <==> RejectsForUpgrade(env, v', p, r)
    ensures ErrsForUpgrade(env, v, stack, p, r) <==> ErrsForUpgrade(env, v', stack, p, r)
  {
    hide Admit, ProvidedFor;
  }

  lemma SameEnds(env: Env, u: UpgradeEnv, universe: set<string>, v: View, n: string, stack: seq<string>,
                 installed: Package, selected: seq<Artifact>)
    requires Valid(env, universe, v)
    ensures forall i: nat, x :: EndsAt(env, u, v, stack, installed, selected, i, x) ==>
              i < |selected| && EndsAt(env, u, Reordered(env, v, n), stack, installed, selected, i, x)
    ensures forall i: nat :: i <= |selected| ==>
              BannedNow(env, u, v, stack, installed, selected, i) ==
              BannedNow(env, u, Reordered(env, v, n), stack, installed, selected, i)
    ensures PassedTo(env, u, v, stack, installed, selected, |selected|) <==>
              PassedTo(env, u, Reordered(env, v, n), stack, installed, selected, |selected|)
  {
    hide Valid, StepDecided, EqualBefore, Reordered;
    var v' := Reordered(env, v, n);
    forall i: nat, x | i < |selected|
      ensures DecidedAt(env, u, v, stack, installed, selected, i, x) <==>
                DecidedAt(env, u, v', stack, installed, selected, i, x)
    {
      OrderDecidesNothing(env, u, universe, v, n, stack, installed, selected[i].pkg,
                          EqualBefore(u, selected, i, installed.version), x);
    }
    hide DecidedAt;
    forall i: nat | i <= |selected|
      ensures BannedNow(env, u, v, stack, installed, selected, i) ==
              BannedNow(env, u, v', stack, installed, selected, i)
    {
    }
    forall i: nat ensures PassedTo(env, u, v, stack, installed, selected, i) <==>
                            PassedTo(env, u, v', stack, installed, selected, i)
    {
    }
  }

  /** What the check of an installed package comes to: an error if it is not installed or has no sorted versions;
      the versions not banned and what the first of them provides, if the search ends with a match; nothing new, if it
      stops or passes all; an error, if it aborts; and no error, if nothing is missing. */
  ghost predicate CheckRight(env: Env, u: UpgradeEnv, v: View, v': View, stack: seq<string>, n: string, ok: bool) {
    var sorted := SortedForUpgrade(env, v.available, n);
    if sorted.None? || n !in env.system || env.system[n] == [] then !ok
    else
      var installed, selected, pushed := env.system[n][0], sorted.value, stack + [n];
      && (forall i: nat :: EndsAt(env, u, v, pushed, installed, selected, i, Match) ==>
            ok && Picked(Reordered(env, v, n), v', n,
                         NotBanned(selected, BannedNow(env, u, v, pushed, installed, selected, i))))
      && (forall i: nat :: EndsAt(env, u, v, pushed, installed, selected, i, Stop) ==>
            ok && Unchanged(Reordered(env, v, n), v'))
      && (forall i: nat :: EndsAt(env, u, v, pushed, installed, selected, i, Abort) ==> !ok)
      && (PassedTo(env, u, v, pushed, installed, selected, |selected|) ==> ok && Unchanged(Reordered(env, v, n), v'))
      && (NothingMissing(env, v.provided) ==> ok)
  }

  /** The artefacts are stored for n, with what the first of them provides, and nothing else is new. */
  ghost predicate Picked(v: View, v': View, n: string, arts: seq<Artifact>) {
    && v' == v.(candidates := v.candidates[n := arts], provided := v'.provided)
    && ProvidesAdded(v.provided, v'.provided, arts)
  }

  lemma ChecksRight(env: Env, u: UpgradeEnv, universe: set<string>, v0: View, v: View, v': View, stack: seq<string>,
                    n: string, selected: seq<Artifact>, found: Found, banned: set<string>, idx: nat, ok: bool)
    requires Valid(env, universe, v0)
    requires SortedForUpgrade(env, v0.available, n) == Some(selected) && n in env.system && env.system[n] != []
    requires EndsRight(env, u, Reordered(env, v0, n), v, stack + [n], env.system[n][0], selected, found, banned, idx)
    requires NothingMissing(env, v0.provided) ==> found != Aborted
    requires ok == (found != Aborted)
    requires if found == Matched then Picked(v, v', n, NotBanned(selected, banned)) else v' == v
    ensures CheckRight(env, u, v0, v', stack, n, ok)
  {
    hide Valid, EndsAt, PassedTo, BannedNow, SortedForUpgrade, NothingMissing, NotBanned, ProvidesAdded, Reordered;
    SameEnds(env, u, universe, v0, n, stack + [n], env.system[n][0], selected);
  }

  lemma CannotCheck(env: Env, u: UpgradeEnv, v: View, v': View, stack: seq<string>, n: string)
    requires SortedForUpgrade(env, v.available, n).None? || n !in env.system || env.system[n] == []
    ensures CheckRight(env, u, v, v', stack, n, false)
  {
    hide SortedForUpgrade;
  }

  /** What is stored for an installed package: of the available versions all newer ones that are in no conflict,
      and a version that fits.  The head is not older than the installed version without the deep option, nor when
      the installed version is available. */
  ghost predicate UpgradeCandidate(env: Env, u: UpgradeEnv, v0: View, v: View, stack: seq<string>, n: string) {
    && n in v.candidates && v.candidates[n] != [] && n in env.system && env.system[n] != []
    && var installed, arts := env.system[n][0], v.candidates[n];
       && (!u.deep ==> u.leq(installed.version, arts[0].pkg.version))
       && (exists a :: a in arts && FitForUpgrade(env, u, v0, v, stack, installed, a.pkg))
       && SortedForUpgrade(env, v0.available, n).Some?
       && OffersUpgrade(env, u, SortedForUpgrade(env, v0.available, n).value, arts, installed.version)
       && (HasVersion(u, SortedForUpgrade(env, v0.available, n).value, installed.version) ==>
             u.leq(installed.version, arts[0].pkg.version))
  }

  ghost predicate HasVersion(u: UpgradeEnv, arts: seq<Artifact>, version: string) {
    exists a :: a in arts && u.Equal(a.pkg.version, version)
  }

  /** In a descending list what stands before the installed version is not older. */
  lemma BeforeInstalled(u: UpgradeEnv, selected: seq<Artifact>, idx: nat, installed: string)
    requires u.Descending(selected) && forall a, b, c :: u.leq(a, b) && u.leq(b, c) ==> u.leq(a, c)
    requires idx < |selected|
    requires EqualBefore(u, selected, idx, installed) ==> u.leq(installed, selected[idx].pkg.version)
    ensures HasVersion(u, selected, installed) ==> u.leq(installed, selected[idx].pkg.version)
  {
    if HasVersion(u, selected, installed) {
      var a :| a in selected && u.Equal(a.pkg.version, installed);
      var j :| 0 <= j < |selected| && selected[j] == a;
      if idx < j {
        assert u.leq(selected[j].pkg.version, selected[idx].pkg.version);
      }
    }
  }

  ghost predicate OffersUpgrade(env: Env, u: UpgradeEnv, selected: seq<Artifact>, arts: seq<Artifact>,
                                installed: string) {
    exists banned :: BannedForUpgrade(env, u, selected, banned, installed) && arts == NotBanned(selected, banned)
  }

  /** checkCandidate2Upgrade. */
  method CheckCandidate2Upgrade(s: Solver, u: UpgradeEnv, n: string, stack: seq<string>, ghost universe: set<string>)
    returns (ok: bool)
    requires Valid(s.env, universe, s.V()) && StackOk(stack, universe) && u.Valid(s.env) && Chain(s.env, stack + [n])
    modifies s
    ensures Selects(s.env, universe, old(s.V()), s.V(), stack, n)
    ensures n in s.candidates && n !in old(s.candidates) ==> UpgradeCandidate(s.env, u, old(s.V()), s.V(), stack, n)
    ensures Unobstructed(s.env, old(s.available)) && old(s.lucky) && n !in stack && n !in old(s.candidates)
            && NewestWelcome(s.env, u, old(s.available), n) ==>
              && ok && s.lucky && n in s.candidates &&
                 s.candidates[n] == SortedForUpgrade(s.env, old(s.available), n).value
    ensures n in stack || n in old(s.candidates) ==> ok && s.V() == old(s.V())
    ensures n !in stack && n !in old(s.candidates) ==> CheckRight(s.env, u, old(s.V()), s.V(), stack, n, ok)
    ensures n !in stack && n !in old(s.candidates) && n in s.env.system && s.env.system[n] != []
            && SortedForUpgrade(s.env, old(s.available), n).Some?
            && AllPassedOver(s.env, u, s.env.system[n][0], SortedForUpgrade(s.env, old(s.available), n).value) ==>
              ok && s.V() == old(s.V()).(available := s.available)
  {
    hide Valid, Extends, StackOk, Selects, UpgradeEnv.Valid, Unobstructed, BannedForUpgrade, FitForUpgrade,
      UpgradeCandidate, Welcome, AllPassedOver, CheckRight, EndsRight, NothingMissing, Reordered, NotBanned,
      SortedForUpgrade;
    ghost var v0 := s.V();
    ExtendsReflexive(s.env, v0, stack + [n]);
    SelectsNothing(s.env, universe, v0, v0, stack, n);
    if n in stack || n in s.candidates {
      return true;
    }
    var selected := SelectVersions(s, u, n, stack, universe);
    if selected.None? {
      CannotCheck(s.env, u, v0, s.V(), stack, n);
      return false;
    }
    ValidFacts(s.env, universe, s.V());
    SelectsNothing(s.env, universe, v0, s.V(), stack, n);
    ExtendsFacts(s.env, v0, s.V(), stack + [n]);
    if n !in s.env.system {
      CannotCheck(s.env, u, v0, s.V(), stack, n);
      return false;
    }
    ghost var installed := s.env.system[n][0];
    var found, banned, idx := FindMatch(s, u, n, s.env.system[n][0], selected.value, stack, universe, v0);
    SelectsNothing(s.env, universe, v0, s.V(), stack, n);
    ghost var v := s.V();
    if found == Aborted {
      ChecksRight(s.env, u, universe, v0, v, v, stack, n, selected.value, found, banned, idx, false);
      return false;
    }
    if found == Matched {
      ValidProviders(s.env, universe, v);
      var validArts := s.CollectValid(selected.value, banned);
      s.candidates := s.candidates[n := validArts];
      MatchIsCandidate(s.env, u, v0, v, s.V(), stack, n, selected.value, banned, idx);
      SelectsCandidate(s.env, universe, v0, v, s.V(), stack, n, validArts, s.provided);
    }
    ChecksRight(s.env, u, universe, v0, v, s.V(), stack, n, selected.value, found, banned, idx, true);
    return true;
  }

  /** checkCandidate2Upgrade for a package of the list. */
  method CheckListed(s: Solver, u: UpgradeEnv, n: string, ghost universe: set<string>) returns (ok: bool)
    requires Valid(s.env, universe, s.V()) && u.Valid(s.env)
    modifies s
    ensures Selects(s.env, universe, old(s.V()), s.V(), [], n)
    ensures n in s.candidates && n !in old(s.candidates) ==> UpgradeCandidate(s.env, u, old(s.V()), s.V(), [], n)
    ensures Unobstructed(s.env, old(s.available)) && old(s.lucky) && n in old(s.available) ==>
              Checked(s.env, u, old(s.V()), s.V(), n, ok)
    ensures if n in old(s.candidates) then ok else CheckRight(s.env, u, old(s.V()), s.V(), [], n, ok)
  {
    hide Valid, UpgradeEnv.Valid, UpgradeCandidate, Unobstructed, Selects, PassedOver, Welcome, SortedForUpgrade,
      CheckRight;
    ghost var v := s.V();
    if Unobstructed(s.env, s.available) && n in s.available {
      SortedIsOffered(s.env, universe, v, n);
      ghost var selected := SortedForUpgrade(s.env, s.available, n).value;
      assert selected[0] in selected;
    }
    ok := CheckCandidate2Upgrade(s, u, n, [], universe);
  }

  /** The loop of Upgrade over the packages to check.  A head older than the installed version can only come
      from a nested resolution, and exactly when that has banned every version that is not older; never when an
      available version that is not older is in no conflict. */
  method CheckCandidates(s: Solver, u: UpgradeEnv, pList: seq<string>, ghost universe: set<string>) returns (ok: bool)
    requires Valid(s.env, universe, s.V()) && u.Valid(s.env) && s.candidates == map[] && s.accepted == map[]
    modifies s
    ensures Valid(s.env, universe, s.V())
    ensures HeadsChecked(s.env, u, s.V())
    ensures !u.deep ==> forall k :: k in s.candidates && k in s.env.system ==>
              (OlderHead(s.env, u, s.V(), k) <==> k in s.accepted && NewerBanned(s.env, u, s.V(), k))
    ensures !u.deep && SortingKeeps(s.env) ==> forall k :: HasCurrent(s.env, u, old(s.available), k) ==>
              !OlderHead(s.env, u, s.V(), k)
    ensures Unobstructed(s.env, old(s.available)) && old(s.lucky) && Checkable(s.env, u, old(s.available), pList) ==>
              ok && Smooth(s.env, u, s.V(), pList)
    ensures pList != [] ==> FirstPicked(s.env, u, old(s.V()), s.V(), pList[0])
    ensures |pList| == 1 ==> CheckRight(s.env, u, old(s.V()), s.V(), [], pList[0], ok)
    ensures NothingMissing(s.env, old(s.provided)) && AllListed(s.env, old(s.available), pList) ==> ok
  {
    hide Valid, UpgradeEnv.Valid, UpgradeCandidate, Unobstructed, HeadsChecked, OlderHead, NewerBanned, Covers, Selects,
      HasCurrent, SortingKeeps, Smooth, Checked, PassedName, WelcomeName, Settled, FirstPicked, CheckRight,
      NothingMissing, AllListed;
    ok := true;
    ghost var v0 := s.V();
    ghost var smooth := Unobstructed(s.env, s.available) && s.lucky && Checkable(s.env, u, s.available, pList);
    ghost var calm := NothingMissing(s.env, s.provided) && AllListed(s.env, s.available, pList);
    NothingChecked(s.env, u, s.V());
    for i := 0 to |pList|
      invariant Valid(s.env, universe, s.V()) && HeadsChecked(s.env, u, s.V()) && Covers(v0, s.V()) && ok
      invariant smooth ==> Smooth(s.env, u, s.V(), pList[..i])
      invariant if i == 0 then s.V() == v0
                else FirstPicked(s.env, u, v0, s.V(), pList[0]) &&
                     (|pList| == 1 ==> CheckRight(s.env, u, v0, s.V(), [], pList[0], true))
      invariant calm ==> NothingMissing(s.env, s.provided) && AllListed(s.env, s.available, pList)
    {
      ghost var v := s.V();
      ok := CheckListed(s, u, pList[i], universe);
      KeepsFirst(s.env, u, universe, v0, v, s.V(), pList, i, ok);
      if calm {
        NothingFails(s.env, u, universe, v, s.V(), pList, i, ok);
      }
      NextChecked(s.env, u, universe, v, s.V(), pList[i]);
      NextCovers(s.env, universe, v0, v, s.V(), pList[i]);
      if smooth {
        StillAvailable(s.env, u, v0, v, pList, i);
        NextSmooth(s.env, u, universe, v, s.V(), pList[..i], pList[i], ok);
        assert pList[..i + 1] == pList[..i] + [pList[i]];
      }
      if !ok {
        break;
      }
    }
    assert pList[..|pList|] == pList;
    if !u.deep {
      forall k | k in s.candidates && k in s.env.system
        ensures OlderHead(s.env, u, s.V(), k) <==> k in s.accepted && NewerBanned(s.env, u, s.V(), k)
      {
        WhenOlder(s.env, u, universe, s.V(), k);
      }
      if SortingKeeps(s.env) {
        forall k | HasCurrent(s.env, u, v0.available, k) ensures !OlderHead(s.env, u, s.V(), k) {
          CurrentIsKept(s.env, u, universe, v0, s.V(), k);
        }
      }
    }
  }

  /** If the search for the first package ends with a match, what it stores stays a candidate. */
  ghost predicate FirstPicked(env: Env, u: UpgradeEnv, v: View, v': View, n: string) {
    var sorted := SortedForUpgrade(env, v.available, n);
    sorted.Some? && n in env.system && env.system[n] != [] ==>
      forall i: nat :: EndsAt(env, u, v, [n], env.system[n][0], sorted.value, i, Match) ==>
        n in v'.candidates && v'.candidates[n] ==
          NotBanned(sorted.value, BannedNow(env, u, v, [n], env.system[n][0], sorted.value, i))
  }

  /** Each package of the list is installed and available, and sorting does not fail. */
  ghost predicate AllListed(env: Env, available: map<string, seq<Artifact>>, pList: seq<string>) {
    (env.hasRepos || SortingSucceeds(env)) && forall n :: n in pList ==> n in env.system && n in available
  }

  lemma KeepsFirst(env: Env, u: UpgradeEnv, universe: set<string>, v0: View, v: View, v': View, pList: seq<string>,
                   i: nat, ok: bool)
    requires i < |pList| && Selects(env, universe, v, v', [], pList[i]) && v0.candidates == map[]
    requires if i == 0 then v == v0 else FirstPicked(env, u, v0, v, pList[0])
    requires if pList[i] in v.candidates then ok else CheckRight(env, u, v, v', [], pList[i], ok)
    ensures FirstPicked(env, u, v0, v', pList[0])
    ensures i == 0 ==> CheckRight(env, u, v0, v', [], pList[0], ok)
  {
    hide Valid, KnowsMore, EndsAt, BannedNow, PassedTo, NothingMissing, ProvidesAdded, SortedForUpgrade, NotBanned;
    assert [] + [pList[0]] == [pList[0]];
  }

  lemma NothingFails(env: Env, u: UpgradeEnv, universe: set<string>, v: View, v': View, pList: seq<string>, i: nat,
                     ok: bool)
    requires i < |pList| && Valid(env, universe, v) && Selects(env, universe, v, v', [], pList[i])
    requires NothingMissing(env, v.provided) && AllListed(env, v.available, pList)
    requires if pList[i] in v.candidates then ok else CheckRight(env, u, v, v', [], pList[i], ok)
    ensures ok && NothingMissing(env, v'.provided) && AllListed(env, v'.available, pList)
  {
    hide Valid, EndsAt, BannedNow, PassedTo, NothingMissing, ProvidesAdded, NotBanned, Unobstructed, SortingSucceeds;
    assert pList[i] in pList;
    ValidFacts(env, universe, v);
    SortingWorks(env, universe, v, pList[i]);
    StillNothingMissing(env, v.provided, v'.provided);
  }

  lemma StillNothingMissing(env: Env, provided: map<string, seq<Package>>, more: map<string, seq<Package>>)
    requires NothingMissing(env, provided) && ProvidedGrows(provided, more)
    ensures NothingMissing(env, more)
  {
    hide Admit;
    forall p, r | p in env.pool && r in p.deps && ProvidedFor(env, provided, p, r.name)
      ensures ProvidedFor(env, more, p, r.name)
    {
      var q, a :| q in provided[r.name] && a in q.provs && Admit(env.g, p, AsPackage(a)) == Admitted;
      assert q in more[r.name];
    }
  }

  lemma StillAvailable(env: Env, u: UpgradeEnv, v0: View, v: View, pList: seq<string>, i: nat)
    requires i < |pList| && Checkable(env, u, v0.available, pList) && Covers(v0, v) && Smooth(env, u, v, pList[..i])
    ensures v.lucky && Unobstructed(env, v.available) && pList[i] in v.available
    ensures PassedName(env, u, pList[i]) || WelcomeName(env, u, pList[i])
  {
    hide Unobstructed, Settled, PassedName, WelcomeName;
    assert pList[i] in pList;
  }

  // ---------- when no head is older ----------

  /** An available version of the installed package is not older and in no conflict, in any of its builds. */
  ghost predicate HasCurrent(env: Env, u: UpgradeEnv, available: map<string, seq<Artifact>>, n: string) {
    && n in env.system && env.system[n] != [] && n in available
    && exists a :: a in available[n] && u.leq(env.system[n][0].version, a.pkg.version) && Clean(env, a.pkg)
  }

  /** The list a candidate was resolved from holds what was available at first. */
  ghost predicate Covers(v0: View, v: View) {
    && (forall k :: k in v0.available ==> k in v.available && forall a :: a in v0.available[k] ==> a in v.available[k])
    && (forall k :: k in v.accepted ==>
          k in v.lists && (k in v0.available ==> forall a :: a in v0.available[k] ==> a in v.lists[k]))
  }

  lemma NextCovers(env: Env, universe: set<string>, v0: View, v: View, v': View, n: string)
    requires Covers(v0, v) && Selects(env, universe, v, v', [], n)
    ensures Covers(v0, v')
  {
    hide Valid;
    forall k | k in v'.accepted
      ensures k in v'.lists && (k in v0.available ==> forall a :: a in v0.available[k] ==> a in v'.lists[k])
    {
      if k in v.accepted {
        assert SameRecord(v, v', k);
      } else {
        assert NewSince(v, v', [], k);
      }
    }
  }

  lemma CurrentIsKept(env: Env, u: UpgradeEnv, universe: set<string>, v0: View, v: View, k: string)
    requires Valid(env, universe, v) && u.Valid(env) && HeadsChecked(env, u, v) && !u.deep && SortingKeeps(env)
    requires Covers(v0, v) && HasCurrent(env, u, v0.available, k)
    ensures !OlderHead(env, u, v, k)
  {
    hide IsInConflict, AdmittedByAll, RequiresMet, UpgradeEnv.Valid, NotBanned, Clean, Valid, HeadsChecked, Listed;
    if k in v.candidates {
      WhenOlder(env, u, universe, v, k);
      if k in v.accepted {
        ListNamed(env, universe, v, k);
        var a :| a in v0.available[k] && u.leq(env.system[k][0].version, a.pkg.version) && Clean(env, a.pkg);
        if SortedList(env, v.lists[k]).Some? {
          var b := CleanNotBanned(env, v.lists[k], SortedList(env, v.lists[k]).value, a);
          CurrentNotBanned(env, u, v, k, b);
        }
      }
    }
  }

  lemma CurrentNotBanned(env: Env, u: UpgradeEnv, v: View, k: string, a: Artifact)
    requires k in v.lists && k in env.system && env.system[k] != [] && SortedList(env, v.lists[k]).Some?
    requires a in SortedList(env, v.lists[k]).value && u.leq(env.system[k][0].version, a.pkg.version)
    requires forall idx :: 0 <= idx <= |SortedList(env, v.lists[k]).value| ==>
               a.pkg.version !in BannedBefore(env, SortedList(env, v.lists[k]).value, idx)
    ensures !NewerBanned(env, u, v, k)
  {
    hide BannedBefore, NotBanned;
  }

  lemma ListNamed(env: Env, universe: set<string>, v: View, k: string)
    requires Valid(env, universe, v) && k in v.accepted
    ensures k in v.lists && (forall a :: a in v.lists[k] ==> a.pkg.name == k && a.pkg in env.pool)
    ensures forall a :: SortedList(env, v.lists[k]).Some? && a in SortedList(env, v.lists[k]).value ==> a in v.lists[k]
  {
    hide IsInConflict, AdmittedByAll, RequiresMet, Offers;
    assert CandidateOk(env, v, k);
  }

  /** A build of the version is kept, and the version is never banned. */
  lemma CleanNotBanned(env: Env, list: seq<Artifact>, selected: seq<Artifact>, a: Artifact) returns (kept: Artifact)
    requires a in list && Clean(env, a.pkg) && SortingKeeps(env) && SortedList(env, list) == Some(selected)
    requires forall b :: b in list ==> b.pkg.name == a.pkg.name && b.pkg in env.pool
    requires forall b :: b in selected ==> b in list
    ensures kept in selected && kept.pkg.ToAtom() == a.pkg.ToAtom()
    ensures forall idx :: 0 <= idx <= |selected| ==> kept.pkg.version !in BannedBefore(env, selected, idx)
  {
    hide IsInConflict, SortingKeeps, SortedList;
    assert OneNamed(env, list);
    kept := KeptBuild(env, list, selected, a);
    hide OneNamed;
    forall b | b in selected && b.pkg.version == a.pkg.version
      ensures env.ignoreConflicts || !IsInConflict(env, b.pkg)
    {
      assert b.pkg.ToAtom() == a.pkg.ToAtom();
    }
  }

  // ---------- when a head is older ----------

  /** The stored head is older than the installed version. */
  ghost predicate OlderHead(env: Env, u: UpgradeEnv, v: View, k: string) {
    && k in env.system && env.system[k] != [] && k in v.candidates && v.candidates[k] != []
    && !u.leq(env.system[k][0].version, v.candidates[k][0].pkg.version)
  }

  /** The version is in no conflict, or the installed one with other requires, is not older without the deep option,
      and its requires count as met. */
  ghost predicate Upgradable(env: Env, u: UpgradeEnv, v: View, installed: Package, p: Package) {
    && (!u.deep ==> u.leq(installed.version, p.version))
    && (u.Equal(p.version, installed.version) || env.ignoreConflicts || !IsInConflict(env, p))
    && MetForUpgrade(env, v, [], p, |p.deps|)
  }

  /** A candidate for an installed package: the head is not older without the deep option, and a stored version is
      good for the upgrade. */
  ghost predicate HeadChecked(env: Env, u: UpgradeEnv, v: View, k: string) {
    && k in env.system && env.system[k] != [] && k in v.candidates && v.candidates[k] != []
    && (!u.deep ==> !OlderHead(env, u, v, k))
    && exists a :: a in v.candidates[k] && Upgradable(env, u, v, env.system[k][0], a.pkg)
  }

  /** Every candidate without the record of a resolution is one of these. */
  ghost predicate HeadsChecked(env: Env, u: UpgradeEnv, v: View) {
    forall k :: k in v.candidates && k !in v.accepted ==> HeadChecked(env, u, v, k)
  }

  /** Of the list that the candidate was resolved from, every version that is not older than the installed one
      was banned. */
  ghost predicate NewerBanned(env: Env, u: UpgradeEnv, v: View, k: string) {
    && k in env.system && env.system[k] != [] && k in v.candidates && k in v.accepted
    && k in v.lists && SortedList(env, v.lists[k]).Some?
    && var selected := SortedList(env, v.lists[k]).value;
       exists idx :: Listed(env, v.lists[k], idx, v.candidates[k], v.accepted[k])
                     && AllNewerIn(u, selected, env.system[k][0].version, BannedBefore(env, selected, idx))
  }

  /** Every version of the list that is not older than the installed one is banned. */
  ghost predicate AllNewerIn(u: UpgradeEnv, selected: seq<Artifact>, installed: string, banned: set<string>) {
    forall a :: a in selected && u.leq(installed, a.pkg.version) ==> a.pkg.version in banned
  }

  lemma NothingChecked(env: Env, u: UpgradeEnv, v: View)
    requires v.candidates == map[] && v.accepted == map[]
    ensures HeadsChecked(env, u, v) && Covers(v, v)
    ensures v.lucky && Unobstructed(env, v.available) ==> Smooth(env, u, v, [])
  {
  }

  lemma NextChecked(env: Env, u: UpgradeEnv, universe: set<string>, v: View, v': View, n: string)
    requires HeadsChecked(env, u, v) && Selects(env, universe, v, v', [], n)
    requires n in v'.candidates && n !in v.candidates ==> UpgradeCandidate(env, u, v, v', [], n)
    ensures HeadsChecked(env, u, v') && Valid(env, universe, v')
  {
    hide Valid, HeadChecked, UpgradeCandidate, KnowsMore, Unobstructed;
    forall k | k in v'.candidates && k !in v'.accepted ensures HeadChecked(env, u, v', k) {
      if k in v.candidates {
        HeadStaysChecked(env, u, v, v', k);
      } else {
        UpgradeIsChecked(env, u, v, v', k);
      }
    }
  }

  lemma HeadStaysChecked(env: Env, u: UpgradeEnv, v: View, v': View, k: string)
    requires HeadChecked(env, u, v, k) && KnowsMore(env, v, v') && SubMap(v.candidates, v'.candidates)
    ensures HeadChecked(env, u, v', k)
  {
    hide IsInConflict, KnowsMore, MetForUpgrade, Upgradable;
    var a :| a in v.candidates[k] && Upgradable(env, u, v, env.system[k][0], a.pkg);
    UpgradableStays(env, u, v, v', env.system[k][0], a.pkg);
    assert v'.candidates[k] == v.candidates[k];
  }

  lemma UpgradableStays(env: Env, u: UpgradeEnv, v: View, v': View, installed: Package, p: Package)
    requires Upgradable(env, u, v, installed, p) && KnowsMore(env, v, v')
    ensures Upgradable(env, u, v', installed, p)
  {
    hide IsInConflict, SatisfiedForUpgrade, Unobstructed;
    forall k | 0 <= k < |p.deps| ensures SatisfiedForUpgrade(env, v', Done(v', []), p, p.deps[k]) {
      SatisfiedStays(env, v, v', Done(v, []), Done(v', []), p, p.deps[k]);
    }
  }

  lemma UpgradeIsChecked(env: Env, u: UpgradeEnv, v: View, v': View, k: string)
    requires UpgradeCandidate(env, u, v, v', [], k)
    ensures HeadChecked(env, u, v', k)
  {
    hide IsInConflict, MetForUpgrade, OffersUpgrade, AdmittedByAll, UsersAdmit;
    var a :| a in v'.candidates[k] && FitForUpgrade(env, u, v, v', [], env.system[k][0], a.pkg);
    assert Upgradable(env, u, v', env.system[k][0], a.pkg);
  }

  // ---------- when all checks succeed ----------

  /** Whatever is offered for the installed package is passed over. */
  ghost predicate PassedName(env: Env, u: UpgradeEnv, n: string) {
    n in env.system && env.system[n] != [] &&
    forall p :: p in env.pool && p.name == n ==> PassedOver(env, u, env.system[n][0], p)
  }

  /** Whatever is offered for the installed package is welcome. */
  ghost predicate WelcomeName(env: Env, u: UpgradeEnv, n: string) {
    n in env.system && env.system[n] != [] &&
    forall p :: p in env.pool && p.name == n ==> Welcome(env, u, env.system[n][0], p)
  }

  /** Each package to check is available, and all of what is offered for it is welcome, or all is passed over. */
  ghost predicate Checkable(env: Env, u: UpgradeEnv, available: map<string, seq<Artifact>>, pList: seq<string>) {
    forall n :: n in pList ==> n in available && (PassedName(env, u, n) || WelcomeName(env, u, n))
  }

  /** The run so far has met conflicts only, all that was under analysis is a candidate, and so is all that is
      welcome. */
  ghost predicate Smooth(env: Env, u: UpgradeEnv, v: View, done: seq<string>) {
    && v.lucky && Unobstructed(env, v.available) && Settled(v, Done(v, []))
    && forall n :: n in done && WelcomeName(env, u, n) ==> n in v.candidates
  }

  lemma SortedIsOffered(env: Env, universe: set<string>, v: View, n: string)
    requires Valid(env, universe, v) && Unobstructed(env, v.available) && n in v.available
    ensures SortedForUpgrade(env, v.available, n).Some?
    ensures var selected := SortedForUpgrade(env, v.available, n).value;
      selected != [] && forall a :: a in selected ==> a.pkg.name == n && a.pkg in env.pool
  {
    hide CandidateOk, Ordered, ProvidersListed, Unobstructed, HasClean, Sorted;
    var list := v.available[n];
    if env.hasRepos {
      assert multiset(env.sortRepos(list)) == multiset(list);
      forall a ensures a in env.sortRepos(list) <==> a in list {
        assert a in env.sortRepos(list) <==> a in multiset(env.sortRepos(list));
        assert a in list <==> a in multiset(list);
      }
      assert list[0] in env.sortRepos(list);
    } else {
      SortingWorks(env, universe, v, n);
      SortedByVersion(env, universe, v, n);
    }
  }

  lemma SortedByVersion(env: Env, universe: set<string>, v: View, n: string)
    requires Valid(env, universe, v) && Unobstructed(env, v.available) && n in v.available
    requires env.sortVersions(v.available[n]).Some?
    ensures Sorted(env, v.available, n).Some?
    ensures var selected := Sorted(env, v.available, n).value;
      selected != [] && forall a :: a in selected ==> a.pkg.name == n && a.pkg in env.pool
  {
    hide Valid, Unobstructed, HasClean, SortedList;
    var selected := Sorted(env, v.available, n);
    ListSorts(env, v.available[n]);
    SelectedNames(env, universe, v, n, selected.value);
    CleanIsListed(env, selected.value);
  }

  lemma ListSorts(env: Env, list: seq<Artifact>)
    requires env.sortVersions(list).Some?
    ensures SortedList(env, list).Some?
  {
  }

  lemma CleanIsListed(env: Env, selected: seq<Artifact>)
    requires HasClean(env, selected)
    ensures selected != []
  {
  }

  /** What the check of one package ends in, if it is a candidate already, passed over, or welcome. */
  ghost predicate Checked(env: Env, u: UpgradeEnv, v: View, v': View, n: string, ok: bool) {
    && (n in v.candidates ==> ok && Unchanged(v, v'))
    && (n !in v.candidates && PassedName(env, u, n) ==> ok && Unchanged(v.(available := v'.available), v'))
    && (n !in v.candidates && WelcomeName(env, u, n) ==> ok && v'.lucky && n in v'.candidates)
  }

  lemma NextSmooth(env: Env, u: UpgradeEnv, universe: set<string>, v: View, v': View, done: seq<string>, n: string,
                   ok: bool)
    requires Smooth(env, u, v, done) && Selects(env, universe, v, v', [], n) && Checked(env, u, v, v', n, ok)
    requires PassedName(env, u, n) || WelcomeName(env, u, n)
    ensures ok && Smooth(env, u, v', done + [n])
  {
    hide Valid, Unobstructed, PassedName, WelcomeName, SameRecord, NewSince;
    if n !in v.candidates && PassedName(env, u, n) && !WelcomeName(env, u, n) {
      assert Done(v', []) == Done(v, []);
    }
    forall m | m in done + [n] && WelcomeName(env, u, m) ensures m in v'.candidates {
    }
  }

  /** In a descending list the first version that is not banned is older than the installed one exactly when all
      that are not older are banned. */
  lemma OlderExactly(u: UpgradeEnv, selected: seq<Artifact>, banned: set<string>, installed: string)
    requires forall a, b, c :: u.leq(a, b) && u.leq(b, c) ==> u.leq(a, c)
    requires u.Descending(selected) && NotBanned(selected, banned) != []
    ensures !u.leq(installed, NotBanned(selected, banned)[0].pkg.version) <==>
              AllNewerIn(u, selected, installed, banned)
  {
    var head := NotBanned(selected, banned)[0];
    assert head in NotBanned(selected, banned);
    forall a | a in selected && a.pkg.version !in banned ensures a == head || u.leq(a.pkg.version, head.pkg.version) {
      var i :| 0 <= i < |selected| && selected[i] == a;
      var h := FirstNotBanned(selected, banned, i);
    }
  }

  lemma SortedDescends(env: Env, u: UpgradeEnv, list: seq<Artifact>)
    requires u.Valid(env) && OneNamed(env, list) && SortedList(env, list).Some?
    ensures u.Descending(SortedList(env, list).value)
  {
  }

  lemma WhenOlder(env: Env, u: UpgradeEnv, universe: set<string>, v: View, k: string)
    requires Valid(env, universe, v) && u.Valid(env) && HeadsChecked(env, u, v) && !u.deep
    requires k in v.candidates && k in env.system
    ensures OlderHead(env, u, v, k) <==> k in v.accepted && NewerBanned(env, u, v, k)
  {
    hide IsInConflict, AdmittedByAll, RequiresMet, BannedBefore, UpgradeEnv.Valid, NotBanned;
    if k in v.accepted {
      assert CandidateOk(env, v, k);
      VersionsOrdered(env, u);
      var selected := SortedList(env, v.lists[k]).value;
      SortedDescends(env, u, v.lists[k]);
      forall idx | Listed(env, v.lists[k], idx, v.candidates[k], v.accepted[k])
        ensures OlderHead(env, u, v, k) <==>
                AllNewerIn(u, selected, env.system[k][0].version, BannedBefore(env, selected, idx))
      {
        OlderExactly(u, selected, BannedBefore(env, selected, idx), env.system[k][0].version);
      }
    }
  }

  lemma VersionsOrdered(env: Env, u: UpgradeEnv)
    requires u.Valid(env)
    ensures forall a, b, c :: u.leq(a, b) && u.leq(b, c) ==> u.leq(a, c)
  {
  }

  /** The newest available version of an installed package is newer, and welcome to its users. */
  ghost predicate NewestWelcome(env: Env, u: UpgradeEnv, available: map<string, seq<Artifact>>, n: string) {
    && n in env.system && env.system[n] != []
    && SortedForUpgrade(env, available, n).Some? && SortedForUpgrade(env, available, n).value != []
    && Welcome(env, u, env.system[n][0], SortedForUpgrade(env, available, n).value[0].pkg)
  }

  lemma MatchIsCandidate(env: Env, u: UpgradeEnv, v0: View, v: View, v': View, stack: seq<string>, n: string,
                         selected: seq<Artifact>, banned: set<string>, idx: nat)
    requires u.Valid(env) && u.Descending(selected) && idx < |selected| && selected[idx].pkg.version !in banned
    requires n in env.system && env.system[n] != [] && SortedForUpgrade(env, v0.available, n) == Some(selected)
    requires BannedForUpgrade(env, u, selected, banned, env.system[n][0].version)
    requires FitForUpgrade(env, u, v0, v, stack + [n], env.system[n][0], selected[idx].pkg)
    requires EqualBefore(u, selected, idx, env.system[n][0].version) ==>
               u.leq(env.system[n][0].version, selected[idx].pkg.version)
    requires ProvidedGrows(v.provided, v'.provided)
    requires v' == v.(candidates := v.candidates[n := NotBanned(selected, banned)], provided := v'.provided)
    ensures UpgradeCandidate(env, u, v0, v', stack, n)
    ensures banned == {} ==> NotBanned(selected, banned) == selected
    ensures NotBanned(selected, banned) != []
  {
    hide MetForUpgrade, IsInConflict, AdmittedByAll, UsersAdmit, BannedForUpgrade, ProvidedGrows, NotBanned;
    var installed, arts := env.system[n][0], NotBanned(selected, banned);
    assert selected[idx] in arts;
    BeforeInstalled(u, selected, idx, installed.version);
    hide EqualBefore, HasVersion;
    if u.leq(installed.version, selected[idx].pkg.version) {
      HeadIsNotOlder(u, selected, banned, idx, installed.version);
    }
    MetAfterWrite(env, v, v', stack, n, arts, selected[idx].pkg);
    assert FitForUpgrade(env, u, v0, v', stack, installed, selected[idx].pkg);
    if banned == {} {
      NotBannedAll(selected);
    }
  }

  lemma {:induction false} NotBannedAll(arts: seq<Artifact>)
    ensures NotBanned(arts, {}) == arts
  {
    if arts != [] {
      NotBannedAll(arts[..|arts| - 1]);
      assert arts == arts[..|arts| - 1] + [arts[|arts| - 1]];
    }
  }

  lemma MetAfterWrite(env: Env, v: View, v': View, stack: seq<string>, n: string, arts: seq<Artifact>, p: Package)
    requires MetForUpgrade(env, v, stack + [n], p, |p.deps|) && ProvidedGrows(v.provided, v'.provided)
    requires v' == v.(candidates := v.candidates[n := arts], provided := v'.provided)
    ensures MetForUpgrade(env, v', stack, p, |p.deps|)
  {
    hide SatisfiedForUpgrade, Unobstructed;
    assert Done(v, stack + [n]) <= Done(v', stack);
    forall k | 0 <= k < |p.deps| ensures SatisfiedForUpgrade(env, v', Done(v', stack), p, p.deps[k]) {
      SatisfiedStays(env, v, v', Done(v, stack + [n]), Done(v', stack), p, p.deps[k]);
    }
  }
}
