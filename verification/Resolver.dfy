/** The install resolver: mutual recursion over the versions of a package and over its requires. */
module Resolver {
  import opened Wrappers
  import opened Packages
  import Digraph

  /** What a run of the resolver does not change: options, installed packages, what the repositories offer, the
      searcher and the sorters. */
  datatype Env = Env(
    g: Gentoo,
    ignoreConflicts: bool,
    hasRepos: bool,
    system: map<string, seq<Package>>,
    conflicts: map<string, seq<Package>>,
    pool: set<Package>,
    search: Atom -> Option<seq<Artifact>>,
    sortVersions: seq<Artifact> -> Option<seq<Artifact>>,
    sortRepos: seq<Artifact> -> seq<Artifact>)
  {
    /** Sorting by version may fail or lose entries, sorting by repository only reorders, and a search returns
        what the repositories offer, under the given names. */
    ghost predicate Valid(universe: set<string>) {
      && (forall n :: n in system ==> system[n] != [])
      && (forall s: seq<Artifact> :: sortVersions(s).Some? ==> forall a :: a in sortVersions(s).value ==> a in s)
      && (forall s: seq<Artifact> :: multiset(sortRepos(s)) == multiset(s))
      && (forall r: Atom :: search(r).Some? ==> forall a :: a in search(r).value ==> a.pkg in pool)
      && (forall p :: p in pool ==> p.name in universe)
    }
  }

  /** A provided atom, as a package of its own. */
  function AsPackage(a: Atom): Package {
    Package(a.name, a.version, [], [], [])
  }

  // ---------- conflicts with the installed tree ----------

  predicate RejectedByOne(env: Env, users: seq<Package>, p: Package) {
    exists i :: 0 <= i < |users| && Admit(env.g, users[i], p) != Admitted
  }

  predicate AdmitsOne(env: Env, p: Package, arts: seq<Artifact>) {
    exists i :: 0 <= i < |arts| && Admit(env.g, p, arts[i].pkg) == Admitted
  }

  /** p conflicts with an installed package that it does not provide and that has no admitted upgrade. */
  predicate Blocked(env: Env, p: Package, c: Atom) {
    && c.name in env.system && env.system[c.name] != []
    && Admit(env.g, p, env.system[c.name][0]) != Admitted
    && ProvidesNamed(p.provs, env.system[c.name][0].name) == []
    && (var found := env.search(Atom(c.name, ">=0")); found.None? || !AdmitsOne(env, p, found.value))
  }

  predicate IsInConflict(env: Env, p: Package) {
    || (p.name in env.conflicts && RejectedByOne(env, env.conflicts[p.name], p))
    || exists i :: 0 <= i < |p.conflicts| && Blocked(env, p, p.conflicts[i])
  }

  /** When p is in conflict: a user in the conflict map does not admit it; or it has a conflict with an installed
      package that it does not admit, of whose name it provides nothing, and of which the search finds no version that
      it admits. */
  lemma ConflictMeaning(env: Env, p: Package)
    ensures IsInConflict(env, p) <==>
      || (p.name in env.conflicts && exists u :: u in env.conflicts[p.name] && Admit(env.g, u, p) != Admitted)
      || (exists c :: c in p.conflicts && c.name in env.system && env.system[c.name] != []
            && Admit(env.g, p, env.system[c.name][0]) != Admitted
            && (forall a :: a in p.provs ==> a.name != env.system[c.name][0].name)
            && (env.search(Atom(c.name, ">=0")).Some? ==>
                  forall a :: a in env.search(Atom(c.name, ">=0")).value ==> Admit(env.g, p, a.pkg) != Admitted))
  {
    hide Admit, ProvidesNamed;
    if exists c :: c in p.conflicts && c.name in env.system && env.system[c.name] != [] && Obstructs(env, p, c.name) {
      var c :| c in p.conflicts && c.name in env.system && env.system[c.name] != [] && Obstructs(env, p, c.name);
      var i :| 0 <= i < |p.conflicts| && p.conflicts[i] == c;
      BlockedMeaning(env, p, c);
    }
    if i :| 0 <= i < |p.conflicts| && Blocked(env, p, p.conflicts[i]) {
      BlockedMeaning(env, p, p.conflicts[i]);
      assert p.conflicts[i] in p.conflicts;
    }
    if p.name in env.conflicts {
      if i :| 0 <= i < |env.conflicts[p.name]| && Admit(env.g, env.conflicts[p.name][i], p) != Admitted {
        assert env.conflicts[p.name][i] in env.conflicts[p.name];
      }
    }
  }

  /** p does not admit the installed package of the name, provides nothing of it, and no version that the search finds
      is admitted. */
  ghost predicate Obstructs(env: Env, p: Package, n: string)
    requires n in env.system && env.system[n] != []
  {
    && Admit(env.g, p, env.system[n][0]) != Admitted
    && (forall a :: a in p.provs ==> a.name != env.system[n][0].name)
    && (env.search(Atom(n, ">=0")).Some? ==>
          forall a :: a in env.search(Atom(n, ">=0")).value ==> Admit(env.g, p, a.pkg) != Admitted)
  }

  lemma BlockedMeaning(env: Env, p: Package, c: Atom)
    ensures Blocked(env, p, c) <==>
              c.name in env.system && env.system[c.name] != [] && Obstructs(env, p, c.name)
  {
    hide Admit, ProvidesNamed;
    if c.name in env.system && env.system[c.name] != [] {
      NoneProvided(p.provs, env.system[c.name][0].name);
      var found := env.search(Atom(c.name, ">=0"));
      if found.Some? {
        AdmitsNone(env, p, found.value);
      }
    }
  }

  lemma NoneProvided(provs: seq<Atom>, n: string)
    ensures ProvidesNamed(provs, n) == [] <==> forall a :: a in provs ==> a.name != n
  {
    if ProvidesNamed(provs, n) != [] {
      assert ProvidesNamed(provs, n)[0] in ProvidesNamed(provs, n);
    }
  }

  lemma AdmitsNone(env: Env, p: Package, arts: seq<Artifact>)
    ensures !AdmitsOne(env, p, arts) <==> forall a :: a in arts ==> Admit(env.g, p, a.pkg) != Admitted
  {
    if AdmitsOne(env, p, arts) {
      var i :| 0 <= i < |arts| && Admit(env.g, p, arts[i].pkg) == Admitted;
      assert arts[i] in arts;
    }
  }

  method ArtefactIsInConflict(env: Env, p: Package) returns (conflict: bool)
    requires forall n :: n in env.system ==> env.system[n] != []
    ensures conflict == IsInConflict(env, p)
  {
    if p.name in env.conflicts {
      var cc := env.conflicts[p.name];
      for i := 0 to |cc|
        invariant forall k :: 0 <= k < i ==> Admit(env.g, cc[k], p) == Admitted
      {
        if Admit(env.g, cc[i], p) != Admitted {
          return true;
        }
      }
    }
    for i := 0 to |p.conflicts|
      invariant forall k :: 0 <= k < i ==> !Blocked(env, p, p.conflicts[k])
    {
      var c := p.conflicts[i];
      if c.name in env.system {
        var installed := env.system[c.name][0];
        if Admit(env.g, p, installed) != Admitted && ProvidesNamed(p.provs, installed.name) == [] {
          var found := env.search(Atom(c.name, ">=0"));
          if found.None? {
            return true;
          }
          var block := true;
          var arts := found.value;
          for k := 0 to |arts|
            invariant block ==> forall x :: 0 <= x < k ==> Admit(env.g, p, arts[x].pkg) != Admitted
            invariant !block ==> AdmitsOne(env, p, arts)
          {
            if Admit(env.g, p, arts[k].pkg) == Admitted {
              block := false;
              break;
            }
          }
          if block {
            return true;
          }
        }
      }
    }
    return false;
  }

  // ---------- the state of the resolver ----------

  /** The maps of the solver, and a record of the run: lucky says that versions were rejected for conflicts with
      the installed tree only; for each candidate, accepted is the version accepted for it, seen are the candidates
      that were complete when its analysis began, stacks is the stack it was resolved with, and lists is what was
      available for it. */
  datatype View = View(
    available: map<string, seq<Artifact>>,
    candidates: map<string, seq<Artifact>>,
    provided: map<string, seq<Package>>,
    lucky: bool,
    accepted: map<string, Artifact>,
    seen: map<string, map<string, seq<Artifact>>>,
    stacks: map<string, seq<string>>,
    lists: map<string, seq<Artifact>>)

  /** Only packages of the repositories. */
  ghost predicate Pooled(env: Env, m: map<string, seq<Artifact>>) {
    forall k, a :: k in m && a in m[k] ==> a.pkg in env.pool
  }

  /** Every provider is offered or installed, and is listed under names that it provides. */
  ghost predicate ProvidersListed(env: Env, provided: map<string, seq<Package>>) {
    forall n, q :: n in provided && q in provided[n] ==> Provider(env, n, q)
  }

  ghost predicate Provider(env: Env, n: string, q: Package) {
    && (q in env.pool || (q.name in env.system && q in env.system[q.name]))
    && exists a :: a in q.provs && a.name == n
  }

  ghost predicate NamedLists(m: map<string, seq<Artifact>>) {
    forall k :: k in m ==> m[k] != [] && forall a :: a in m[k] ==> a.pkg.name == k
  }

  /** Every candidate head admits p. */
  ghost predicate AdmittedByAll(env: Env, candidates: map<string, seq<Artifact>>, p: Package) {
    forall k :: k in candidates && candidates[k] != [] ==> Admit(env.g, candidates[k][0].pkg, p) == Admitted
  }

  ghost predicate SubMap(a: map<string, seq<Artifact>>, b: map<string, seq<Artifact>>) {
    forall k :: k in a ==> k in b && a[k] == b[k]
  }

  /** A name that the search for the require returns. */
  ghost predicate FoundFor(env: Env, r: Atom, n: string) {
    env.search(r).Some? && exists a :: a in env.search(r).value && a.pkg.name == n
  }

  /** A package offered under the name a requires b, by this name or through a name that the search returned. */
  ghost predicate Leads(env: Env, a: string, b: string) {
    exists p, r :: p in env.pool && p.name == a && r in p.deps && (b == r.name || FoundFor(env, r, b))
  }

  /** Each name leads to the next. */
  ghost predicate Chain(env: Env, names: seq<string>) {
    forall i :: 0 <= i < |names| - 1 ==> Leads(env, names[i], names[i + 1])
  }

  /** p is offered, and is what is under analysis at the end of the stack. */
  ghost predicate Under(env: Env, stack: seq<string>, p: Package) {
    && p in env.pool && Chain(env, stack)
    && stack != [] && stack[|stack| - 1] == p.name
  }

  lemma ChainStep(env: Env, stack: seq<string>, p: Package, r: Atom, n: string)
    requires Under(env, stack, p) && r in p.deps && (n == r.name || FoundFor(env, r, n))
    ensures Chain(env, stack + [n])
  {
    assert Leads(env, p.name, n);
  }

  lemma ChainUnder(env: Env, stack: seq<string>, n: string, p: Package)
    requires Chain(env, stack + [n]) && p in env.pool && p.name == n
    ensures Under(env, stack + [n], p)
  {
  }

  /** One candidate: its head has passed the conflict check, and so has the accepted version, which was admitted
      by the candidates complete before its analysis and whose requires are met.  In a lucky run the head is the
      accepted version. */
  ghost predicate CandidateOk(env: Env, v: View, k: string) {
    && k in v.candidates && k in v.accepted && k in v.seen && k in v.stacks && k in v.lists
    && (forall a :: a in v.lists[k] ==> a.pkg.name == k && a.pkg in env.pool)
    && v.candidates[k] != [] && v.accepted[k] in v.candidates[k]
    && (!env.ignoreConflicts ==> !IsInConflict(env, v.candidates[k][0].pkg) && !IsInConflict(env, v.accepted[k].pkg))
    && Offers(env, v.lists[k], v.candidates[k], v.accepted[k])
    && SubMap(v.seen[k], v.candidates)
    && AdmittedByAll(env, v.seen[k], v.accepted[k].pkg)
    && RequiresMet(env, v, k)
    && Chain(env, v.stacks[k] + [k])
    && (v.lucky ==> v.accepted[k] == v.candidates[k][0])
  }

  /** In every run: each require of the accepted version is met in this sense, by the candidates and the names
      that were under analysis when the candidate was resolved. */
  ghost predicate RequiresMet(env: Env, v: View, k: string) {
    k in v.accepted && k in v.stacks &&
    forall r :: r in v.accepted[k].pkg.deps ==> Satisfied(env, v, Done(v, v.stacks[k]), v.accepted[k].pkg, r)
  }

  ghost predicate Valid(env: Env, universe: set<string>, v: View) {
    && env.Valid(universe)
    && NamedLists(v.available) && v.available.Keys <= universe
    && NamedLists(v.candidates)
    && Pooled(env, v.available) && Pooled(env, v.candidates) && ProvidersListed(env, v.provided)
    && (forall k :: k in v.accepted ==> CandidateOk(env, v, k))
    && forall j, k :: j in v.accepted && k in v.accepted && j != k ==> Ordered(v, j, k)
  }

  /** Of two candidates one was complete before the analysis of the other, or was under analysis while the
      other was resolved. */
  ghost predicate Ordered(v: View, j: string, k: string) {
    || (k in v.seen && j in v.seen[k])
    || (j in v.seen && k in v.seen[j])
    || (k in v.stacks && j in v.stacks[k])
    || (j in v.stacks && k in v.stacks[j])
  }

  /** The record of a candidate that is new since v. */
  ghost predicate NewSince(v: View, v': View, stack: seq<string>, k: string) {
    && k in v'.seen && v.accepted.Keys <= v'.seen[k].Keys
    && k in v'.stacks && (forall n :: n in stack ==> n in v'.stacks[k])
    && k in v'.lists && (k in v.available ==> forall a :: a in v.available[k] ==> a in v'.lists[k])
  }

  ghost predicate SameRecord(v: View, v': View, k: string) {
    && (k in v.seen ==> k in v'.seen && v'.seen[k] == v.seen[k])
    && (k in v.stacks ==> k in v'.stacks && v'.stacks[k] == v.stacks[k])
    && (k in v.lists ==> k in v'.lists && v'.lists[k] == v.lists[k])
  }

  /** What any call with this stack does: candidates are written once, with a record, and never for a name on
      the stack; the other maps only grow. */
  ghost predicate Grows(env: Env, v: View, v': View, stack: seq<string>) {
    && SubMap(v.candidates, v'.candidates)
    && (forall k :: k in v'.candidates && k !in v.candidates ==> k !in stack && k in v'.accepted)
    && v.accepted.Keys <= v'.accepted.Keys
    && (forall k :: k in v.accepted ==> SameRecord(v, v', k))
    && (forall k :: k in v'.accepted && k !in v.accepted ==> NewSince(v, v', stack, k))
    && (forall k :: k in v.provided ==> k in v'.provided && v.provided[k] <= v'.provided[k])
    && (forall k :: k in v.available ==> k in v'.available && forall a :: a in v.available[k] ==> a in v'.available[k])
    && (v'.lucky ==> v.lucky)
    && (Unobstructed(env, v.available) ==> Unobstructed(env, v'.available))
  }

  /** A package listed as a provider of the name brings something that p admits, be it under this name or not. */
  ghost predicate ProvidedFor(env: Env, provided: map<string, seq<Package>>, p: Package, n: string) {
    n in provided && exists q, a :: q in provided[n] && a in q.provs && Admit(env.g, p, AsPackage(a)) == Admitted
  }

  /** What the source asks of the require r of p: it is installed in an admitted version, or a provider listed for
      it brings something that p admits, or it is among the names done, by itself or through a name that the search
      for it returned. */
  ghost predicate Satisfied(env: Env, v: View, done: set<string>, p: Package, r: Atom) {
    || (r.name in env.system && env.system[r.name] != [] && Admit(env.g, p, env.system[r.name][0]) == Admitted)
    || ProvidedFor(env, v.provided, p, r.name)
    || r.name in done
    || exists n :: n in done && FoundFor(env, r, n)
  }

  // ---------- provided under the required name ----------

  /** A provider listed for the name provides this name in a version that p admits. */
  ghost predicate ProvidedAs(env: Env, provided: map<string, seq<Package>>, p: Package, n: string) {
    n in provided &&
    exists q, a :: q in provided[n] && a in q.provs && a.name == n && Admit(env.g, p, AsPackage(a)) == Admitted
  }

  /** A provider listed for the name brings something else that p admits. */
  ghost predicate BringsOther(env: Env, provided: map<string, seq<Package>>, p: Package, n: string) {
    n in provided &&
    exists q, a :: q in provided[n] && a in q.provs && a.name != n && Admit(env.g, p, AsPackage(a)) == Admitted
  }

  /** What the source accepts as provided is provided under the name, unless only something else is admitted. */
  lemma ProvidedExactly(env: Env, provided: map<string, seq<Package>>, p: Package, n: string)
    ensures ProvidedFor(env, provided, p, n) <==> ProvidedAs(env, provided, p, n) || BringsOther(env, provided, p, n)
    ensures (ProvidedFor(env, provided, p, n) <==> ProvidedAs(env, provided, p, n)) <==>
            ProvidedAs(env, provided, p, n) || !BringsOther(env, provided, p, n)
  {
    hide Admit;
  }

  /** What p never mentions it admits. */
  lemma UnmentionedIsAdmitted(g: Gentoo, p: Package, a: Atom)
    requires g.parses(a) && forall r :: r in p.deps + p.conflicts ==> r.name != a.name
    ensures Admit(g, p, AsPackage(a)) == Admitted
  {
    AdmitMeaning(g, p, AsPackage(a));
    assert AsPackage(a).ToAtom() == a;
    forall r | r in p.deps || r in p.conflicts ensures Targets(r, AsPackage(a)) == [] {
      assert r in p.deps + p.conflicts;
    }
  }

  /** p requires version 2 of n, and the only provider brings version 1 of n, which p rejects, and some m, which
      it never mentions: the require counts as provided, and as met. */
  lemma OtherProvideExample(env: Env, v: View, q: Package, p: Package)
    requires p.deps == [Atom("n", "2")] && p.conflicts == [] && q.provs == [Atom("n", "1"), Atom("m", "1")]
    requires v.provided == map["n" := [q]] && env.g.parses(Atom("m", "1"))
    requires env.g.parses(Atom("n", "1")) && env.g.parses(Atom("n", "2")) &&
             env.g.verdict(Atom("n", "2"), Atom("n", "1")) == Rejected
    ensures ProvidedFor(env, v.provided, p, "n") && Satisfied(env, v, {}, p, Atom("n", "2"))
    ensures !ProvidedAs(env, v.provided, p, "n")
  {
    var n1 := Atom("n", "1");
    UnmentionedIsAdmitted(env.g, p, Atom("m", "1"));
    assert q in v.provided["n"] && Atom("m", "1") in q.provs;
    AdmitMeaning(env.g, p, AsPackage(n1));
    assert Targets(Atom("n", "2"), AsPackage(n1)) == [n1] && n1 in [n1] && Atom("n", "2") in p.deps;
    assert Admit(env.g, p, AsPackage(n1)) != Admitted;
  }

  /** The packages offered and installed provide one name each, at most. */
  ghost predicate PlainProviders(env: Env) {
    && (forall q :: q in env.pool ==> OneName(q.provs))
    && (forall n, q :: n in env.system && q in env.system[n] ==> OneName(q.provs))
  }

  ghost predicate OneName(atoms: seq<Atom>) {
    forall a, b :: a in atoms && b in atoms ==> a.name == b.name
  }

  /** Then all providers provide under the name they are listed for. */
  lemma PlainProvidersExactly(env: Env, provided: map<string, seq<Package>>, p: Package, n: string)
    requires PlainProviders(env) && ProvidersListed(env, provided)
    ensures ProvidedFor(env, provided, p, n) <==> ProvidedAs(env, provided, p, n)
  {
    hide Admit;
    if n in provided {
      forall q, a | q in provided[n] && a in q.provs ensures a.name == n {
        assert Provider(env, n, q);
      }
    }
  }

  /** The require r of p is installed or provided under its name in an admitted version, or among the names done. */
  ghost predicate SatisfiedAs(env: Env, v: View, done: set<string>, p: Package, r: Atom) {
    || (r.name in env.system && env.system[r.name] != [] && Admit(env.g, p, env.system[r.name][0]) == Admitted)
    || ProvidedAs(env, v.provided, p, r.name)
    || r.name in done
    || exists n :: n in done && FoundFor(env, r, n)
  }

  /** In every run over such packages, each require of an accepted version is met under its own name. */
  lemma RequiresMetAs(env: Env, universe: set<string>, v: View, k: string)
    requires Valid(env, universe, v) && PlainProviders(env) && k in v.accepted
    ensures k in v.stacks
    ensures forall r :: r in v.accepted[k].pkg.deps ==> SatisfiedAs(env, v, Done(v, v.stacks[k]), v.accepted[k].pkg, r)
  {
    hide IsInConflict, AdmittedByAll, Offers, Admit, ProvidersListed, ProvidedFor, ProvidedAs, Chain;
    assert CandidateOk(env, v, k);
    ValidProviders(env, universe, v);
    forall r | r in v.accepted[k].pkg.deps ensures SatisfiedAs(env, v, Done(v, v.stacks[k]), v.accepted[k].pkg, r) {
      assert Satisfied(env, v, Done(v, v.stacks[k]), v.accepted[k].pkg, r);
      PlainProvidersExactly(env, v.provided, v.accepted[k].pkg, r.name);
    }
  }

  // ---------- the chosen packages ----------

  /** The requires of every chosen package are satisfied. */
  ghost predicate Closed(env: Env, v: View, done: set<string>) {
    forall k, r :: k in v.candidates && v.candidates[k] != [] && r in v.candidates[k][0].pkg.deps
      ==> Satisfied(env, v, done, v.candidates[k][0].pkg, r)
  }

  /** Every name that was under analysis when some candidate was resolved is done. */
  ghost predicate Settled(v: View, done: set<string>) {
    forall k, n :: k in v.accepted && k in v.stacks && n in v.stacks[k] ==> n in done
  }

  ghost function Done(v: View, stack: seq<string>): set<string> {
    v.candidates.Keys + set n | n in stack
  }

  /** The require is installed in an admitted version, or in a rejected one with other versions available, or
      else the search for it finds something. */
  ghost predicate Obtainable(env: Env, available: map<string, seq<Artifact>>, p: Package, r: Atom) {
    if r.name in env.system then
      && env.system[r.name] != []
      && (|| Admit(env.g, p, env.system[r.name][0]) == Admitted
          || (Admit(env.g, p, env.system[r.name][0]) == Rejected && r.name in available))
    else env.search(r).Some? && env.search(r).value != []
  }

  /** The version is in no conflict with the installed tree, in any of its builds that are offered. */
  ghost predicate Clean(env: Env, p: Package) {
    env.ignoreConflicts || forall q :: q in env.pool && q.ToAtom() == p.ToAtom() ==> !IsInConflict(env, q)
  }

  ghost predicate HasClean(env: Env, arts: seq<Artifact>) {
    exists a :: a in arts && Clean(env, a.pkg)
  }

  /** Each package that the search returns comes with a version in no conflict. */
  ghost predicate CleanResult(env: Env, arts: seq<Artifact>) {
    forall a :: a in arts ==> exists b :: b in arts && b.pkg.name == a.pkg.name && Clean(env, b.pkg)
  }

  /** The artefacts are versions of one package, from the repositories. */
  ghost predicate OneNamed(env: Env, s: seq<Artifact>) {
    && (forall a :: a in s ==> a.pkg in env.pool)
    && forall a, b :: a in s && b in s ==> a.pkg.name == b.pkg.name
  }

  /** Every version of s is in t, though maybe in another build. */
  ghost predicate KeepsVersions(s: seq<Artifact>, t: seq<Artifact>) {
    forall a :: a in s ==> exists b :: b in t && b.pkg.ToAtom() == a.pkg.ToAtom()
  }

  /** Sorting the versions of a package loses no version. */
  ghost predicate SortingKeeps(env: Env) {
    forall s :: OneNamed(env, s) && env.sortVersions(s).Some? ==> KeepsVersions(s, env.sortVersions(s).value)
  }

  /** Sorting the versions of a package does not fail. */
  ghost predicate SortingSucceeds(env: Env) {
    forall s :: OneNamed(env, s) ==> env.sortVersions(s).Some?
  }

  /** Nothing but conflicts with the installed tree stands in the way: the packages offered admit each other,
      their requires can be had, sorting keeps all versions, and each package keeps a version in no conflict. */
  ghost predicate Unobstructed(env: Env, available: map<string, seq<Artifact>>) {
    && (forall p, q :: p in env.pool && q in env.pool ==> Admit(env.g, p, q) == Admitted)
    && (forall p, r :: p in env.pool && r in p.deps ==> Obtainable(env, available, p, r))
    && SortingSucceeds(env) && SortingKeeps(env)
    && (forall n :: n in available ==> HasClean(env, available[n]))
    && (forall r: Atom :: env.search(r).Some? ==> CleanResult(env, env.search(r).value))
  }

  // ---------- runs without errors ----------

  /** Nothing that a run asks for fails: no verdict, no sort, and every search for a require finds something. */
  ghost predicate NoErrors(env: Env) {
    && (forall p, q :: p in env.pool && q in env.pool ==> Admit(env.g, p, q) != Failed)
    && (forall p, n :: p in env.pool && n in env.system && env.system[n] != [] ==>
          Admit(env.g, p, env.system[n][0]) != Failed)
    && (forall p, r :: p in env.pool && r in p.deps && r.name !in env.system ==>
          env.search(r).Some? && env.search(r).value != [])
    && SortingSucceeds(env)
  }

  /** Whatever is chosen, p fits: it is in no conflict in any of its builds, all packages offered admit it, and what it
      requires is installed in admitted versions. */
  ghost predicate AlwaysFits(env: Env, p: Package) {
    && p in env.pool && Clean(env, p)
    && (forall q :: q in env.pool ==> Admit(env.g, q, p) == Admitted)
    && forall r :: r in p.deps ==>
         r.name in env.system && env.system[r.name] != [] && Admit(env.g, p, env.system[r.name][0]) == Admitted
  }

  // ---------- what is decided at entry ----------

  /** The require is settled without a resolution. */
  ghost predicate SettledNow(env: Env, v: View, stack: seq<string>, p: Package, r: Atom) {
    if r.name in env.system && env.system[r.name] != [] && Admit(env.g, p, env.system[r.name][0]) == Admitted then true
    else
      && (r.name in env.system ==>
            env.system[r.name] != [] && Admit(env.g, p, env.system[r.name][0]) == Rejected && r.name in v.available)
      && (ProvidedFor(env, v.provided, p, r.name) || r.name in Done(v, stack))
  }

  ghost predicate Unchanged(v: View, v': View) {
    v' == v
  }

  ghost predicate AllSettled(env: Env, v: View, stack: seq<string>, p: Package) {
    forall r :: r in p.deps ==> SettledNow(env, v, stack, p, r)
  }

  /** Some candidate head rejects p, and none fails on it. */
  ghost predicate RejectedByQueue(env: Env, candidates: map<string, seq<Artifact>>, p: Package) {
    && (exists k :: k in candidates && candidates[k] != [] && Admit(env.g, candidates[k][0].pkg, p) == Rejected)
    && (forall k :: k in candidates && candidates[k] != [] ==> Admit(env.g, candidates[k][0].pkg, p) != Failed)
  }

  /** p is in no conflict, all candidates admit it, and its requires are settled. */
  ghost predicate FitsNow(env: Env, v: View, stack: seq<string>, p: Package) {
    && (env.ignoreConflicts || !IsInConflict(env, p))
    && AdmittedByAll(env, v.candidates, p)
    && AllSettled(env, v, stack, p)
  }

  /** The first require is installed in a version that p rejects, and no other one is available. */
  ghost predicate RejectsFirst(env: Env, v: View, p: Package) {
    p.deps != [] &&
    var n := p.deps[0].name;
    n in env.system && env.system[n] != [] && Admit(env.g, p, env.system[n][0]) == Rejected && n !in v.available
  }

  /** Some candidate head fails on p, and none rejects it. */
  ghost predicate FailsInQueue(env: Env, candidates: map<string, seq<Artifact>>, p: Package) {
    && (exists k :: k in candidates && candidates[k] != [] && Admit(env.g, candidates[k][0].pkg, p) == Failed)
    && (forall k :: k in candidates && candidates[k] != [] ==> Admit(env.g, candidates[k][0].pkg, p) != Rejected)
  }

  /** The verdict on the installed version fails; or nothing settles the require, and the search for it fails. */
  ghost predicate ErrsNow(env: Env, v: View, stack: seq<string>, p: Package, r: Atom) {
    if r.name in env.system then env.system[r.name] != [] && Admit(env.g, p, env.system[r.name][0]) == Failed
    else
      && !ProvidedFor(env, v.provided, p, r.name) && r.name !in Done(v, stack)
      && r.name !in v.available && env.search(r).None?
  }

  /** p is in no conflict, and fails with the candidates or on its first require. */
  ghost predicate ErrsAtOnce(env: Env, v: View, stack: seq<string>, p: Package) {
    && (env.ignoreConflicts || !IsInConflict(env, p))
    && (|| FailsInQueue(env, v.candidates, p)
        || (AdmittedByAll(env, v.candidates, p) && p.deps != [] && ErrsNow(env, v, stack, p, p.deps[0])))
  }

  /** The version at j of the list is banned, in conflict, or rejected by the candidates or for its first require. */
  ghost predicate SkippedNow(env: Env, v: View, selected: seq<Artifact>, j: nat)
    requires j < |selected|
  {
    || selected[j].pkg.version in BannedBefore(env, selected, j)
    || (!env.ignoreConflicts && IsInConflict(env, selected[j].pkg))
    || RejectedByQueue(env, v.candidates, selected[j].pkg)
    || (AdmittedByAll(env, v.candidates, selected[j].pkg) && RejectsFirst(env, v, selected[j].pkg))
  }

  /** Nothing has changed, but that versions were rejected for other reasons than conflicts. */
  ghost predicate SameButLucky(v: View, v': View) {
    v' == v.(lucky := v'.lucky)
  }

  /** How a call for a new name ends: with an error if there is no sorted list, or the first version errs at once;
      without a version if all are skipped; and in a run without errors with a version if one always fits. */
  ghost predicate OutcomeRight(env: Env, v: View, v': View, stack: seq<string>, sorted: Option<seq<Artifact>>,
                               r: Outcome) {
    match sorted
    case None => r == ResolveError
    case Some(selected) =>
      && (selected != [] && ErrsAtOnce(env, v, stack, selected[0].pkg) ==> r == ResolveError)
      && ((forall j :: 0 <= j < |selected| ==> SkippedNow(env, v, selected, j)) ==>
            r == NoValidVersion && SameButLucky(v, v'))
      && (NoErrors(env) && (exists a :: a in selected && AlwaysFits(env, a.pkg)) ==> r == Resolved)
  }

  /** Of the versions before idx none ended the call: what follows if the first errs, if all are skipped, and if one
      fits. */
  ghost predicate Passed(env: Env, v0: View, v: View, stack: seq<string>, selected: seq<Artifact>, idx: nat)
    requires idx <= |selected|
  {
    && (idx == 0 ==> v == v0)
    && (idx > 0 ==> !ErrsAtOnce(env, v0, stack, selected[0].pkg))
    && ((forall j :: 0 <= j < idx ==> SkippedNow(env, v0, selected, j)) ==> SameButLucky(v0, v))
    && (NoErrors(env) ==> forall j :: 0 <= j < idx ==> !AlwaysFits(env, selected[j].pkg))
  }

  /** What becomes of the version at idx, when v0 is the view at entry: an outcome, or the next version's turn. */
  ghost predicate StepRight(env: Env, v0: View, v: View, v': View, stack: seq<string>, selected: seq<Artifact>,
                            idx: nat, done: Option<Outcome>)
    requires idx < |selected|
  {
    && (NoErrors(env) ==> done != Some(ResolveError))
    && (NoErrors(env) && AlwaysFits(env, selected[idx].pkg) ==> done == Some(Resolved))
    && (idx == 0 && v == v0 && ErrsAtOnce(env, v0, stack, selected[0].pkg) ==> done == Some(ResolveError))
    && (SameButLucky(v0, v) && SkippedNow(env, v0, selected, idx) ==> done.None? && SameButLucky(v0, v'))
  }

  /** The version at i is the first that is not skipped, and it fits. */
  ghost predicate FirstFit(env: Env, v: View, stack: seq<string>, selected: seq<Artifact>, i: nat) {
    && i < |selected| && selected[i].pkg.version !in BannedBefore(env, selected, i)
    && FitsNow(env, v, stack, selected[i].pkg)
    && forall j :: 0 <= j < i ==> SkippedNow(env, v, selected, j)
  }

  /** For the require, which nothing settles, the search returns one version, and that fits. */
  ghost predicate FindsAtOnce(env: Env, v: View, stack: seq<string>, p: Package, r: Atom) {
    && r.name !in env.system && !ProvidedFor(env, v.provided, p, r.name)
    && r.name !in Done(v, stack) && r.name !in v.available
    && env.search(r).Some? && |env.search(r).value| == 1 && env.search(r).value[0].pkg.name == r.name
    && FitsNow(env, v, stack + [r.name], env.search(r).value[0].pkg)
  }

  /** p is in no conflict, all candidates admit it, and its first require is found at once. */
  ghost predicate StartsWell(env: Env, v: View, stack: seq<string>, p: Package) {
    && (env.ignoreConflicts || !IsInConflict(env, p))
    && AdmittedByAll(env, v.candidates, p)
    && p.deps != [] && FindsAtOnce(env, v, stack, p, p.deps[0])
  }

  /** If the first version of the list starts well, its first require stays a candidate, whatever comes later. */
  ghost predicate FirstStays(env: Env, v: View, stack: seq<string>, selected: seq<Artifact>, chosen: set<string>) {
    selected != [] && StartsWell(env, v, stack, selected[0].pkg) ==> selected[0].pkg.deps[0].name in chosen
  }

  // ---------- the contracts of the two procedures, as relations on views ----------

  datatype Outcome = Resolved | NoValidVersion | ResolveError

  datatype Attempt = Fits | Conflicts | NotAdmitted | Errs

  datatype DepsOutcome = DepsAdmitted | DepsRejected | DepsError

  ghost predicate StackOk(stack: seq<string>, universe: set<string>) {
    && (forall n :: n in stack ==> n in universe)
    && forall i, j :: 0 <= i < j < |stack| ==> stack[i] != stack[j]
  }

  /** A call of resolvePackage. */
  ghost predicate Resolves(env: Env, universe: set<string>, v: View, v': View, stack: seq<string>, n: string,
                           r: Outcome) {
    && Valid(env, universe, v') && Grows(env, v, v', stack)
    && (r == Resolved <==> n in Done(v', stack))
    && (Unobstructed(env, v.available) && v.lucky && (n in v.available || n in Done(v, stack)) ==> v'.lucky)
    && (v'.lucky ==> r == Resolved)
    && (v'.lucky && Settled(v, Done(v, stack)) ==> Settled(v', Done(v', stack)))
  }

  /** processArtefactDeps after n of the requires of p. */
  ghost predicate DepsDone(env: Env, universe: set<string>, v: View, v': View, stack: seq<string>, p: Package, n: nat) {
    && n <= |p.deps|
    && Valid(env, universe, v') && Grows(env, v, v', stack)
    && (Unobstructed(env, v.available) && v.lucky && p in env.pool ==> v'.lucky)
    && (v'.lucky && Settled(v, Done(v, stack)) ==> Settled(v', Done(v', stack)))
    && forall k :: 0 <= k < n ==> Satisfied(env, v', Done(v', stack), p, p.deps[k])
  }

  /** Grows, and what was settled stays so in a run without other rejections. */
  ghost predicate Extends(env: Env, v: View, v': View, stack: seq<string>) {
    && Grows(env, v, v', stack)
    && (v'.lucky && Settled(v, Done(v, stack)) ==> Settled(v', Done(v', stack)))
  }

  lemma ExtendsReflexive(env: Env, v: View, stack: seq<string>)
    ensures Extends(env, v, v, stack)
  {
    GrowsReflexive(env, v, stack);
  }

  lemma ExtendsTransitive(env: Env, v1: View, v2: View, v3: View, stack: seq<string>)
    requires Extends(env, v1, v2, stack) && Extends(env, v2, v3, stack)
    ensures Extends(env, v1, v3, stack)
  {
    hide Settled, Done;
    GrowsTransitive(env, v1, v2, v3, stack);
    hide Grows;
    GrowsFacts(env, v2, v3, stack);
  }

  lemma GrowsReflexive(env: Env, v: View, stack: seq<string>)
    ensures Grows(env, v, v, stack)
  {
  }

  lemma GrowsTransitive(env: Env, v1: View, v2: View, v3: View, stack: seq<string>)
    requires Grows(env, v1, v2, stack) && Grows(env, v2, v3, stack)
    ensures Grows(env, v1, v3, stack)
  {
    forall k | k in v1.accepted ensures SameRecord(v1, v3, k) {
      assert SameRecord(v1, v2, k) && SameRecord(v2, v3, k);
    }
    forall k | k in v3.accepted && k !in v1.accepted ensures NewSince(v1, v3, stack, k) {
      if k in v2.accepted {
        assert NewSince(v1, v2, stack, k) && SameRecord(v2, v3, k);
      } else {
        assert NewSince(v2, v3, stack, k);
        assert k in v1.available ==> k in v2.available;
      }
    }
  }

  lemma GrowsDone(env: Env, v: View, v': View, stack: seq<string>)
    requires Grows(env, v, v', stack)
    ensures Done(v, stack) <= Done(v', stack)
  {
  }

  lemma SatisfiedGrows(env: Env, v: View, v': View, stack: seq<string>, p: Package, r: Atom)
    requires Grows(env, v, v', stack) && Satisfied(env, v, Done(v, stack), p, r)
    ensures Satisfied(env, v', Done(v', stack), p, r)
  {
    GrowsDone(env, v, v', stack);
    if ProvidedFor(env, v.provided, p, r.name) {
      var q, a :| q in v.provided[r.name] && a in q.provs && Admit(env.g, p, AsPackage(a)) == Admitted;
      assert q in v'.provided[r.name];
    }
  }

  /** A step of processArtefactDeps that leaves the require n satisfied. */
  lemma NextDep(env: Env, universe: set<string>, v0: View, v: View, v': View, stack: seq<string>, p: Package, n: nat)
    requires DepsDone(env, universe, v0, v, stack, p, n) && n < |p.deps|
    requires Valid(env, universe, v') && Grows(env, v, v', stack)
    requires Unobstructed(env, v.available) && v.lucky && p in env.pool ==> v'.lucky
    requires v'.lucky && Settled(v, Done(v, stack)) ==> Settled(v', Done(v', stack))
    requires Satisfied(env, v', Done(v', stack), p, p.deps[n])
    ensures DepsDone(env, universe, v0, v', stack, p, n + 1)
  {
    hide Satisfied, Settled, Valid, Done, Unobstructed;
    GrowsTransitive(env, v0, v, v', stack);
    forall k | 0 <= k < n ensures Satisfied(env, v', Done(v', stack), p, p.deps[k]) {
      SatisfiedGrows(env, v, v', stack, p, p.deps[k]);
    }
  }

  lemma DepsStart(env: Env, universe: set<string>, v: View, stack: seq<string>, p: Package)
    requires Valid(env, universe, v)
    ensures DepsDone(env, universe, v, v, stack, p, 0)
  {
    hide Valid, Grows, Settled, Satisfied, Unobstructed;
    GrowsReflexive(env, v, stack);
  }

  /** More artefacts, or another order of them, in the map of what is available. */
  ghost predicate MoreAvailable(env: Env, v: View, v': View, universe: set<string>) {
    && Enlarged(env, v, v', universe)
    && (Unobstructed(env, v.available) ==> Unobstructed(env, v'.available))
  }

  ghost predicate Enlarged(env: Env, v: View, v': View, universe: set<string>) {
    && v' == v.(available := v'.available)
    && NamedLists(v'.available) && v'.available.Keys <= universe && Pooled(env, v'.available)
    && forall k :: k in v.available ==> k in v'.available && forall a :: a in v.available[k] ==> a in v'.available[k]
  }

  lemma MoreAvailableGrows(env: Env, universe: set<string>, v: View, v': View, stack: seq<string>)
    requires Valid(env, universe, v) && MoreAvailable(env, v, v', universe)
    ensures Valid(env, universe, v') && Grows(env, v, v', stack)
    ensures Settled(v, Done(v, stack)) ==> Settled(v', Done(v', stack))
  {
    hide Valid, Unobstructed;
    EnlargedIsValid(env, universe, v, v');
  }

  lemma EnlargedIsValid(env: Env, universe: set<string>, v: View, v': View)
    requires Valid(env, universe, v) && Enlarged(env, v, v', universe)
    ensures Valid(env, universe, v')
  {
    hide IsInConflict, AdmittedByAll, NamedLists, RequiresMet, Offers, ProvidersListed, Pooled, Chain;
    forall k | k in v'.accepted ensures CandidateOk(env, v', k) {
      assert CandidateOk(env, v, k);
      RequiresStillMet(env, v, v', k);
    }
    forall j, k | j in v'.accepted && k in v'.accepted && j != k ensures Ordered(v', j, k) {
      assert Ordered(v, j, k);
    }
  }

  lemma HasCleanMore(env: Env, arts: seq<Artifact>, more: seq<Artifact>)
    requires HasClean(env, arts) && forall a :: a in arts ==> a in more
    ensures HasClean(env, more)
  {
    hide Clean;
  }

  lemma ResultHasClean(env: Env, result: seq<Artifact>, arts: seq<Artifact>, a: Artifact)
    requires CleanResult(env, result) && a in result
    requires forall b :: b in result && b.pkg.name == a.pkg.name ==> b in arts
    ensures HasClean(env, arts)
  {
    hide Clean;
    var b :| b in result && b.pkg.name == a.pkg.name && Clean(env, b.pkg);
    assert b in arts;
  }

  lemma ObtainableMore(env: Env, available: map<string, seq<Artifact>>, more: map<string, seq<Artifact>>)
    requires available.Keys <= more.Keys
    ensures forall p, r :: Obtainable(env, available, p, r) ==> Obtainable(env, more, p, r)
  {
    hide Admit;
  }

  lemma StaysUnobstructed(env: Env, available: map<string, seq<Artifact>>, more: map<string, seq<Artifact>>)
    requires Unobstructed(env, available) && available.Keys <= more.Keys
    requires forall n :: n in more ==> HasClean(env, more[n])
    ensures Unobstructed(env, more)
  {
    hide IsInConflict, Admit, HasClean, CleanResult, Obtainable;
    ObtainableMore(env, available, more);
  }

  /** What is available after adding all that the search has returned. */
  ghost predicate Added(available: map<string, seq<Artifact>>, more: map<string, seq<Artifact>>,
                        result: seq<Artifact>) {
    && (forall k :: k in available ==> k in more && forall a :: a in available[k] ==> a in more[k])
    && (forall a :: a in result ==> a.pkg.name in more && a in more[a.pkg.name])
    && (forall k :: k in more && k !in available ==> exists a :: a in result && a.pkg.name == k)
  }

  /** It stays unobstructed. */
  lemma AddedKeeps(env: Env, available: map<string, seq<Artifact>>, more: map<string, seq<Artifact>>, r: Atom)
    requires Unobstructed(env, available) && env.search(r).Some? && Added(available, more, env.search(r).value)
    ensures Unobstructed(env, more)
  {
    hide HasClean, CleanResult, Admit, Obtainable;
    forall n | n in more ensures HasClean(env, more[n]) {
      if n in available {
        HasCleanMore(env, available[n], more[n]);
      } else {
        var a :| a in env.search(r).value && a.pkg.name == n;
        ResultHasClean(env, env.search(r).value, more[n], a);
      }
    }
    StaysUnobstructed(env, available, more);
  }

  /** So does another order of what is available. */
  lemma ReorderedKeeps(env: Env, available: map<string, seq<Artifact>>, more: map<string, seq<Artifact>>)
    requires Unobstructed(env, available) && available.Keys == more.Keys
    requires forall k :: k in available ==> forall a :: a in available[k] ==> a in more[k]
    ensures Unobstructed(env, more)
  {
    hide HasClean, CleanResult, Admit, Obtainable;
    forall n | n in more ensures HasClean(env, more[n]) {
      HasCleanMore(env, available[n], more[n]);
    }
    StaysUnobstructed(env, available, more);
  }

  /** One more artefact, under its name. */
  ghost function AddOne(available: map<string, seq<Artifact>>, a: Artifact): map<string, seq<Artifact>> {
    available[a.pkg.name := (if a.pkg.name in available then available[a.pkg.name] else []) + [a]]
  }

  /** All of these, one after the other. */
  ghost function AddAll(available: map<string, seq<Artifact>>, arts: seq<Artifact>): map<string, seq<Artifact>> {
    if arts == [] then available else AddOne(AddAll(available, arts[..|arts| - 1]), arts[|arts| - 1])
  }

  /** Each name keeps what is available for it, followed by the new artefacts of this name, and there are no other
      names. */
  lemma {:induction false} AddAllMeaning(available: map<string, seq<Artifact>>, arts: seq<Artifact>, n: string)
    ensures n in AddAll(available, arts) <==> n in available || exists a :: a in arts && a.pkg.name == n
    ensures n in AddAll(available, arts) ==>
              AddAll(available, arts)[n] == (if n in available then available[n] else []) + Named(arts, n)
  {
    if arts != [] {
      var init, last := arts[..|arts| - 1], arts[|arts| - 1];
      AddAllMeaning(available, init, n);
      assert arts == init + [last];
      assert forall a :: a in arts <==> a in init || a == last;
      NoneNamed(init, n);
    }
  }

  /** The artefacts of this name, in order. */
  ghost function Named(arts: seq<Artifact>, n: string): seq<Artifact> {
    if arts == [] then []
    else
      var last := arts[|arts| - 1];
      Named(arts[..|arts| - 1], n) + (if last.pkg.name == n then [last] else [])
  }

  lemma NoneNamed(arts: seq<Artifact>, n: string)
    ensures (exists a :: a in arts && a.pkg.name == n) <==> Named(arts, n) != []
  {
    if arts != [] {
      var init, last := arts[..|arts| - 1], arts[|arts| - 1];
      NoneNamed(init, n);
      assert forall a :: a in arts <==> a in init || a == last;
    }
  }

  lemma AddOneIs(available: map<string, seq<Artifact>>, a: Artifact)
    ensures AddOne(available, a) ==
            if a.pkg.name in available then available[a.pkg.name := available[a.pkg.name] + [a]]
            else available[a.pkg.name := [a]]
  {
    assert [] + [a] == [a];
  }

  lemma SameEnlarged(env: Env, v: View, universe: set<string>)
    requires NamedLists(v.available) && v.available.Keys <= universe && Pooled(env, v.available)
    ensures Enlarged(env, v, v, universe) && Added(v.available, v.available, [])
  {
  }

  lemma SearchAdded(env: Env, universe: set<string>, v: View, v': View, r: Atom, arts: seq<Artifact>)
    requires Enlarged(env, v, v', universe) && Added(v.available, v'.available, arts)
    requires env.search(r).Some? && forall a :: a in arts <==> a in env.search(r).value
    ensures MoreAvailable(env, v, v', universe)
    ensures forall a :: a in arts ==> a.pkg.name in v'.available && a in v'.available[a.pkg.name]
  {
    hide Unobstructed, Enlarged;
    if Unobstructed(env, v.available) {
      AddedKeeps(env, v.available, v'.available, r);
    }
  }

  lemma EnlargedByOne(env: Env, v: View, v': View, universe: set<string>, a: Artifact)
    requires Enlarged(env, v, v', universe) && a.pkg.name in universe && a.pkg in env.pool
    ensures Enlarged(env, v, v'.(available := AddOne(v'.available, a)), universe)
  {
  }

  lemma AddedOne(available: map<string, seq<Artifact>>, more: map<string, seq<Artifact>>, arts: seq<Artifact>, i: nat)
    requires i < |arts| && Added(available, more, arts[..i])
    ensures Added(available, AddOne(more, arts[i]), arts[..i + 1])
  {
    assert arts[..i + 1] == arts[..i] + [arts[i]];
    var more' := AddOne(more, arts[i]);
    forall a | a in arts[..i + 1] ensures a.pkg.name in more' && a in more'[a.pkg.name] {
      assert a in arts[..i] || a == arts[i];
    }
    forall k | k in more' && k !in available ensures exists a :: a in arts[..i + 1] && a.pkg.name == k {
      if k in more {
        var a :| a in arts[..i] && a.pkg.name == k;
        assert a in arts[..i + 1];
      } else {
        assert arts[i] in arts[..i + 1];
      }
    }
  }

  /** What met the requires of a candidate keeps meeting them. */
  lemma RequiresStillMet(env: Env, v: View, v': View, k: string)
    requires RequiresMet(env, v, k) && ProvidedGrows(v.provided, v'.provided) && v.candidates.Keys <= v'.candidates.Keys
    requires k in v'.accepted && k in v'.stacks && v'.accepted[k] == v.accepted[k] && v'.stacks[k] == v.stacks[k]
    ensures RequiresMet(env, v', k)
  {
    hide Satisfied;
    forall r | r in v.accepted[k].pkg.deps ensures Satisfied(env, v', Done(v', v.stacks[k]), v.accepted[k].pkg, r) {
      SatisfiedMore(env, v, v', Done(v, v.stacks[k]), Done(v', v.stacks[k]), v.accepted[k].pkg, r);
    }
  }

  // ---------- trying the versions of one package ----------

  /** The artefacts whose version is not banned, in order. */
  function NotBanned(arts: seq<Artifact>, banned: set<string>): (valid: seq<Artifact>)
    ensures forall a :: a in valid <==> a in arts && a.pkg.version !in banned
  {
    if arts == [] then []
    else
      var init := NotBanned(arts[..|arts| - 1], banned);
      var last := arts[|arts| - 1];
      assert arts == arts[..|arts| - 1] + [last];
      if last.pkg.version in banned then init else init + [last]
  }

  /** Each artefact of a version that is not banned is kept, and the order is that of the list. */
  lemma {:induction false} NotBannedInOrder(arts: seq<Artifact>, banned: set<string>) returns (at: seq<nat>)
    ensures KeepsInOrder(arts, (a: Artifact) => a.pkg.version !in banned, (a: Artifact) => a, NotBanned(arts, banned),
                         at)
  {
    at := [];
    if arts != [] {
      var n: nat := |arts| - 1;
      at := NotBannedInOrder(arts[..n], banned);
      KeepsNext(arts, (a: Artifact) => a.pkg.version !in banned, (a: Artifact) => a, NotBanned(arts[..n], banned), at);
      if ((a: Artifact) => a.pkg.version !in banned)(arts[n]) {
        at := at + [n];
      }
    }
  }

  /** The head of what is not banned: it stands first of those in the list, at i at the latest if that is not. */
  lemma FirstNotBanned(arts: seq<Artifact>, banned: set<string>, i: nat) returns (h: nat)
    requires i < |arts| && arts[i].pkg.version !in banned
    ensures h <= i && NotBanned(arts, banned) != [] && NotBanned(arts, banned)[0] == arts[h]
    ensures arts[h].pkg.version !in banned && forall j :: 0 <= j < h ==> arts[j].pkg.version in banned
  {
    hide NotBanned;
    var at := NotBannedInOrder(arts, banned);
    assert i in at;
    h := at[0];
    assert h in at;
    forall j: nat | j < h ensures j !in at {
    }
  }

  /** It is the one at i if all before are banned; and only then, unless the same artefact is listed before. */
  lemma HeadOfNotBanned(arts: seq<Artifact>, banned: set<string>, i: nat)
    requires i < |arts| && arts[i].pkg.version !in banned
    ensures NotBanned(arts, banned) != []
    ensures (forall j :: 0 <= j < i ==> arts[j].pkg.version in banned) ==> NotBanned(arts, banned)[0] == arts[i]
    ensures arts[i] !in arts[..i] ==>
              (NotBanned(arts, banned)[0] == arts[i] <==> forall j :: 0 <= j < i ==> arts[j].pkg.version in banned)
  {
    hide NotBanned;
    var h := FirstNotBanned(arts, banned, i);
    if h < i {
      assert arts[..i][h] == arts[h];
    }
  }

  /** resolvePackage for n has tried the first idx of its versions. */
  ghost predicate Trying(env: Env, universe: set<string>, v0: View, v: View, stack: seq<string>, n: string,
                         selected: seq<Artifact>, banned: set<string>, idx: nat) {
    && Valid(env, universe, v) && Grows(env, v0, v, stack + [n])
    && n !in stack && n !in v0.candidates && idx <= |selected|
    && (forall a :: a in selected ==> a.pkg.name == n)
    && (v.lucky ==> v == v0 && forall j :: 0 <= j < idx ==> selected[j].pkg.version in banned)
    && (Unobstructed(env, v0.available) && v0.lucky && n in v0.available ==> v.lucky && HasClean(env, selected))
    && (forall a :: a in selected ==> a.pkg in env.pool)
    && Sorted(env, v0.available, n) == Some(selected) && banned == BannedBefore(env, selected, idx)
    && (forall a :: a in v0.available[n] ==> a.pkg.name == n && a.pkg in env.pool)
    && (forall i :: FirstFit(env, v0, stack + [n], selected, i) ==> idx <= i && v == v0.(lucky := v.lucky))
  }

  /** The versions banned by the time position idx of the list is tried: those in conflict before it. */
  ghost function BannedBefore(env: Env, selected: seq<Artifact>, idx: nat): set<string>
    requires idx <= |selected|
  {
    set j | 0 <= j < idx && !env.ignoreConflicts && IsInConflict(env, selected[j].pkg) :: selected[j].pkg.version
  }

  lemma NextBanned(env: Env, selected: seq<Artifact>, idx: nat)
    requires idx < |selected|
    ensures BannedBefore(env, selected, idx + 1) ==
            if !env.ignoreConflicts && IsInConflict(env, selected[idx].pkg)
            then BannedBefore(env, selected, idx) + {selected[idx].pkg.version} else BannedBefore(env, selected, idx)
  {
    hide IsInConflict;
  }

  /** Of the list of versions, sorted, the one at idx was accepted, and all that were not banned by then are
      recorded. */
  ghost predicate Listed(env: Env, list: seq<Artifact>, idx: nat, arts: seq<Artifact>, art: Artifact) {
    && SortedList(env, list).Some?
    && var selected := SortedList(env, list).value;
       && idx < |selected| && art == selected[idx]
       && art.pkg.version !in BannedBefore(env, selected, idx)
       && arts == NotBanned(selected, BannedBefore(env, selected, idx))
  }

  ghost predicate Offers(env: Env, list: seq<Artifact>, arts: seq<Artifact>, art: Artifact) {
    exists idx :: Listed(env, list, idx, arts, art)
  }

  /** The head is the accepted version if every version listed before it is banned; and only then, unless the
      very same artefact is listed before as well. */
  lemma HeadIsAccepted(env: Env, list: seq<Artifact>, idx: nat, arts: seq<Artifact>, art: Artifact)
    requires Listed(env, list, idx, arts, art)
    ensures var selected := SortedList(env, list).value;
      && arts != []
      && ((forall j :: 0 <= j < idx ==> selected[j].pkg.version in BannedBefore(env, selected, idx)) ==> arts[0] == art)
      && (art !in selected[..idx] ==>
            (arts[0] == art <==> forall j :: 0 <= j < idx ==>
               selected[j].pkg.version in BannedBefore(env, selected, idx)))
  {
    hide BannedBefore, NotBanned;
    var selected := SortedList(env, list).value;
    HeadOfNotBanned(selected, BannedBefore(env, selected, idx), idx);
  }

  /** The head recorded when the first fit is at i is this version if and only if all versions listed before it are
      banned by conflicts, unless the same artefact is listed before as well. */
  lemma FirstFitHead(env: Env, v: View, stack: seq<string>, selected: seq<Artifact>, i: nat)
    requires FirstFit(env, v, stack, selected, i) && selected[i] !in selected[..i]
    ensures var arts := NotBanned(selected, BannedBefore(env, selected, i));
      && arts != []
      && (arts[0] == selected[i] <==> forall j :: 0 <= j < i ==>
            selected[j].pkg.version in BannedBefore(env, selected, i))
  {
    hide BannedBefore, FitsNow, SkippedNow, NotBanned;
    HeadOfNotBanned(selected, BannedBefore(env, selected, i), i);
  }

  lemma TryingStart(env: Env, universe: set<string>, v: View, stack: seq<string>, n: string, selected: seq<Artifact>)
    requires Valid(env, universe, v) && n !in stack && n !in v.candidates
    requires forall a :: a in selected ==> a.pkg.name == n && a.pkg in env.pool
    requires Unobstructed(env, v.available) ==> HasClean(env, selected)
    requires Sorted(env, v.available, n) == Some(selected)
    ensures Trying(env, universe, v, v, stack, n, selected, {}, 0)
  {
    hide Valid, Grows, Unobstructed, IsInConflict, FirstFit, HasClean;
    ValidFacts(env, universe, v);
    GrowsReflexive(env, v, stack + [n]);
  }

  lemma UnluckyIsValid(env: Env, universe: set<string>, v: View)
    requires Valid(env, universe, v)
    ensures Valid(env, universe, v.(lucky := false))
  {
    hide IsInConflict, AdmittedByAll, RequiresMet, Offers, ProvidersListed, Chain;
    var v' := v.(lucky := false);
    forall k | k in v'.accepted ensures CandidateOk(env, v', k) {
      assert CandidateOk(env, v, k);
      RequiresStillMet(env, v, v', k);
    }
    forall j, k | j in v'.accepted && k in v'.accepted && j != k ensures Ordered(v', j, k) {
      assert Ordered(v, j, k);
    }
  }

  /** The version at idx is rejected: after the conflict check, which bans it, or later, which does not. */
  lemma Rejects(env: Env, universe: set<string>, v0: View, v: View, v': View, stack: seq<string>, n: string,
                selected: seq<Artifact>, banned: set<string>, banned': set<string>, idx: nat)
    requires Trying(env, universe, v0, v, stack, n, selected, banned, idx) && idx < |selected|
    requires Valid(env, universe, v') && Grows(env, v, v', stack + [n])
    requires if v'.lucky then v' == v && selected[idx].pkg.version in banned'
             else v' == v || !(Unobstructed(env, v0.available) && v0.lucky && n in v0.available)
    requires RejectsNoFit(env, v0, v, v', stack + [n], selected, idx)
    requires banned' == if !env.ignoreConflicts && IsInConflict(env, selected[idx].pkg)
                        then banned + {selected[idx].pkg.version} else banned
    ensures Trying(env, universe, v0, v', stack, n, selected, banned', idx + 1)
  {
    hide IsInConflict, Valid, Unobstructed, Grows, BannedBefore, FirstFit, HasClean;
    NextBanned(env, selected, idx);
    GrowsTransitive(env, v0, v, v', stack + [n]);
  }

  /** When nothing but conflicts stands in the way some version fits, so the list is not exhausted. */
  lemma Exhausted(env: Env, universe: set<string>, v0: View, v: View, stack: seq<string>, n: string,
                  selected: seq<Artifact>, banned: set<string>)
    requires Trying(env, universe, v0, v, stack, n, selected, banned, |selected|)
    ensures !(Unobstructed(env, v0.available) && v0.lucky && n in v0.available)
    ensures forall i :: !FirstFit(env, v0, stack + [n], selected, i)
  {
    hide IsInConflict, Valid, Grows, Unobstructed;
    if Unobstructed(env, v0.available) && v0.lucky && n in v0.available {
      NoneClean(env, selected, n);
    }
  }

  lemma NoneClean(env: Env, selected: seq<Artifact>, n: string)
    requires forall a :: a in selected ==> a.pkg.name == n && a.pkg in env.pool
    requires forall j :: 0 <= j < |selected| ==> selected[j].pkg.version in BannedBefore(env, selected, |selected|)
    ensures !HasClean(env, selected)
  {
    hide IsInConflict;
    forall a | a in selected ensures !Clean(env, a.pkg) {
      var i :| 0 <= i < |selected| && selected[i] == a;
      var j :| 0 <= j < |selected| && !env.ignoreConflicts && IsInConflict(env, selected[j].pkg)
            && selected[j].pkg.version == a.pkg.version;
      assert selected[j] in selected && selected[j].pkg.ToAtom() == a.pkg.ToAtom();
    }
  }

  lemma GrowsFewer(env: Env, v: View, v': View, stack: seq<string>, n: string)
    requires Grows(env, v, v', stack + [n])
    ensures Grows(env, v, v', stack)
    ensures n in v'.candidates ==> n in v.candidates
  {
    assert n in stack + [n];
    forall k | k in v'.accepted && k !in v.accepted ensures NewSince(v, v', stack, k) {
      assert NewSince(v, v', stack + [n], k);
    }
  }

  ghost function Written(v: View, n: string, arts: seq<Artifact>, provided: map<string, seq<Package>>, art: Artifact,
                         seen: map<string, seq<Artifact>>, stack: seq<string>, list: seq<Artifact>): View
  {
    v.(candidates := v.candidates[n := arts], provided := provided, accepted := v.accepted[n := art],
       seen := v.seen[n := seen], stacks := v.stacks[n := stack], lists := v.lists[n := list])
  }

  ghost predicate ProvidedGrows(a: map<string, seq<Package>>, b: map<string, seq<Package>>) {
    forall k :: k in a ==> k in b && a[k] <= b[k]
  }

  lemma WrittenIsValid(env: Env, universe: set<string>, v: View, n: string, arts: seq<Artifact>,
                       provided: map<string, seq<Package>>, art: Artifact, seen: map<string, seq<Artifact>>,
                       stack: seq<string>, list: seq<Artifact>)
    requires forall j :: j in v.accepted && j !in seen ==> j in v.stacks && n in v.stacks[j]
    requires Valid(env, universe, v) && n !in v.candidates && ProvidedGrows(v.provided, provided)
    requires arts != [] && art in arts && (forall a :: a in arts ==> a.pkg.name == n && a.pkg in env.pool)
    requires !env.ignoreConflicts ==> !IsInConflict(env, arts[0].pkg) && !IsInConflict(env, art.pkg)
    requires SubMap(seen, v.candidates) && AdmittedByAll(env, seen, art.pkg)
    requires Offers(env, list, arts, art) && MetWith(env, v, stack + [n], art.pkg) && ProvidersListed(env, provided)
    requires forall a :: a in list ==> a.pkg.name == n && a.pkg in env.pool
    requires v.lucky ==> art == arts[0]
    requires Chain(env, stack + [n])
    ensures Valid(env, universe, Written(v, n, arts, provided, art, seen, stack, list))
  {
    hide IsInConflict, AdmittedByAll, Ordered, CandidateOk, SubMap, ProvidedGrows, Offers, MetWith, ProvidersListed,
      Chain;
    var v' := Written(v, n, arts, provided, art, seen, stack, list);
    forall k | k in v'.accepted ensures CandidateOk(env, v', k) {
      if k != n {
        CandidateKept(env, v, n, arts, provided, art, seen, stack, list, k);
      } else {
        CandidateWritten(env, v, n, arts, provided, art, seen, stack, list);
      }
    }
    forall j, k | j in v'.accepted && k in v'.accepted && j != k ensures Ordered(v', j, k) {
      if j != n && k != n {
        StillOrdered(v, n, arts, provided, art, seen, stack, list, j, k);
      } else {
        OrderedWithWritten(v, n, arts, provided, art, seen, stack, list, if j == n then k else j);
      }
    }
  }

  lemma CandidateKept(env: Env, v: View, n: string, arts: seq<Artifact>, provided: map<string, seq<Package>>,
                      art: Artifact, seen: map<string, seq<Artifact>>, stack: seq<string>, list: seq<Artifact>,
                      k: string)
    requires CandidateOk(env, v, k) && k != n && n !in v.candidates && ProvidedGrows(v.provided, provided)
    ensures CandidateOk(env, Written(v, n, arts, provided, art, seen, stack, list), k)
  {
    hide IsInConflict, AdmittedByAll, Offers, RequiresMet, Chain;
    RequiresStillMet(env, v, Written(v, n, arts, provided, art, seen, stack, list), k);
  }

  /** The requires of p are met, with what is chosen and what is on the stack. */
  ghost predicate MetWith(env: Env, v: View, stack: seq<string>, p: Package) {
    forall k :: 0 <= k < |p.deps| ==> Satisfied(env, v, Done(v, stack), p, p.deps[k])
  }

  lemma WrittenIsMet(env: Env, v: View, n: string, arts: seq<Artifact>, provided: map<string, seq<Package>>,
                     art: Artifact, seen: map<string, seq<Artifact>>, stack: seq<string>, list: seq<Artifact>)
    requires ProvidedGrows(v.provided, provided) && MetWith(env, v, stack + [n], art.pkg)
    ensures RequiresMet(env, Written(v, n, arts, provided, art, seen, stack, list), n)
  {
    hide Satisfied, ProvidedGrows;
    var v' := Written(v, n, arts, provided, art, seen, stack, list);
    assert forall x :: x in stack + [n] ==> x in stack || x == n;
    forall r | r in art.pkg.deps ensures Satisfied(env, v', Done(v', stack), art.pkg, r) {
      var k :| 0 <= k < |art.pkg.deps| && art.pkg.deps[k] == r;
      SatisfiedMore(env, v, v', Done(v, stack + [n]), Done(v', stack), art.pkg, r);
    }
  }

  lemma CandidateWritten(env: Env, v: View, n: string, arts: seq<Artifact>, provided: map<string, seq<Package>>,
                         art: Artifact, seen: map<string, seq<Artifact>>, stack: seq<string>, list: seq<Artifact>)
    requires arts != [] && art in arts && n !in v.candidates
    requires !env.ignoreConflicts ==> !IsInConflict(env, arts[0].pkg) && !IsInConflict(env, art.pkg)
    requires SubMap(seen, v.candidates) && AdmittedByAll(env, seen, art.pkg)
    requires forall a :: a in list ==> a.pkg.name == n && a.pkg in env.pool
    requires Offers(env, list, arts, art) && ProvidedGrows(v.provided, provided) &&
             MetWith(env, v, stack + [n], art.pkg)
    requires v.lucky ==> art == arts[0]
    requires Chain(env, stack + [n])
    ensures CandidateOk(env, Written(v, n, arts, provided, art, seen, stack, list), n)
  {
    hide IsInConflict, AdmittedByAll, Offers, RequiresMet, MetWith, ProvidedGrows, Chain;
    WrittenIsMet(env, v, n, arts, provided, art, seen, stack, list);
  }

  lemma StillOrdered(v: View, n: string, arts: seq<Artifact>, provided: map<string, seq<Package>>, art: Artifact,
                     seen: map<string, seq<Artifact>>, stack: seq<string>, list: seq<Artifact>, j: string, k: string)
    requires Ordered(v, j, k) && j != n && k != n
    ensures Ordered(Written(v, n, arts, provided, art, seen, stack, list), j, k)
  {
  }

  lemma OrderedWithWritten(v: View, n: string, arts: seq<Artifact>, provided: map<string, seq<Package>>, art: Artifact,
                           seen: map<string, seq<Artifact>>, stack: seq<string>, list: seq<Artifact>, j: string)
    requires j != n && (j in seen || (j in v.stacks && n in v.stacks[j]))
    ensures Ordered(Written(v, n, arts, provided, art, seen, stack, list), j, n)
    ensures Ordered(Written(v, n, arts, provided, art, seen, stack, list), n, j)
  {
  }

  lemma WrittenGrows(env: Env, v0: View, v: View, n: string, arts: seq<Artifact>, provided: map<string, seq<Package>>,
                     art: Artifact, seen: map<string, seq<Artifact>>, stack: seq<string>, list: seq<Artifact>)
    requires Grows(env, v0, v, stack) && v0.accepted.Keys <= seen.Keys
    requires n !in v.candidates && n !in v0.accepted && n !in stack && ProvidedGrows(v.provided, provided)
    requires n in v0.available ==> list == v0.available[n]
    ensures Grows(env, v0, Written(v, n, arts, provided, art, seen, stack, list), stack)
  {
    hide Unobstructed, NewSince, SameRecord, ProvidedGrows, Written, SubMap;
    WrittenMaps(env, v0, v, n, arts, provided, art, seen, stack, list);
    WrittenRecords(v0, v, n, arts, provided, art, seen, stack, list);
  }

  lemma WrittenMaps(env: Env, v0: View, v: View, n: string, arts: seq<Artifact>, provided: map<string, seq<Package>>,
                    art: Artifact, seen: map<string, seq<Artifact>>, stack: seq<string>, list: seq<Artifact>)
    requires Grows(env, v0, v, stack)
    requires n !in v.candidates && n !in stack && ProvidedGrows(v.provided, provided)
    ensures var v' := Written(v, n, arts, provided, art, seen, stack, list);
      && SubMap(v0.candidates, v'.candidates)
      && (forall k :: k in v'.candidates && k !in v0.candidates ==> k !in stack && k in v'.accepted)
      && v0.accepted.Keys <= v'.accepted.Keys && v'.available == v.available && v'.lucky == v.lucky
      && (forall k :: k in v0.provided ==> k in v'.provided && v0.provided[k] <= v'.provided[k])
  {
    hide Unobstructed, NewSince, SameRecord;
  }

  lemma WrittenRecords(v0: View, v: View, n: string, arts: seq<Artifact>, provided: map<string, seq<Package>>,
                       art: Artifact, seen: map<string, seq<Artifact>>, stack: seq<string>, list: seq<Artifact>)
    requires v0.accepted.Keys <= seen.Keys && n !in v0.accepted
    requires forall k :: k in v0.accepted ==> SameRecord(v0, v, k)
    requires forall k :: k in v.accepted && k !in v0.accepted ==> NewSince(v0, v, stack, k)
    requires n in v0.available ==> list == v0.available[n]
    ensures var v' := Written(v, n, arts, provided, art, seen, stack, list);
      && (forall k :: k in v0.accepted ==> SameRecord(v0, v', k))
      && (forall k :: k in v'.accepted && k !in v0.accepted ==> NewSince(v0, v', stack, k))
  {
    var v' := Written(v, n, arts, provided, art, seen, stack, list);
    hide NewSince, SameRecord;
    forall k | k in v'.accepted && k !in v0.accepted ensures NewSince(v0, v', stack, k) {
      WrittenNewSince(v0, v, n, arts, provided, art, seen, stack, list, k);
    }
    forall k | k in v0.accepted ensures SameRecord(v0, v', k) {
      WrittenSameRecord(v0, v, n, arts, provided, art, seen, stack, list, k);
    }
  }

  lemma WrittenDone(v: View, n: string, arts: seq<Artifact>, provided: map<string, seq<Package>>, art: Artifact,
                    seen: map<string, seq<Artifact>>, stack: seq<string>, list: seq<Artifact>)
    ensures Done(Written(v, n, arts, provided, art, seen, stack, list), stack) == Done(v, stack + [n])
  {
    assert forall x :: x in stack + [n] <==> x in stack || x == n;
  }

  lemma WrittenNewSince(v0: View, v: View, n: string, arts: seq<Artifact>, provided: map<string, seq<Package>>,
                        art: Artifact, seen: map<string, seq<Artifact>>, stack: seq<string>, list: seq<Artifact>,
                        k: string)
    requires k == n || NewSince(v0, v, stack, k)
    requires v0.accepted.Keys <= seen.Keys && (n in v0.available ==> list == v0.available[n])
    ensures NewSince(v0, Written(v, n, arts, provided, art, seen, stack, list), stack, k)
  {
  }

  lemma WrittenSameRecord(v0: View, v: View, n: string, arts: seq<Artifact>, provided: map<string, seq<Package>>,
                          art: Artifact, seen: map<string, seq<Artifact>>, stack: seq<string>, list: seq<Artifact>,
                          k: string)
    requires SameRecord(v0, v, k) && k != n
    ensures SameRecord(v0, Written(v, n, arts, provided, art, seen, stack, list), k)
  {
  }

  lemma SatisfiedMore(env: Env, v: View, v': View, done: set<string>, done': set<string>, p: Package, r: Atom)
    requires ProvidedGrows(v.provided, v'.provided) && done <= done' && Satisfied(env, v, done, p, r)
    ensures Satisfied(env, v', done', p, r)
  {
    if ProvidedFor(env, v.provided, p, r.name) {
      var q, a :| q in v.provided[r.name] && a in q.provs && Admit(env.g, p, AsPackage(a)) == Admitted;
      assert q in v'.provided[r.name];
    }
  }

  lemma SettledDeeper(v: View, stack: seq<string>, n: string)
    requires Settled(v, Done(v, stack))
    ensures Settled(v, Done(v, stack + [n]))
  {
    assert Done(v, stack) <= Done(v, stack + [n]);
  }

  lemma WrittenIsSettled(v: View, n: string, arts: seq<Artifact>, provided: map<string, seq<Package>>, art: Artifact,
                         seen: map<string, seq<Artifact>>, stack: seq<string>, list: seq<Artifact>)
    requires Settled(v, Done(v, stack + [n]))
    ensures Settled(Written(v, n, arts, provided, art, seen, stack, list), Done(v, stack + [n]))
  {
    assert forall x :: x in stack ==> x in stack + [n];
  }

  lemma AcceptedAreCandidates(env: Env, universe: set<string>, v: View)
    requires Valid(env, universe, v)
    ensures v.accepted.Keys <= v.candidates.Keys
  {
    forall k | k in v.accepted ensures k in v.candidates {
      assert CandidateOk(env, v, k);
    }
  }

  /** What was resolved while n was under analysis has n on its stack. */
  lemma NestedRecords(env: Env, universe: set<string>, v: View, v': View, stack: seq<string>, n: string)
    requires Valid(env, universe, v) && Grows(env, v, v', stack + [n])
    ensures forall j :: j in v'.accepted && j !in v.candidates ==> j in v'.stacks && n in v'.stacks[j]
  {
    AcceptedAreCandidates(env, universe, v);
    forall j | j in v'.accepted && j !in v.candidates ensures j in v'.stacks && n in v'.stacks[j] {
      assert NewSince(v, v', stack + [n], j);
      assert n in stack + [n];
    }
  }

  /** The version at idx is accepted, and what is not banned is recorded for n. */
  lemma {:induction false} Accepts(env: Env, universe: set<string>, v0: View, v: View, v': View, stack: seq<string>,
                                   n: string, selected: seq<Artifact>, banned: set<string>, idx: nat,
                                   provided: map<string, seq<Package>>)
    requires Trying(env, universe, v0, v, stack, n, selected, banned, idx) && idx < |selected|
    requires selected[idx].pkg.version !in banned
    requires env.ignoreConflicts || !IsInConflict(env, selected[idx].pkg)
    requires AdmittedByAll(env, v.candidates, selected[idx].pkg)
    requires DepsDone(env, universe, v, v', stack + [n], selected[idx].pkg, |selected[idx].pkg.deps|)
    requires ProvidedGrows(v'.provided, provided) && ProvidersListed(env, provided) && Chain(env, stack + [n])
    ensures n in v0.available
    ensures Resolves(env, universe, v0, Recorded(v0, v, v', n, selected, banned, idx, provided, stack), stack, n,
                     Resolved)
  {
    hide IsInConflict, AdmittedByAll, Settled, Valid, Grows, Trying, DepsDone, Written, Done, NotBanned, Unobstructed,
      Offers, MetWith, ProvidersListed, Chain;
    var art, arts := selected[idx], NotBanned(selected, banned);
    TryingFacts(env, universe, v0, v, stack, n, selected, banned, idx);
    var list := v0.available[n];
    DepsFacts(env, universe, v, v', stack + [n], art.pkg, |art.pkg.deps|);
    HeadIsChecked(env, universe, v0, v, stack, n, selected, banned, idx);
    GrowsTransitive(env, v0, v, v', stack + [n]);
    GrowsFewer(env, v0, v', stack, n);
    NestedRecords(env, universe, v, v', stack, n);
    AcceptedAreCandidates(env, universe, v);
    AcceptedAreCandidates(env, universe, v');
    GrowsFacts(env, v0, v, stack + [n]);
    GrowsFacts(env, v, v', stack + [n]);
    DepsSucceed(env, universe, v, v', stack + [n], art.pkg);
    WrittenIsValid(env, universe, v', n, arts, provided, art, v.candidates, stack, list);
    WrittenGrows(env, v0, v', n, arts, provided, art, v.candidates, stack, list);
    WrittenDone(v', n, arts, provided, art, v.candidates, stack, list);
    WrittenFacts(v', n, arts, provided, art, v.candidates, stack, list);
    NotDone(v0, stack, n);
    if v'.lucky && Settled(v0, Done(v0, stack)) {
      SettledDeeper(v0, stack, n);
      WrittenIsSettled(v', n, arts, provided, art, v.candidates, stack, list);
    }
  }

  /** The view after the version at idx was accepted. */
  ghost function Recorded(v0: View, v: View, v': View, n: string, selected: seq<Artifact>, banned: set<string>,
                          idx: nat, provided: map<string, seq<Package>>, stack: seq<string>): View
    requires n in v0.available && idx < |selected|
  {
    Written(v', n, NotBanned(selected, banned), provided, selected[idx], v.candidates, stack, v0.available[n])
  }

  lemma DepsSucceed(env: Env, universe: set<string>, v: View, v': View, stack: seq<string>, p: Package)
    requires DepsDone(env, universe, v, v', stack, p, |p.deps|) && p in env.pool
    ensures Unobstructed(env, v.available) && v.lucky ==> v'.lucky
    ensures MetWith(env, v', stack, p)
    ensures v'.lucky && Settled(v, Done(v, stack)) ==> Settled(v', Done(v', stack))
  {
    hide Settled, Satisfied, Valid, Grows, Done, Unobstructed;
  }

  lemma NotDone(v: View, stack: seq<string>, n: string)
    ensures n in Done(v, stack) <==> n in stack || n in v.candidates
  {
  }

  lemma WrittenFacts(v: View, n: string, arts: seq<Artifact>, provided: map<string, seq<Package>>, art: Artifact,
                     seen: map<string, seq<Artifact>>, stack: seq<string>, list: seq<Artifact>)
    ensures n in Done(Written(v, n, arts, provided, art, seen, stack, list), stack)
    ensures Written(v, n, arts, provided, art, seen, stack, list).lucky == v.lucky
  {
  }

  lemma GrowsFacts(env: Env, v: View, v': View, stack: seq<string>)
    requires Grows(env, v, v', stack)
    ensures SubMap(v.candidates, v'.candidates) && v.accepted.Keys <= v'.accepted.Keys && (v'.lucky ==> v.lucky)
    ensures Unobstructed(env, v.available) ==> Unobstructed(env, v'.available)
  {
    hide Unobstructed;
  }

  /** What is recorded for n when the version at idx is accepted: its head has passed the conflict check,
      and in a lucky run it is this version. */
  lemma HeadIsChecked(env: Env, universe: set<string>, v0: View, v: View, stack: seq<string>, n: string,
                      selected: seq<Artifact>, banned: set<string>, idx: nat)
    requires Trying(env, universe, v0, v, stack, n, selected, banned, idx) && idx < |selected|
    requires selected[idx].pkg.version !in banned
    requires env.ignoreConflicts || !IsInConflict(env, selected[idx].pkg)
    ensures n !in stack && n !in v0.candidates && (v.lucky ==> v == v0) && Grows(env, v0, v, stack + [n])
    ensures Unobstructed(env, v0.available) && v0.lucky && n in v0.available ==> v.lucky
    ensures selected[idx].pkg in env.pool && n in v0.available
    ensures var arts := NotBanned(selected, banned);
      && selected[idx] in arts && (forall a :: a in arts ==> a.pkg.name == n && a.pkg in env.pool)
      && (!env.ignoreConflicts ==> !IsInConflict(env, arts[0].pkg))
      && (v.lucky ==> selected[idx] == arts[0])
      && Listed(env, v0.available[n], idx, arts, selected[idx]) && Offers(env, v0.available[n], arts, selected[idx])
  {
    hide Valid, Grows, Unobstructed, IsInConflict, AdmittedByAll, FirstFit, HasClean;
    var arts := NotBanned(selected, banned);
    assert Listed(env, v0.available[n], idx, arts, selected[idx]);
    assert selected[idx] in arts;
    var h := FirstNotBanned(selected, banned, idx);
  }

  /** Giving up on n, in a run that is no longer lucky. */
  lemma GivesUp(env: Env, universe: set<string>, v0: View, v: View, v': View, stack: seq<string>, n: string,
                selected: seq<Artifact>, banned: set<string>, idx: nat, r: Outcome)
    requires Trying(env, universe, v0, v, stack, n, selected, banned, idx)
    requires Valid(env, universe, v') && Grows(env, v, v', stack + [n]) && !v'.lucky && r != Resolved
    requires !(Unobstructed(env, v0.available) && v0.lucky && n in v0.available)
    ensures Resolves(env, universe, v0, v', stack, n, r)
  {
    hide IsInConflict, Valid, Settled, Unobstructed, Grows, BannedBefore, FirstFit, HasClean, Done;
    GrowsTransitive(env, v0, v, v', stack + [n]);
    GrowsFewer(env, v0, v', stack, n);
    NotDone(v', stack, n);
    NotDone(v0, stack, n);
  }

  lemma FailsAtOnce(env: Env, universe: set<string>, v: View, stack: seq<string>, n: string)
    requires Valid(env, universe, v) && n !in stack && n !in v.candidates
    requires !(Unobstructed(env, v.available) && v.lucky && n in v.available)
    ensures Resolves(env, universe, v, v.(lucky := false), stack, n, ResolveError)
  {
    hide Valid, Unobstructed;
    UnluckyIsValid(env, universe, v);
  }

  lemma AlreadyDone(env: Env, universe: set<string>, v: View, stack: seq<string>, n: string)
    requires Valid(env, universe, v) && (n in stack || n in v.candidates)
    ensures Resolves(env, universe, v, v, stack, n, Resolved)
  {
    hide Valid, Unobstructed, Settled;
  }

  lemma BecomesUnlucky(env: Env, universe: set<string>, v: View, v': View, stack: seq<string>)
    requires Valid(env, universe, v') && Grows(env, v, v', stack)
    ensures Valid(env, universe, v'.(lucky := false)) && Grows(env, v, v'.(lucky := false), stack)
  {
    hide Valid;
    UnluckyIsValid(env, universe, v');
    var v'' := v'.(lucky := false);
    forall k | k in v.accepted ensures SameRecord(v, v'', k) {
      assert SameRecord(v, v', k);
    }
    forall k | k in v''.accepted && k !in v.accepted ensures NewSince(v, v'', stack, k) {
      assert NewSince(v, v', stack, k);
    }
  }

  lemma ValidFacts(env: Env, universe: set<string>, v: View)
    requires Valid(env, universe, v)
    ensures NamedLists(v.available) && v.available.Keys <= universe && NamedLists(v.candidates)
    ensures Pooled(env, v.available)
    ensures forall n :: n in env.system ==> env.system[n] != []
  {
  }

  /** The names that are not on the stack yet: what bounds the recursion. */
  ghost function Unvisited(universe: set<string>, stack: seq<string>): set<string> {
    universe - set n | n in stack
  }

  lemma PushedStack(universe: set<string>, stack: seq<string>, n: string)
    requires StackOk(stack, universe) && n in universe && n !in stack
    ensures StackOk(stack + [n], universe) && Unvisited(universe, stack + [n]) < Unvisited(universe, stack)
  {
    assert forall x :: x in stack + [n] <==> x in stack || x == n;
    assert n in Unvisited(universe, stack) && n !in Unvisited(universe, stack + [n]);
  }

  /** After the call that resolves the name n, the require r that led to n is satisfied. */
  lemma ResolvedSatisfies(env: Env, universe: set<string>, v: View, v1: View, v2: View, stack: seq<string>, p: Package,
                          r: Atom, n: string)
    requires Valid(env, universe, v) && MoreAvailable(env, v, v1, universe)
    requires Resolves(env, universe, v1, v2, stack, n, Resolved) && (n == r.name || FoundFor(env, r, n))
    ensures Valid(env, universe, v2) && Grows(env, v, v2, stack) && Satisfied(env, v2, Done(v2, stack), p, r)
    ensures v2.lucky && Settled(v, Done(v, stack)) ==> Settled(v2, Done(v2, stack))
  {
    hide Settled, Valid, FoundFor, ProvidedFor, Unobstructed;
    MoreAvailableGrows(env, universe, v, v1, stack);
    GrowsTransitive(env, v, v1, v2, stack);
  }

  lemma UnresolvedGrows(env: Env, universe: set<string>, v: View, v1: View, v2: View, stack: seq<string>, n: string,
                        r: Outcome)
    requires Valid(env, universe, v) && MoreAvailable(env, v, v1, universe) &&
             Resolves(env, universe, v1, v2, stack, n, r)
    ensures Valid(env, universe, v2) && Grows(env, v, v2, stack)
    ensures Unobstructed(env, v.available) && v.lucky && n in v1.available ==> v2.lucky && r == Resolved
    ensures Extends(env, v, v2, stack)
  {
    hide Settled, Valid, Unobstructed;
    MoreAvailableGrows(env, universe, v, v1, stack);
    GrowsTransitive(env, v, v1, v2, stack);
  }

  /** Every candidate has a record of how it was accepted. */
  ghost predicate AllRecorded(v: View) {
    v.candidates.Keys <= v.accepted.Keys
  }

  lemma ResolvesFacts(env: Env, universe: set<string>, v: View, v': View, n: string, r: Outcome)
    requires Resolves(env, universe, v, v', [], n, r) && AllRecorded(v)
    ensures Valid(env, universe, v') && AllRecorded(v') && v.candidates.Keys <= v'.candidates.Keys
    ensures v'.lucky ==> v.lucky && r == Resolved
    ensures v'.lucky && Settled(v, Done(v, [])) ==> Settled(v', Done(v', []))
    ensures r == Resolved <==> n in v'.candidates
    ensures Unobstructed(env, v.available) && v.lucky && n in v.available ==> v'.lucky
    ensures Unobstructed(env, v.available) ==> Unobstructed(env, v'.available)
    ensures v.available.Keys <= v'.available.Keys
  {
    hide Valid, Settled, Unobstructed;
  }

  /** The versions of a package, sorted if there are several. */
  function Sorted(env: Env, available: map<string, seq<Artifact>>, n: string): Option<seq<Artifact>> {
    if n !in available then None else SortedList(env, available[n])
  }

  function SortedList(env: Env, list: seq<Artifact>): Option<seq<Artifact>> {
    if |list| == 1 then Some(list) else env.sortVersions(list)
  }

  function AttemptOf(deps: DepsOutcome): Attempt {
    match deps
    case DepsAdmitted => Fits
    case DepsRejected => NotAdmitted
    case DepsError => Errs
  }

  /** What trying one version does: it fits only if the candidates before admit it and its requires are settled,
      it is in conflict exactly if it should be, and only a conflict stops it when nothing else stands in the way.
      A conflict changes nothing; neither does a version that the candidates reject, or that fits at entry. */
  ghost predicate Tried(env: Env, universe: set<string>, v: View, v': View, stack: seq<string>, p: Package,
                        attempt: Attempt) {
    && Valid(env, universe, v') && Grows(env, v, v', stack)
    && (attempt == Fits ==> AdmittedByAll(env, v.candidates, p) && DepsDone(env, universe, v, v', stack, p, |p.deps|))
    && (attempt == Conflicts <==> !env.ignoreConflicts && IsInConflict(env, p))
    && (attempt == Conflicts ==> v' == v)
    && (attempt == NotAdmitted || attempt == Errs ==> !v'.lucky && !(Unobstructed(env, v.available) && v.lucky))
    && (attempt != Conflicts && RejectedByQueue(env, v.candidates, p) ==>
          attempt == NotAdmitted && v' == v.(lucky := false))
    && (FitsNow(env, v, stack, p) ==> attempt == Fits && v' == v)
    && (StartsWell(env, v, stack, p) ==> p.deps[0].name in v'.candidates)
    && (NoErrors(env) && p in env.pool ==> attempt != Errs)
    && (ErrsAtOnce(env, v, stack, p) ==> attempt == Errs)
    && (attempt != Conflicts && AdmittedByAll(env, v.candidates, p) && RejectsFirst(env, v, p) ==>
          attempt == NotAdmitted && v' == v.(lucky := false))
  }

  lemma FoundUnsettled(env: Env, v: View, stack: seq<string>, p: Package, r: Atom)
    ensures FindsAtOnce(env, v, stack, p, r) ==>
              && r.name !in env.system && !ProvidedFor(env, v.provided, p, r.name) && r.name !in Done(v, stack)
              && r.name !in v.available && env.search(r).Some? && |env.search(r).value| == 1
  {
    hide FitsNow, ProvidedFor;
  }

  /** What the search found fits, once it is available. */
  lemma FoundFirst(env: Env, v: View, v1: View, stack: seq<string>, p: Package, r: Atom)
    requires FindsAtOnce(env, v, stack, p, r)
    requires v1 == v.(available := AddOne(v.available, env.search(r).value[0]))
    ensures OtherName(r.name, env.search(r).value) == r.name && r.name !in stack && r.name !in v.candidates
    ensures Sorted(env, v1.available, r.name) == Some(env.search(r).value)
    ensures FirstFit(env, v1, stack + [r.name], env.search(r).value, 0)
  {
    hide Admit, IsInConflict, ProvidedFor;
    var a := env.search(r).value[0];
    assert [] + [a] == env.search(r).value && env.search(r).value[1..] == [];
    forall q | q in a.pkg.deps ensures SettledNow(env, v1, stack + [r.name], a.pkg, q) {
      assert SettledNow(env, v, stack + [r.name], a.pkg, q);
    }
  }

  lemma ErrsNowMeans(env: Env, v: View, stack: seq<string>, p: Package, r: Atom)
    ensures ErrsNow(env, v, stack, p, r) ==>
              if r.name in env.system then env.system[r.name] != [] && Admit(env.g, p, env.system[r.name][0]) == Failed
              else !ProvidedFor(env, v.provided, p, r.name) && r.name !in Done(v, stack) && r.name !in v.available
                   && env.search(r).None?
  {
    hide Admit, ProvidedFor, Done;
  }

  lemma SettledNowMeans(env: Env, v: View, stack: seq<string>, p: Package, r: Atom)
    ensures SettledNow(env, v, stack, p, r) ==>
              && (r.name in env.system ==>
                    && env.system[r.name] != [] && Admit(env.g, p, env.system[r.name][0]) != Failed
                    && (Admit(env.g, p, env.system[r.name][0]) == Admitted || r.name in v.available))
              && (|| (r.name in env.system && Admit(env.g, p, env.system[r.name][0]) == Admitted)
                  || ProvidedFor(env, v.provided, p, r.name) || r.name in Done(v, stack))
  {
    hide Admit, ProvidedFor, Done;
  }

  /** What makes the require available, and which name is resolved for it. */
  lemma MadeAvailable(env: Env, v: View, v1: View, stack: seq<string>, r: Atom, name: Option<string>)
    requires v1 == v.(available := v1.available)
    requires r.name !in v.available ==> (name.None? <==> env.search(r).None?)
    requires r.name !in v.available && env.search(r).Some? ==>
               name == Some(OtherName(r.name, FoundList(env, r))) &&
               v1.available == AddAll(v.available, FoundList(env, r))
    requires r.name in v.available ==>
               && (name.None? <==> !env.hasRepos && Sorted(env, v.available, r.name).None?)
               && (name.Some? ==> name.value == r.name)
               && v1.available == if env.hasRepos then v.available[r.name := env.sortRepos(v.available[r.name])]
                                  else v.available
    ensures name.None? ==> !ToResolve(env, v, stack, r)
    ensures name.Some? ==> v1 == WithRequire(env, v, r) && name.value == NextName(env, v, r)
    ensures ToResolve(env, v, stack, r) ==>
              name.Some? && name.value !in stack && name.value !in v1.candidates
  {
    hide AddAll, OtherName, Sorted;
  }

  /** How one require comes out: settled at entry it is admitted, rejected at entry it is rejected, both with nothing
      changed; it is an error if it errs at entry, and never in a run without errors; and if it is to be resolved, the
      call for the name decides. */
  ghost predicate DepRight(env: Env, v: View, v': View, stack: seq<string>, p: Package, r: Atom, o: DepsOutcome) {
    && (SettledNow(env, v, stack, p, r) ==> o == DepsAdmitted && Unchanged(v, v'))
    && (RejectedNow(env, v, p, r) ==> o == DepsRejected && Unchanged(v, v'))
    && (ErrsNow(env, v, stack, p, r) ==> o == DepsError)
    && (NoErrors(env) ==> o != DepsError)
    && (Unsettled(env, v, stack, p, r) && ToResolve(env, v, stack, r) ==>
          Follows(env, WithRequire(env, v, r), v', stack, NextName(env, v, r), OutcomeOf(o)))
    && (FindsAtOnce(env, v, stack, p, r) ==> r.name in v'.candidates)
  }

  /** The require is installed in a version that p rejects, and no other one is available. */
  ghost predicate RejectedNow(env: Env, v: View, p: Package, r: Atom) {
    && r.name in env.system && env.system[r.name] != [] && r.name !in v.available
    && Admit(env.g, p, env.system[r.name][0]) == Rejected
  }

  lemma DepSettled(env: Env, v: View, stack: seq<string>, p: Package, r: Atom, o: DepsOutcome)
    requires r.name in env.system ==> env.system[r.name] != []
    requires o == DepsError <==> r.name in env.system && Admit(env.g, p, env.system[r.name][0]) == Failed
    requires o == DepsRejected <==>
             r.name in env.system && Admit(env.g, p, env.system[r.name][0]) == Rejected && r.name !in v.available
    requires !Unsettled(env, v, stack, p, r)
    requires NoErrors(env) ==> o != DepsError
    ensures DepRight(env, v, v, stack, p, r, o)
  {
    hide Admit, ProvidedFor, Done, NoErrors, ToResolve, FindsAtOnce, Unsettled;
    SettledNowMeans(env, v, stack, p, r);
    ErrsNowMeans(env, v, stack, p, r);
    FoundIsUnsettled(env, v, stack, p, r);
    SettledOrNot(env, v, stack, p, r);
  }

  lemma FoundIsUnsettled(env: Env, v: View, stack: seq<string>, p: Package, r: Atom)
    ensures FindsAtOnce(env, v, stack, p, r) ==> Unsettled(env, v, stack, p, r)
  {
    hide FitsNow, ProvidedFor, Admit;
  }

  lemma SettledOrNot(env: Env, v: View, stack: seq<string>, p: Package, r: Atom)
    ensures ErrsNow(env, v, stack, p, r) && r.name !in env.system ==> Unsettled(env, v, stack, p, r)
  {
    hide ProvidedFor, Admit, Done;
  }

  lemma DepResolved(env: Env, v: View, v': View, stack: seq<string>, p: Package, r: Atom, o: DepsOutcome)
    requires Unsettled(env, v, stack, p, r)
    requires NoErrors(env) ==> o != DepsError
    requires r.name !in env.system && r.name !in v.available && env.search(r).None? ==> o == DepsError
    requires ToResolve(env, v, stack, r) ==>
               Follows(env, WithRequire(env, v, r), v', stack, NextName(env, v, r), OutcomeOf(o))
    requires FindsAtOnce(env, v, stack, p, r) ==> r.name in v'.candidates
    ensures DepRight(env, v, v', stack, p, r, o)
  {
    hide Admit, ProvidedFor, Done, NoErrors, ToResolve, FindsAtOnce, Follows, WithRequire, NextName;
  }

  lemma InstalledNeverFails(env: Env, stack: seq<string>, p: Package, n: string)
    requires Under(env, stack, p)
    ensures NoErrors(env) && n in env.system && env.system[n] != [] ==> Admit(env.g, p, env.system[n][0]) != Failed
  {
    hide Admit;
  }

  lemma SearchNeverFails(env: Env, stack: seq<string>, p: Package, r: Atom)
    requires Under(env, stack, p) && r in p.deps
    ensures NoErrors(env) ==> SortingSucceeds(env)
    ensures NoErrors(env) && r.name !in env.system ==> env.search(r).Some? && env.search(r).value != []
  {
    hide Admit, SortingSucceeds;
  }

  lemma NoErrorsSort(env: Env)
    ensures NoErrors(env) ==> SortingSucceeds(env)
  {
    hide Admit, SortingSucceeds;
  }

  lemma UnobstructedSorts(env: Env, available: map<string, seq<Artifact>>)
    ensures Unobstructed(env, available) ==> SortingSucceeds(env)
  {
    hide Admit, SortingSucceeds, SortingKeeps, Obtainable, HasClean, CleanResult;
  }

  lemma ChosenIsCandidate(env: Env, v: View, v': View, n: string, selected: seq<Artifact>, i: nat)
    ensures Chose(env, v, v', n, selected, i) ==> n in v'.candidates
  {
    hide BannedBefore, NotBanned;
  }

  lemma TriedConflict(env: Env, universe: set<string>, v: View, stack: seq<string>, p: Package)
    requires Valid(env, universe, v) && !env.ignoreConflicts && IsInConflict(env, p)
    ensures Tried(env, universe, v, v, stack, p, Conflicts)
  {
    hide Valid, Grows, DepsDone, IsInConflict, AdmittedByAll, Unobstructed, RejectedByQueue, SettledNow, FindsAtOnce,
      NoErrors, FailsInQueue, ErrsNow, RejectsFirst;
    GrowsReflexive(env, v, stack);
  }

  lemma TriedQueue(env: Env, universe: set<string>, v: View, stack: seq<string>, p: Package, admit: Verdict)
    requires Valid(env, universe, v) && p in env.pool && admit != Admitted
    requires env.ignoreConflicts || !IsInConflict(env, p)
    requires !AdmittedByAll(env, v.candidates, p)
    requires exists k :: k in v.candidates && v.candidates[k] != [] && Admit(env.g, v.candidates[k][0].pkg, p) == admit
    requires NoErrors(env) ==> admit != Failed
    ensures Tried(env, universe, v, v.(lucky := false), stack, p, if admit == Failed then Errs else NotAdmitted)
  {
    hide Valid, Grows, DepsDone, IsInConflict, AdmittedByAll, Unobstructed, SettledNow, Admit, FindsAtOnce, NoErrors,
      ErrsNow, RejectsFirst;
    NothingBlocks(env, universe, v, p);
    GrowsReflexive(env, v, stack);
    BecomesUnlucky(env, universe, v, v, stack);
  }

  lemma TriedDeps(env: Env, universe: set<string>, v: View, v1: View, stack: seq<string>, p: Package, deps: DepsOutcome)
    requires Valid(env, universe, v1) && Grows(env, v, v1, stack) && p in env.pool
    requires env.ignoreConflicts || !IsInConflict(env, p)
    requires AdmittedByAll(env, v.candidates, p)
    requires deps == DepsAdmitted ==> DepsDone(env, universe, v, v1, stack, p, |p.deps|)
    requires Unobstructed(env, v.available) && v.lucky ==> deps == DepsAdmitted
    requires AllSettled(env, v, stack, p) ==> deps == DepsAdmitted && Unchanged(v, v1)
    requires p.deps != [] && FindsAtOnce(env, v, stack, p, p.deps[0]) ==> p.deps[0].name in v1.candidates
    requires NoErrors(env) ==> deps != DepsError
    requires p.deps != [] && ErrsNow(env, v, stack, p, p.deps[0]) ==> deps == DepsError
    requires RejectsFirst(env, v, p) ==> deps == DepsRejected && Unchanged(v, v1)
    ensures Tried(env, universe, v, if deps == DepsAdmitted then v1 else v1.(lucky := false), stack, p, AttemptOf(deps))
  {
    hide Valid, Grows, DepsDone, IsInConflict, Unobstructed, SettledNow, Admit, FindsAtOnce, NoErrors, ErrsNow,
      RejectsFirst;
    QueueAdmits(env, v.candidates, p);
    BecomesUnlucky(env, universe, v, v1, stack);
  }

  lemma QueueAdmits(env: Env, candidates: map<string, seq<Artifact>>, p: Package)
    requires AdmittedByAll(env, candidates, p)
    ensures !FailsInQueue(env, candidates, p) && !RejectedByQueue(env, candidates, p)
  {
    hide Admit;
  }

  lemma QueueNeverFails(env: Env, universe: set<string>, v: View, p: Package, r: Verdict)
    requires Valid(env, universe, v) && p in env.pool && NoErrors(env)
    requires exists k :: k in v.candidates && v.candidates[k] != [] && Admit(env.g, v.candidates[k][0].pkg, p) == r
    ensures r != Failed
  {
    hide Admit, CandidateOk, Ordered, ProvidersListed;
    var k :| k in v.candidates && v.candidates[k] != [] && Admit(env.g, v.candidates[k][0].pkg, p) == r;
    assert v.candidates[k][0] in v.candidates[k];
  }

  lemma TriedFacts(env: Env, universe: set<string>, v: View, v': View, stack: seq<string>, p: Package, attempt: Attempt)
    requires Tried(env, universe, v, v', stack, p, attempt)
    ensures Valid(env, universe, v') && Grows(env, v, v', stack)
    ensures attempt == Fits ==>
              AdmittedByAll(env, v.candidates, p) && DepsDone(env, universe, v, v', stack, p, |p.deps|)
    ensures attempt == Conflicts <==> !env.ignoreConflicts && IsInConflict(env, p)
    ensures attempt == Conflicts ==> v' == v
    ensures attempt == NotAdmitted || attempt == Errs ==> !v'.lucky && !(Unobstructed(env, v.available) && v.lucky)
    ensures StartsWell(env, v, stack, p) ==> p.deps[0].name in v'.candidates
    ensures v.candidates.Keys <= v'.candidates.Keys
  {
    hide Valid, DepsDone, IsInConflict, AdmittedByAll, Unobstructed, RejectedByQueue, FitsNow, StartsWell, NewSince,
      SameRecord, NoErrors, ErrsAtOnce, RejectsFirst;
  }

  /** While the first fit is still to come, trying a version changes nothing that it depends on, and its own turn
      is a success that changes nothing. */
  lemma BeforeFirstFit(env: Env, universe: set<string>, v0: View, v: View, v': View, stack: seq<string>,
                       selected: seq<Artifact>, idx: nat, i: nat, attempt: Attempt)
    requires FirstFit(env, v0, stack, selected, i) && idx <= i && v == v0.(lucky := v.lucky)
    requires Tried(env, universe, v, v', stack, selected[idx].pkg, attempt)
    requires selected[idx].pkg.version !in BannedBefore(env, selected, idx)
    ensures if idx == i then attempt == Fits && v' == v
            else (attempt == Conflicts || attempt == NotAdmitted) && v' == v.(lucky := v'.lucky)
  {
    hide Valid, Grows, DepsDone, IsInConflict, Unobstructed, Admit, ProvidedFor, StartsWell, NoErrors, ErrsAtOnce;
    if idx == i {
      var p := selected[i].pkg;
      forall r | r in p.deps ensures SettledNow(env, v, stack, p, r) {
        assert SettledNow(env, v0, stack, p, r);
      }
      assert FitsNow(env, v, stack, p);
    } else {
      assert SkippedNow(env, v0, selected, idx);
    }
  }

  /** The version at i was chosen, and nothing else. */
  ghost predicate Chose(env: Env, v: View, v': View, n: string, selected: seq<Artifact>, i: nat) {
    && i < |selected|
    && v'.candidates == v.candidates[n := NotBanned(selected, BannedBefore(env, selected, i))]
    && v'.accepted == v.accepted[n := selected[i]] && v'.available == v.available
    && ProvidesAdded(v.provided, v'.provided, v'.candidates[n])
  }

  /** What is listed under the name. */
  ghost function Listing(provided: map<string, seq<Package>>, n: string): set<Package> {
    set q | n in provided && q in provided[n]
  }

  /** The package is listed under what it provides, and nothing else is new. */
  ghost predicate AddsProvides(env: Env, before: map<string, seq<Package>>, after: map<string, seq<Package>>,
                               p: Package) {
    && ProvidedGrows(before, after)
    && (ProvidersListed(env, before) && p in env.pool ==> ProvidersListed(env, after))
    && (forall a :: a in p.provs ==> a.name in after && p in after[a.name])
    && forall n, q :: q in Listing(after, n) <==>
         q in Listing(before, n) || (q == p && exists a :: a in p.provs && a.name == n)
  }

  lemma ProvidesAre(env: Env, before: map<string, seq<Package>>, after: map<string, seq<Package>>,
                    arts: seq<Artifact>)
    requires if arts == [] then after == before else AddsProvides(env, before, after, arts[0].pkg)
    ensures ProvidedGrows(before, after) && ProvidesAdded(before, after, arts)
    ensures ProvidersListed(env, before) && (forall a :: a in arts ==> a.pkg in env.pool) ==>
              ProvidersListed(env, after)
    ensures arts != [] ==> forall a :: a in arts[0].pkg.provs ==> a.name in after && arts[0].pkg in after[a.name]
  {
    hide ProvidersListed, Listing;
  }

  lemma NotBannedStart(arts: seq<Artifact>, banned: set<string>)
    ensures arts[..0] == [] && NotBanned(arts[..0], banned) == []
  {
  }

  lemma NotBannedNext(arts: seq<Artifact>, banned: set<string>, i: nat)
    requires i < |arts|
    ensures NotBanned(arts[..i + 1], banned) ==
            if arts[i].pkg.version in banned then NotBanned(arts[..i], banned)
            else NotBanned(arts[..i], banned) + [arts[i]]
  {
    assert arts[..i + 1][..i] == arts[..i];
  }

  /** The head of the list is listed under what it provides, and nothing else is new. */
  ghost predicate ProvidesAdded(before: map<string, seq<Package>>, after: map<string, seq<Package>>,
                                arts: seq<Artifact>) {
    forall n, q :: q in Listing(after, n) <==>
      q in Listing(before, n) || (arts != [] && q == arts[0].pkg && exists a :: a in q.provs && a.name == n)
  }

  /** A first fit, if there is one, is at idx and chosen, or still to come. */
  ghost predicate FitKept(env: Env, v0: View, v: View, stack: seq<string>, n: string, selected: seq<Artifact>,
                          idx: nat, done: Option<Outcome>) {
    forall i :: FirstFit(env, v0, stack, selected, i) ==>
      if idx == i then done == Some(Resolved) && Chose(env, v0, v, n, selected, i) else done.None?
  }

  /** It is not the version rejected at idx, and nothing that it depends on changes. */
  ghost predicate RejectsNoFit(env: Env, v0: View, v: View, v': View, stack: seq<string>, selected: seq<Artifact>,
                               idx: nat) {
    forall i :: FirstFit(env, v0, stack, selected, i) ==> i != idx && v' == v.(lucky := v'.lucky)
  }

  lemma BannedNoFit(env: Env, universe: set<string>, v0: View, v: View, stack: seq<string>, n: string,
                    selected: seq<Artifact>, banned: set<string>, idx: nat)
    requires Trying(env, universe, v0, v, stack, n, selected, banned, idx) && idx < |selected|
    requires selected[idx].pkg.version in banned
    ensures RejectsNoFit(env, v0, v, v, stack + [n], selected, idx)
    ensures FitKept(env, v0, v, stack + [n], n, selected, idx, None)
  {
    hide Valid, Grows, Unobstructed, FirstFit, HasClean, BannedBefore;
    FirstFitNotBanned(env, v0, stack + [n], selected, idx);
  }

  lemma AttemptKeepsFit(env: Env, universe: set<string>, v0: View, v: View, v1: View, stack: seq<string>, n: string,
                        selected: seq<Artifact>, banned: set<string>, idx: nat, attempt: Attempt)
    requires Trying(env, universe, v0, v, stack, n, selected, banned, idx) && idx < |selected|
    requires Tried(env, universe, v, v1, stack + [n], selected[idx].pkg, attempt)
    requires selected[idx].pkg.version !in banned
    ensures attempt == Conflicts || attempt == NotAdmitted ==>
              RejectsNoFit(env, v0, v, v1, stack + [n], selected, idx)
    ensures attempt != Fits ==>
              FitKept(env, v0, v1, stack + [n], n, selected, idx, if attempt == Errs then Some(ResolveError) else None)
  {
    hide Valid, Grows, Unobstructed, FirstFit, HasClean, BannedBefore, Tried, Chose;
    forall i | FirstFit(env, v0, stack + [n], selected, i)
      ensures if idx == i then attempt == Fits && v1 == v
              else (attempt == Conflicts || attempt == NotAdmitted) && v1 == v.(lucky := v1.lucky)
    {
      BeforeFirstFit(env, universe, v0, v, v1, stack + [n], selected, idx, i, attempt);
    }
  }

  lemma RecordedIsChosen(env: Env, universe: set<string>, v0: View, v: View, v1: View, stack: seq<string>, n: string,
                         selected: seq<Artifact>, banned: set<string>, idx: nat, provided: map<string, seq<Package>>,
                         attempt: Attempt)
    requires Trying(env, universe, v0, v, stack, n, selected, banned, idx) && idx < |selected|
    requires Tried(env, universe, v, v1, stack + [n], selected[idx].pkg, attempt) && attempt == Fits
    requires selected[idx].pkg.version !in banned && n in v0.available
    requires ProvidesAdded(v1.provided, provided, NotBanned(selected, banned))
    ensures FitKept(env, v0, Recorded(v0, v, v1, n, selected, banned, idx, provided, stack), stack + [n], n, selected,
                    idx, Some(Resolved))
  {
    hide Valid, Grows, Unobstructed, FirstFit, HasClean, BannedBefore, Tried, NotBanned, ProvidesAdded;
    forall i | FirstFit(env, v0, stack + [n], selected, i) ensures idx == i && v1 == v && v == v0.(lucky := v.lucky) {
      BeforeFirstFit(env, universe, v0, v, v1, stack + [n], selected, idx, i, attempt);
    }
  }

  lemma BannedIsRight(env: Env, universe: set<string>, v0: View, v: View, stack: seq<string>, n: string,
                      selected: seq<Artifact>, banned: set<string>, idx: nat)
    requires Trying(env, universe, v0, v, stack, n, selected, banned, idx) && idx < |selected|
    requires selected[idx].pkg.version in banned
    ensures StepRight(env, v0, v, v, stack + [n], selected, idx, None)
  {
    hide Valid, Grows, Unobstructed, FirstFit, HasClean, IsInConflict, NoErrors, ErrsAtOnce, Admit;
    assert selected[idx] in selected;
    var j :| 0 <= j < idx && !env.ignoreConflicts && IsInConflict(env, selected[j].pkg)
          && selected[j].pkg.version == selected[idx].pkg.version;
    assert selected[j] in selected && selected[j].pkg.ToAtom() == selected[idx].pkg.ToAtom();
    assert !Clean(env, selected[idx].pkg);
  }

  /** A version that always fits, fits now. */
  lemma AlwaysIsNow(env: Env, universe: set<string>, v: View, stack: seq<string>, p: Package)
    requires Valid(env, universe, v) && AlwaysFits(env, p)
    ensures FitsNow(env, v, stack, p)
  {
    hide CandidateOk, Ordered, ProvidersListed, IsInConflict, ProvidedFor;
    forall k | k in v.candidates && v.candidates[k] != []
      ensures Admit(env.g, v.candidates[k][0].pkg, p) == Admitted
    {
      assert v.candidates[k][0] in v.candidates[k];
    }
  }

  lemma AttemptIsRight(env: Env, universe: set<string>, v0: View, v: View, v1: View, stack: seq<string>, n: string,
                       selected: seq<Artifact>, banned: set<string>, idx: nat, attempt: Attempt)
    requires Trying(env, universe, v0, v, stack, n, selected, banned, idx) && idx < |selected|
    requires Tried(env, universe, v, v1, stack + [n], selected[idx].pkg, attempt)
    requires selected[idx].pkg.version !in banned
    ensures attempt == Conflicts || attempt == NotAdmitted ==>
              StepRight(env, v0, v, v1, stack + [n], selected, idx, None)
    ensures attempt == Errs ==> StepRight(env, v0, v, v1, stack + [n], selected, idx, Some(ResolveError))
    ensures attempt == Fits ==> forall v' :: StepRight(env, v0, v, v', stack + [n], selected, idx, Some(Resolved))
  {
    hide Valid, Grows, Unobstructed, FirstFit, HasClean, IsInConflict, NoErrors, ErrsAtOnce, Admit, DepsDone, FitsNow,
      StartsWell, AlwaysFits;
    var p := selected[idx].pkg;
    assert selected[idx] in selected;
    if AlwaysFits(env, p) {
      TryingFacts(env, universe, v0, v, stack, n, selected, banned, idx);
      AlwaysIsNow(env, universe, v, stack + [n], p);
    }
    if SameButLucky(v0, v) && SkippedNow(env, v0, selected, idx) {
      SkippedStays(env, v0, v, selected, idx);
    }
  }

  lemma SkippedStays(env: Env, v0: View, v: View, selected: seq<Artifact>, idx: nat)
    requires idx < |selected| && SameButLucky(v0, v) && SkippedNow(env, v0, selected, idx)
    ensures SkippedNow(env, v, selected, idx)
    ensures RejectsFirst(env, v0, selected[idx].pkg) ==> RejectsFirst(env, v, selected[idx].pkg)
  {
    hide Admit, IsInConflict, BannedBefore;
  }

  lemma PassedNone(env: Env, v0: View, stack: seq<string>, selected: seq<Artifact>)
    ensures Passed(env, v0, v0, stack, selected, 0)
  {
  }

  lemma PassedNext(env: Env, v0: View, v: View, v': View, stack: seq<string>, selected: seq<Artifact>, idx: nat,
                   done: Option<Outcome>)
    requires idx < |selected| && Passed(env, v0, v, stack, selected, idx)
    requires StepRight(env, v0, v, v', stack, selected, idx, done)
    ensures done.None? ==> Passed(env, v0, v', stack, selected, idx + 1)
    ensures done.Some? && done.value != NoValidVersion ==>
              OutcomeRight(env, v0, v', stack, Some(selected), done.value)
    ensures done.Some? && NoErrors(env) ==> done.value != ResolveError
  {
    hide SkippedNow, ErrsAtOnce, NoErrors, AlwaysFits;
    if done.None? {
      forall j | 0 <= j < idx + 1 && NoErrors(env) ensures !AlwaysFits(env, selected[j].pkg) {
      }
    }
  }

  lemma PassedAll(env: Env, v0: View, v: View, v': View, stack: seq<string>, selected: seq<Artifact>)
    requires Passed(env, v0, v, stack, selected, |selected|) && v' == v.(lucky := false)
    ensures OutcomeRight(env, v0, v', stack, Some(selected), NoValidVersion)
  {
    hide SkippedNow, ErrsAtOnce, NoErrors, AlwaysFits;
  }

  lemma NoSortedList(env: Env, universe: set<string>, v: View, n: string)
    requires Valid(env, universe, v) && Sorted(env, v.available, n).None?
    ensures Unobstructed(env, v.available) || NoErrors(env) ==> n !in v.available
  {
    hide Valid, Unobstructed, NoErrors, SortingSucceeds;
    if n in v.available {
      SortingWorks(env, universe, v, n);
      NoErrorsSort(env);
    }
  }

  lemma SortedIsAvailable(env: Env, available: map<string, seq<Artifact>>, n: string)
    ensures Sorted(env, available, n).Some? ==> n in available
  {
  }

  lemma NoListFails(env: Env, v: View, v': View, stack: seq<string>)
    ensures OutcomeRight(env, v, v', stack, None, ResolveError)
  {
  }

  /** n was entered as a candidate with the version at idx of its list. */
  ghost predicate Entered(env: Env, v0: View, v: View, n: string, idx: nat) {
    && n in v.candidates && n in v.accepted && n in v0.available
    && Listed(env, v0.available[n], idx, v.candidates[n], v.accepted[n])
  }

  lemma RecordedIsEntered(env: Env, v0: View, v: View, v': View, n: string, selected: seq<Artifact>,
                          banned: set<string>, idx: nat, provided: map<string, seq<Package>>, stack: seq<string>)
    requires n in v0.available && idx < |selected|
    requires Listed(env, v0.available[n], idx, NotBanned(selected, banned), selected[idx])
    ensures Entered(env, v0, Recorded(v0, v, v', n, selected, banned, idx, provided, stack), n, idx)
  {
    hide Listed, NotBanned;
  }

  lemma StillFirst(env: Env, v0: View, v: View, v': View, stack: seq<string>, selected: seq<Artifact>, idx: nat)
    requires idx < |selected| && v.candidates.Keys <= v'.candidates.Keys
    requires if idx == 0 then v == v0 else FirstStays(env, v0, stack, selected, v.candidates.Keys)
    requires StartsWell(env, v, stack, selected[idx].pkg) ==> selected[idx].pkg.deps[0].name in v'.candidates
    ensures forall chosen :: v'.candidates.Keys <= chosen ==> FirstStays(env, v0, stack, selected, chosen)
  {
    hide IsInConflict, AdmittedByAll, FindsAtOnce;
  }

  lemma NothingListed(env: Env, v: View, stack: seq<string>, chosen: set<string>)
    ensures FirstStays(env, v, stack, [], chosen)
  {
  }

  lemma FirstFitNotBanned(env: Env, v: View, stack: seq<string>, selected: seq<Artifact>, i: nat)
    requires i < |selected| && selected[i].pkg.version in BannedBefore(env, selected, i)
    ensures !FirstFit(env, v, stack, selected, i)
  {
    hide IsInConflict, BannedBefore;
  }

  lemma ValidProviders(env: Env, universe: set<string>, v: View)
    requires Valid(env, universe, v)
    ensures ProvidersListed(env, v.provided)
  {
  }

  lemma CandidatesOffered(env: Env, universe: set<string>, v: View)
    requires Valid(env, universe, v)
    ensures NamedLists(v.candidates) && forall k, a :: k in v.candidates && a in v.candidates[k] ==> a.pkg in env.pool
  {
  }

  class Solver {
    const env: Env
    var available: map<string, seq<Artifact>>
    var candidates: map<string, seq<Artifact>>
    var provided: map<string, seq<Package>>
    ghost var lucky: bool
    ghost var accepted: map<string, Artifact>
    ghost var seen: map<string, map<string, seq<Artifact>>>
    ghost var stacks: map<string, seq<string>>
    ghost var lists: map<string, seq<Artifact>>

    constructor (env: Env, available: map<string, seq<Artifact>>, provided: map<string, seq<Package>>)
      ensures this.env == env
      ensures V() == View(available, map[], provided, true, map[], map[], map[], map[])
    {
      this.env := env;
      this.available, this.candidates, this.provided := available, map[], provided;
      this.lucky, this.accepted, this.seen, this.stacks, this.lists := true, map[], map[], map[], map[];
    }

    ghost function V(): View
      reads this
    {
      View(available, candidates, provided, lucky, accepted, seen, stacks, lists)
    }

    method ArtefactAdmitByQueue(p: Package) returns (r: Verdict)
      requires NamedLists(candidates)
      ensures r == Admitted <==> AdmittedByAll(env, candidates, p)
      ensures r != Admitted ==>
                exists k :: k in candidates && candidates[k] != [] && Admit(env.g, candidates[k][0].pkg, p) == r
    {
      var rest := candidates.Keys;
      while rest != {}
        invariant rest <= candidates.Keys
        invariant forall k :: k in candidates && k !in rest ==> Admit(env.g, candidates[k][0].pkg, p) == Admitted
      {
        var k :| k in rest;
        r := Admit(env.g, candidates[k][0].pkg, p);
        if r != Admitted {
          return;
        }
        rest := rest - {k};
      }
      r := Admitted;
    }

    method GetSortedArtifactsByKey(n: string) returns (r: Option<seq<Artifact>>)
      ensures r == Sorted(env, available, n)
    {
      if n !in available {
        r := None;
      } else if |available[n]| == 1 {
        r := Some(available[n]);
      } else {
        r := env.sortVersions(available[n]);
      }
    }

    /** Add the artefacts that a search has returned to the map of what is available, under their names. */
    method AddAvailable(arts: seq<Artifact>, ghost r: Atom, ghost universe: set<string>)
      requires NamedLists(available) && available.Keys <= universe && Pooled(env, available)
      requires forall a :: a in arts ==> a.pkg.name in universe && a.pkg in env.pool
      requires env.search(r).Some? && forall a :: a in arts <==> a in env.search(r).value
      modifies this`available
      ensures MoreAvailable(env, old(V()), V(), universe)
      ensures forall a :: a in arts ==> a.pkg.name in available && a in available[a.pkg.name]
      ensures available == AddAll(old(available), arts)
      ensures |arts| == 1 ==> available == AddOne(old(available), arts[0])
    {
      hide Unobstructed, Enlarged, Added, AddOne;
      ghost var v := V();
      SameEnlarged(env, v, universe);
      for i := 0 to |arts|
        invariant Enlarged(env, v, V(), universe) && Added(v.available, available, arts[..i])
        invariant V() == v.(available := available)
        invariant available == AddAll(v.available, arts[..i])
      {
        var a := arts[i];
        ghost var before := available;
        EnlargedByOne(env, v, V(), universe, a);
        AddedOne(v.available, available, arts, i);
        AddOneIs(before, a);
        assert arts[..i + 1][..i] == arts[..i];
        if a.pkg.name in available {
          available := available[a.pkg.name := available[a.pkg.name] + [a]];
        } else {
          available := available[a.pkg.name := [a]];
        }
      }
      assert arts[..|arts|] == arts;
      if |arts| == 1 {
        assert arts[..0] == [] && AddAll(v.available, []) == v.available;
      }
      SearchAdded(env, universe, v, V(), r, arts);
    }

    /** Sort the available versions of one package in place. */
    method SortAvailable(n: string, ghost universe: set<string>)
      requires env.Valid(universe) && NamedLists(available) && available.Keys <= universe && Pooled(env, available)
      requires n in available
      modifies this`available
      ensures MoreAvailable(env, old(V()), V(), universe)
      ensures available == old(available)[n := env.sortRepos(old(available)[n])]
    {
      hide Unobstructed;
      var arts := available[n];
      assert multiset(env.sortRepos(arts)) == multiset(arts);
      forall a ensures a in env.sortRepos(arts) <==> a in arts {
        assert a in env.sortRepos(arts) <==> a in multiset(env.sortRepos(arts));
        assert a in arts <==> a in multiset(arts);
      }
      assert arts[0] in arts;
      available := available[n := env.sortRepos(arts)];
      if Unobstructed(env, old(available)) {
        ReorderedKeeps(env, old(available), available);
      }
    }

    method IsProvided(p: Package, n: string) returns (matched: bool)
      ensures matched <==> ProvidedFor(env, provided, p, n)
    {
      if n !in provided {
        return false;
      }
      var provs := provided[n];
      for i := 0 to |provs|
        invariant forall x, a :: 0 <= x < i && a in provs[x].provs ==> Admit(env.g, p, AsPackage(a)) != Admitted
      {
        for k := 0 to |provs[i].provs|
          invariant forall x :: 0 <= x < k ==> Admit(env.g, p, AsPackage(provs[i].provs[x])) != Admitted
        {
          if Admit(env.g, p, AsPackage(provs[i].provs[k])) == Admitted {
            return true;
          }
        }
      }
      return false;
    }

    /** Sort, or else search, the artefacts for a require; the name to resolve. */
    method MakeAvailable(r: Atom, ghost universe: set<string>) returns (name: Option<string>)
      requires Valid(env, universe, V())
      modifies this`available
      ensures MoreAvailable(env, old(V()), V(), universe)
      ensures name.None? ==> V() == old(V())
      ensures name.Some? ==> name.value == r.name || FoundFor(env, r, name.value)
      ensures SortingSucceeds(env) &&
                (r.name in old(available) || (env.search(r).Some? && env.search(r).value != [])) ==>
                name.Some? && name.value in available
      ensures r.name !in old(available) ==> (name.None? <==> env.search(r).None?)
      ensures r.name !in old(available) && env.search(r).Some? ==>
                && name == Some(OtherName(r.name, FoundList(env, r)))
                && available == AddAll(old(available), FoundList(env, r))
                && FoundList(env, r) == if env.hasRepos then env.sortRepos(env.search(r).value) else env.search(r).value
      ensures r.name in old(available) ==>
                && (name.None? <==> !env.hasRepos && Sorted(env, old(available), r.name).None?)
                && (name.Some? ==> name.value == r.name)
                && available == if env.hasRepos then old(available)[r.name := env.sortRepos(old(available)[r.name])]
                                else old(available)
    {
      hide Valid, MoreAvailable, NamedLists, Unobstructed, Pooled, AddAll;
      ghost var v := V();
      ValidFacts(env, universe, v);
      SameAvailable(env, universe, v);
      if r.name in available {
        if env.hasRepos {
          EnvIsValid(env, universe, v);
          SortAvailable(r.name, universe);
        } else {
          var sorted := GetSortedArtifactsByKey(r.name);
          if sorted.None? {
            SortingWorks(env, universe, v, r.name);
            return None;
          }
        }
        name := Some(r.name);
      } else {
        var found := env.search(r);
        if found.None? {
          return None;
        }
        var arts := if env.hasRepos then env.sortRepos(found.value) else found.value;
        SearchedNames(env, universe, v, r, arts);
        name := Some(OtherName(r.name, arts));
        AddAvailable(arts, r, universe);
        if env.search(r).value != [] {
          assert arts[0] in arts;
        }
      }
    }

    /** Is the require settled by what is installed, provided, chosen or under analysis? */
    method SettledAlready(p: Package, r: Atom, stack: seq<string>) returns (o: Option<DepsOutcome>)
      requires r.name in env.system ==> env.system[r.name] != []
      ensures o == Some(DepsAdmitted) ==> Satisfied(env, V(), Done(V(), stack), p, r)
      ensures o == Some(DepsError) <==> r.name in env.system && Admit(env.g, p, env.system[r.name][0]) == Failed
      ensures o == Some(DepsRejected) <==>
              r.name in env.system && Admit(env.g, p, env.system[r.name][0]) == Rejected && r.name !in available
      ensures o.None? <==>
              && (r.name in env.system ==> Admit(env.g, p, env.system[r.name][0]) == Rejected && r.name in available)
              && !ProvidedFor(env, provided, p, r.name) && r.name !in Done(V(), stack)
    {
      hide Admit, ProvidedFor;
      if r.name in env.system {
        match Admit(env.g, p, env.system[r.name][0]) {
          case Failed =>
            return Some(DepsError);
          case Rejected =>
            // Maybe the installed package is queued for an upgrade.
            if r.name !in available {
              return Some(DepsRejected);
            }
          case Admitted =>
            return Some(DepsAdmitted);
        }
      }
      var isProvided := IsProvided(p, r.name);
      o := if isProvided || r.name in candidates || r.name in stack then Some(DepsAdmitted) else None;
    }

    /** One require of a package under analysis. */
    method ProcessDep(p: Package, r: Atom, stack: seq<string>, ghost universe: set<string>) returns (o: DepsOutcome)
      requires Valid(env, universe, V()) && StackOk(stack, universe) && Under(env, stack, p) && r in p.deps
      modifies this
      ensures Valid(env, universe, V()) && Grows(env, old(V()), V(), stack)
      ensures o == DepsAdmitted ==> Satisfied(env, V(), Done(V(), stack), p, r)
      ensures o == DepsAdmitted && lucky && Settled(old(V()), Done(old(V()), stack)) ==> Settled(V(), Done(V(), stack))
      ensures Unobstructed(env, old(available)) && old(lucky) && Obtainable(env, old(available), p, r) ==>
                o == DepsAdmitted && lucky
      ensures DepRight(env, old(V()), V(), stack, p, r, o)
      decreases Unvisited(universe, stack), 4
    {
      hide Valid, Settled, Grows, StackOk, NamedLists, Admit, Unobstructed, Pooled, Chain, Under, FindsAtOnce,
        ProvidedFor, Done, NoErrors, Satisfied, ToResolve, Follows, WithRequire, NextName, DepRight;
      ghost var v := V();
      GrowsReflexive(env, v, stack);
      ValidFacts(env, universe, v);
      InstalledNeverFails(env, stack, p, r.name);
      var settled := SettledAlready(p, r, stack);
      if settled.Some? {
        DepSettled(env, v, stack, p, r, settled.value);
        return settled.value;
      }
      o := ResolveDep(p, r, stack, universe);
      DepResolved(env, v, V(), stack, p, r, o);
    }

    /** A require that nothing settles yet. */
    method ResolveDep(p: Package, r: Atom, stack: seq<string>, ghost universe: set<string>) returns (o: DepsOutcome)
      requires Valid(env, universe, V()) && StackOk(stack, universe) && Under(env, stack, p) && r in p.deps
      requires r.name in env.system ==> r.name in available
      modifies this
      ensures Valid(env, universe, V()) && Grows(env, old(V()), V(), stack)
      ensures o == DepsAdmitted ==> Satisfied(env, V(), Done(V(), stack), p, r)
      ensures o == DepsAdmitted && lucky && Settled(old(V()), Done(old(V()), stack)) ==> Settled(V(), Done(V(), stack))
      ensures Unobstructed(env, old(available)) && old(lucky) && Obtainable(env, old(available), p, r) ==>
                o == DepsAdmitted && lucky
      ensures FindsAtOnce(env, old(V()), stack, p, r) ==> r.name in candidates
      ensures NoErrors(env) ==> o != DepsError
      ensures r.name !in env.system && r.name !in old(available) && env.search(r).None? ==> o == DepsError
      ensures ToResolve(env, old(V()), stack, r) ==>
                Follows(env, WithRequire(env, old(V()), r), V(), stack, NextName(env, old(V()), r), OutcomeOf(o))
      decreases Unvisited(universe, stack), 3
    {
      hide Valid, Settled, Grows, Resolves, MoreAvailable, StackOk, NamedLists, Admit, Unobstructed, Pooled, Chain,
        Under, FindsAtOnce, FirstFit, Sorted, Chose, NoErrors, SortingSucceeds, OutcomeRight, ToResolve, WithRequire,
        NextName, AddAll, Done;
      ghost var v := V();
      UnobstructedSorts(env, available);
      SearchNeverFails(env, stack, p, r);
      GrowsReflexive(env, v, stack);
      FoundUnsettled(env, v, stack, p, r);
      var name := MakeAvailable(r, universe);
      if name.None? {
        MadeAvailable(env, v, V(), stack, r, name);
        return DepsError;
      }
      ghost var v1 := V();
      MadeAvailable(env, v, v1, stack, r, name);
      MoreAvailableGrows(env, universe, v, v1, stack);
      ChainStep(env, stack, p, r, name.value);
      if FindsAtOnce(env, v, stack, p, r) {
        OneFound(env, universe, v, r);
        FoundFirst(env, v, v1, stack, p, r);
      }
      var outcome := ResolvePackage(name.value, stack, universe);
      if FindsAtOnce(env, v, stack, p, r) {
        ChosenIsCandidate(env, v1, V(), r.name, env.search(r).value, 0);
      }
      UnresolvedGrows(env, universe, v, v1, V(), stack, name.value, outcome);
      match outcome {
        case Resolved =>
          ResolvedSatisfies(env, universe, v, v1, V(), stack, p, r, name.value);
          o := DepsAdmitted;
        case NoValidVersion =>
          o := DepsRejected;
        case ResolveError =>
          o := DepsError;
      }
    }

    method ProcessArtefactDeps(p: Package, stack: seq<string>, ghost universe: set<string>) returns (o: DepsOutcome)
      requires Valid(env, universe, V()) && StackOk(stack, universe) && Under(env, stack, p)
      modifies this
      ensures Valid(env, universe, V()) && Grows(env, old(V()), V(), stack)
      ensures o == DepsAdmitted ==> DepsDone(env, universe, old(V()), V(), stack, p, |p.deps|)
      ensures Unobstructed(env, old(available)) && old(lucky) && p in env.pool ==> o == DepsAdmitted
      ensures AllSettled(env, old(V()), stack, p) ==> o == DepsAdmitted && Unchanged(old(V()), V())
      ensures p.deps != [] && FindsAtOnce(env, old(V()), stack, p, p.deps[0]) ==> p.deps[0].name in candidates
      ensures NoErrors(env) ==> o != DepsError
      ensures p.deps != [] && ErrsNow(env, old(V()), stack, p, p.deps[0]) ==> o == DepsError
      ensures RejectsFirst(env, old(V()), p) ==> o == DepsRejected && Unchanged(old(V()), V())
      decreases Unvisited(universe, stack), 5
    {
      hide Valid, Settled, Grows, StackOk, DepsDone, Satisfied, Unobstructed, Obtainable, SettledNow, Under,
        FindsAtOnce, NoErrors, ErrsNow, Admit;
      ghost var v0 := V();
      DepsStart(env, universe, v0, stack, p);
      for i := 0 to |p.deps|
        invariant DepsDone(env, universe, v0, V(), stack, p, i)
        invariant AllSettled(env, v0, stack, p) ==> Unchanged(v0, V())
        invariant i == 0 ==> V() == v0
        invariant i > 0 ==> !ErrsNow(env, v0, stack, p, p.deps[0]) && !RejectsFirst(env, v0, p)
        invariant i > 0 && FindsAtOnce(env, v0, stack, p, p.deps[0]) ==> p.deps[0].name in candidates
      {
        ghost var v := V();
        DepsFacts(env, universe, v0, v, stack, p, i);
        RequireObtainable(env, available, p, p.deps[i]);
        o := ProcessDep(p, p.deps[i], stack, universe);
        GrowsFacts(env, v, V(), stack);
        if o != DepsAdmitted {
          GrowsTransitive(env, v0, v, V(), stack);
          return;
        }
        NextDep(env, universe, v0, v, V(), stack, p, i);
      }
      DepsFacts(env, universe, v0, V(), stack, p, |p.deps|);
      o := DepsAdmitted;
    }

    /** The versions that are not banned; what the first of them provides is recorded. */
    method CollectValid(selected: seq<Artifact>, banned: set<string>) returns (validArts: seq<Artifact>)
      modifies this`provided
      ensures ProvidedGrows(old(provided), provided)
      ensures ProvidersListed(env, old(provided)) && (forall a :: a in selected ==> a.pkg in env.pool) ==>
                ProvidersListed(env, provided)
      ensures validArts == NotBanned(selected, banned)
      ensures ProvidesAdded(old(provided), provided, validArts)
      ensures validArts != [] ==> forall a :: a in validArts[0].pkg.provs ==>
                a.name in provided && validArts[0].pkg in provided[a.name]
    {
      hide AddsProvides, NotBanned;
      ghost var before := provided;
      NotBannedStart(selected, banned);
      var firstValid := false;
      validArts := [];
      for idx := 0 to |selected|
        invariant validArts == NotBanned(selected[..idx], banned) && firstValid == (validArts != [])
        invariant forall a :: a in validArts ==> a in selected
        invariant if firstValid then AddsProvides(env, before, provided, validArts[0].pkg) else provided == before
      {
        var art := selected[idx];
        NotBannedNext(selected, banned, idx);
        if art.pkg.version !in banned {
          if !firstValid {
            AddProvides(art.pkg);
            firstValid := true;
          }
          validArts := validArts + [art];
        }
      }
      assert selected[..|selected|] == selected;
      ProvidesAre(env, before, provided, validArts);
    }

    method RecordCandidate(n: string, selected: seq<Artifact>, banned: set<string>, ghost art: Artifact,
                           ghost began: map<string, seq<Artifact>>, ghost stack: seq<string>, ghost list: seq<Artifact>)
      modifies this
      ensures ProvidedGrows(old(provided), provided)
      ensures ProvidersListed(env, old(provided)) && (forall a :: a in selected ==> a.pkg in env.pool) ==>
                ProvidersListed(env, provided)
      ensures V() == Written(old(V()), n, NotBanned(selected, banned), provided, art, began, stack, list)
      ensures ProvidesAdded(old(provided), provided, NotBanned(selected, banned))
    {
      hide ProvidesAdded;
      var validArts := CollectValid(selected, banned);
      candidates := candidates[n := validArts];
      accepted := accepted[n := art];
      seen := seen[n := began];
      stacks := stacks[n := stack];
      lists := lists[n := list];
    }

    method AddProvides(p: Package)
      modifies this`provided
      ensures AddsProvides(env, old(provided), provided, p)
    {
      for i := 0 to |p.provs|
        invariant ProvidedGrows(old(provided), provided)
        invariant ProvidersListed(env, old(provided)) && p in env.pool ==> ProvidersListed(env, provided)
        invariant forall k :: 0 <= k < i ==> p.provs[k].name in provided && p in provided[p.provs[k].name]
        invariant forall n, q :: q in Listing(provided, n) <==>
                    q in Listing(old(provided), n) || (q == p && exists k :: 0 <= k < i && p.provs[k].name == n)
      {
        var n := p.provs[i].name;
        if n in provided {
          provided := provided[n := provided[n] + [p]];
        } else {
          provided := provided[n := [p]];
        }
      }
    }

    /** Check one version: conflicts with the installed tree, the candidates, the requires. */
    method TryVersion(p: Package, stack: seq<string>, ghost universe: set<string>) returns (attempt: Attempt)
      requires Valid(env, universe, V()) && StackOk(stack, universe) && Under(env, stack, p)
      modifies this
      ensures Tried(env, universe, old(V()), V(), stack, p, attempt)
      decreases Unvisited(universe, stack), 7
    {
      hide Valid, StackOk, IsInConflict, NamedLists, Pooled, Tried;
      ghost var v := V();
      ValidFacts(env, universe, v);
      var conflict := ArtefactIsInConflict(env, p);
      if !env.ignoreConflicts && conflict {
        TriedConflict(env, universe, v, stack, p);
        return Conflicts;
      }
      attempt := TryAdmitted(p, stack, universe);
    }

    /** Check a version that is in no conflict: the candidates, the requires. */
    method TryAdmitted(p: Package, stack: seq<string>, ghost universe: set<string>) returns (attempt: Attempt)
      requires Valid(env, universe, V()) && StackOk(stack, universe) && Under(env, stack, p)
      requires env.ignoreConflicts || !IsInConflict(env, p)
      modifies this
      ensures Tried(env, universe, old(V()), V(), stack, p, attempt)
      decreases Unvisited(universe, stack), 6
    {
      hide Valid, StackOk, DepsDone, IsInConflict, AdmittedByAll, NamedLists, Unobstructed, Pooled, Grows, Tried,
        AllSettled, Admit, Unchanged, NoErrors, ErrsNow, RejectsFirst;
      ghost var v := V();
      ValidFacts(env, universe, v);
      var admit := ArtefactAdmitByQueue(p);
      if admit != Admitted {
        if NoErrors(env) {
          QueueNeverFails(env, universe, v, p, admit);
        }
        lucky := false;
        attempt := if admit == Failed then Errs else NotAdmitted;
        TriedQueue(env, universe, v, stack, p, admit);
      } else {
        var deps := ProcessArtefactDeps(p, stack, universe);
        attempt := AttemptOf(deps);
        ghost var v1 := V();
        if deps != DepsAdmitted {
          lucky := false;
        }
        TriedDeps(env, universe, v, v1, stack, p, deps);
      }
    }

    /** One more version of the list: it ends the search, or is passed over. */
    method TryNext(n: string, stack: seq<string>, selected: seq<Artifact>, banned: set<string>, idx: nat,
                   ghost universe: set<string>, ghost v0: View) returns (done: Option<Outcome>, banned': set<string>)
      requires Trying(env, universe, v0, V(), stack, n, selected, banned, idx) && idx < |selected|
      requires StackOk(stack, universe) && n in universe && Chain(env, stack + [n])
      requires idx == 0 ==> V() == v0 && banned == {}
      requires idx > 0 ==> FirstStays(env, v0, stack + [n], selected, candidates.Keys)
      modifies this
      ensures done.None? ==> Trying(env, universe, v0, V(), stack, n, selected, banned', idx + 1)
      ensures done.Some? ==> Resolves(env, universe, v0, V(), stack, n, done.value) && done.value != NoValidVersion
      ensures done == Some(Resolved) ==> Entered(env, v0, V(), n, idx)
      ensures FirstStays(env, v0, stack + [n], selected, candidates.Keys)
      ensures FitKept(env, v0, V(), stack + [n], n, selected, idx, done)
      ensures StepRight(env, v0, old(V()), V(), stack + [n], selected, idx, done)
      decreases Unvisited(universe, stack), 0
    {
      hide Valid, Settled, Grows, Resolves, StackOk, Trying, DepsDone, IsInConflict, AdmittedByAll, NamedLists, Listed,
        ProvidedGrows, Admit, Unobstructed, BannedBefore, Pooled, Tried, FirstFit, HasClean, ProvidersListed, NotBanned,
        Chain, Under, StartsWell, FirstStays, Entered, FitKept, RejectsNoFit, StepRight, ProvidesAdded;
      ghost var v := V();
      var art := selected[idx];
      PushedStack(universe, stack, n) by {
        TryingOff(env, universe, v0, v, stack, n, selected, banned, idx);
      }
      TryingFacts(env, universe, v0, v, stack, n, selected, banned, idx);
      banned' := banned;
      if art.pkg.version in banned {
        // A version in conflict is banned once more.
        assert banned + {art.pkg.version} == banned;
        BannedNoFit(env, universe, v0, v, stack, n, selected, banned, idx);
        BannedIsRight(env, universe, v0, v, stack, n, selected, banned, idx);
      } else {
        ChainUnder(env, stack, n, art.pkg);
        var attempt := TryVersion(art.pkg, stack + [n], universe);
        TriedFacts(env, universe, v, V(), stack + [n], art.pkg, attempt);
        StillFirst(env, v0, v, V(), stack + [n], selected, idx);
        ghost var v1 := V();
        AttemptKeepsFit(env, universe, v0, v, v1, stack, n, selected, banned, idx, attempt);
        AttemptIsRight(env, universe, v0, v, v1, stack, n, selected, banned, idx, attempt);
        match attempt {
          case Fits =>
            RecordCandidate(n, selected, banned, art, v.candidates, stack, v0.available[n]);
            ValidProviders(env, universe, v1);
            Accepts(env, universe, v0, v, v1, stack, n, selected, banned, idx, provided);
            HeadIsChecked(env, universe, v0, v, stack, n, selected, banned, idx);
            RecordedIsEntered(env, v0, v, v1, n, selected, banned, idx, provided, stack);
            RecordedIsChosen(env, universe, v0, v, v1, stack, n, selected, banned, idx, provided, attempt);
            return Some(Resolved), banned;
          case Errs =>
            GivesUp(env, universe, v0, v, V(), stack, n, selected, banned, idx, ResolveError);
            return Some(ResolveError), banned;
          case Conflicts =>
            banned' := banned + {art.pkg.version};
          case NotAdmitted =>
        }
      }
      Rejects(env, universe, v0, v, V(), stack, n, selected, banned, banned', idx);
      done := None;
    }

    method ResolvePackage(n: string, stack: seq<string>, ghost universe: set<string>) returns (r: Outcome)
      requires Valid(env, universe, V()) && StackOk(stack, universe) && Chain(env, stack + [n])
      modifies this
      ensures Resolves(env, universe, old(V()), V(), stack, n, r)
      ensures r == Resolved && n !in stack && n !in old(candidates) ==>
                && n in candidates && n in accepted && n in old(available)
                && exists idx :: Listed(env, old(available)[n], idx, candidates[n], accepted[n])
      ensures n !in stack && n !in old(candidates) ==>
                forall i :: Sorted(env, old(available), n).Some?
                              && FirstFit(env, old(V()), stack + [n], Sorted(env, old(available), n).value, i) ==>
                  r == Resolved && Chose(env, old(V()), V(), n, Sorted(env, old(available), n).value, i)
      ensures n !in stack && n !in old(candidates) && Sorted(env, old(available), n).Some? ==>
                FirstStays(env, old(V()), stack + [n], Sorted(env, old(available), n).value, candidates.Keys)
      ensures NoErrors(env) && (n in old(available) || n in Done(old(V()), stack)) ==> r != ResolveError
      ensures n !in stack && n !in old(candidates) ==>
                OutcomeRight(env, old(V()), V(), stack + [n], Sorted(env, old(available), n), r)
      decreases Unvisited(universe, stack), 2
    {
      hide Valid, Settled, Grows, Resolves, StackOk, Trying, DepsDone, IsInConflict, AdmittedByAll, NamedLists, Listed,
        ProvidedGrows, Admit, Unobstructed, BannedBefore, Pooled, Tried, FirstFit, HasClean, ProvidersListed, NotBanned,
        Chain, Under, StartsWell, FirstStays, NoErrors, StepRight, Passed, OutcomeRight, Chose, Sorted;
      ghost var v0 := V();
      if n in stack || n in candidates {
        AlreadyDone(env, universe, v0, stack, n);
        return Resolved;
      }
      ValidFacts(env, universe, v0);
      var sorted := GetSortedArtifactsByKey(n);
      if sorted.None? {
        lucky := false;
        NoSortedList(env, universe, v0, n);
        FailsAtOnce(env, universe, v0, stack, n);
        NoListFails(env, v0, V(), stack + [n]);
        return ResolveError;
      }
      var selected := sorted.value;
      SortedIsAvailable(env, v0.available, n);
      SelectedNames(env, universe, v0, n, selected);
      PushedStack(universe, stack, n);
      TryingStart(env, universe, v0, stack, n, selected);
      r := TryAll(n, stack, selected, universe);
    }

    /** The loop over the versions. */
    method TryAll(n: string, stack: seq<string>, selected: seq<Artifact>, ghost universe: set<string>)
      returns (r: Outcome)
      requires Trying(env, universe, V(), V(), stack, n, selected, {}, 0)
      requires StackOk(stack, universe) && n in universe && Chain(env, stack + [n])
      modifies this
      ensures Resolves(env, universe, old(V()), V(), stack, n, r)
      ensures r == Resolved ==> exists idx :: Entered(env, old(V()), V(), n, idx)
      ensures forall i :: FirstFit(env, old(V()), stack + [n], selected, i) ==>
                r == Resolved && Chose(env, old(V()), V(), n, selected, i)
      ensures FirstStays(env, old(V()), stack + [n], selected, candidates.Keys)
      ensures NoErrors(env) ==> r != ResolveError
      ensures OutcomeRight(env, old(V()), V(), stack + [n], Some(selected), r)
      decreases Unvisited(universe, stack), 1
    {
      hide Valid, Settled, Grows, Resolves, StackOk, Trying, AdmittedByAll, Listed, Unobstructed, BannedBefore,
        FirstFit, Chain, FirstStays, NoErrors, StepRight, Passed, OutcomeRight, Chose, Entered;
      ghost var v0 := V();
      PassedNone(env, v0, stack + [n], selected);
      var banned: set<string> := {};
      var idx := 0;
      while idx < |selected|
        invariant Trying(env, universe, v0, V(), stack, n, selected, banned, idx)
        invariant idx == 0 ==> V() == v0 && banned == {}
        invariant idx > 0 ==> FirstStays(env, v0, stack + [n], selected, candidates.Keys)
        invariant forall i :: FirstFit(env, v0, stack + [n], selected, i) ==> idx <= i
        invariant idx <= |selected| && Passed(env, v0, V(), stack + [n], selected, idx)
      {
        var done: Option<Outcome>;
        ghost var v := V();
        done, banned := TryNext(n, stack, selected, banned, idx, universe, v0);
        PassedNext(env, v0, v, V(), stack + [n], selected, idx, done);
        if done.Some? {
          return done.value;
        }
        idx := idx + 1;
      }
      ghost var v := V();
      lucky := false;
      TryingFacts(env, universe, v0, v, stack, n, selected, banned, idx);
      NothingListed(env, v0, stack + [n], candidates.Keys);
      Exhausted(env, universe, v0, v, stack, n, selected, banned);
      BecomesUnlucky(env, universe, v, v, stack + [n]);
      GivesUp(env, universe, v0, v, V(), stack, n, selected, banned, idx, NoValidVersion);
      PassedAll(env, v0, v, V(), stack + [n], selected);
      return NoValidVersion;
    }

    /** The loop of Install over the requested packages. */
    method ResolveRequested(force: bool, ghost universe: set<string>) returns (ok: bool)
      requires Valid(env, universe, V()) && candidates == map[] && accepted == map[]
      modifies this
      ensures Valid(env, universe, V()) && AllRecorded(V())
      ensures ok || !force
      ensures ok && !force ==> old(available).Keys <= candidates.Keys
      ensures lucky ==> Settled(V(), Done(V(), []))
      ensures forall n :: old(available).Keys == {n} ==> AloneRight(env, old(V()), V(), n, ok)
      ensures NoErrors(env) && SortingKeeps(env) && AllOffer(env, old(available), old(available).Keys) ==>
                ok && old(available).Keys <= candidates.Keys
      ensures Unobstructed(env, old(available)) && old(lucky) ==> ok && lucky && old(available).Keys <= candidates.Keys
    {
      hide Valid, Settled, Resolves, Unobstructed, Sorted, FirstStays, FirstFit, Chose, Listed, NoErrors, SortingKeeps,
        AllOffer, AloneRight, OutcomeRight, Begun, AllRecorded;
      ghost var v0 := V();
      ghost var sure := NoErrors(env) && SortingKeeps(env) && AllOffer(env, available, available.Keys);
      var rest := available.Keys;
      ghost var names := available.Keys;
      NothingChosen(env, V());
      while rest != {}
        invariant rest <= names
        invariant Valid(env, universe, V()) && AllRecorded(V())
        invariant lucky ==> Settled(V(), Done(V(), []))
        invariant !force || lucky || sure ==> forall n :: n in names && n !in rest ==> n in candidates
        invariant names <= available.Keys
        invariant if rest == names then V() == v0 else Begun(env, v0, V(), names)
        invariant sure ==> AllOffer(env, available, names)
        invariant Unobstructed(env, v0.available) && v0.lucky ==> lucky && Unobstructed(env, available)
      {
        var n :| n in rest;
        ghost var v := V();
        assert [] + [n] == [n];
        var r := ResolvePackage(n, [], universe);
        ResolvesFacts(env, universe, v, V(), n, r);
        OneBegun(env, v0, v, V(), n, names, rest, r);
        if sure {
          SureResolves(env, universe, v, V(), n, r, names);
          StillSure(env, universe, v, V(), n, r, names);
        }
        if !force && r != Resolved {
          return false;
        }
        rest := rest - {n};
      }
      BegunEnds(env, v0, V(), names);
      ok := true;
    }

    /** Resolve what is requested, and list what to install. */
    method Install(force: bool, ghost universe: set<string>) returns (ok: bool, arts: seq<Artifact>)
      requires Valid(env, universe, V()) && candidates == map[] && accepted == map[]
      modifies this
      ensures Valid(env, universe, V())
      ensures ok || !force
      ensures ok && !force ==> old(available).Keys <= candidates.Keys
      ensures ok ==> HeadsOf(candidates, arts)
      ensures ok && !env.ignoreConflicts ==> forall a :: a in arts ==> !IsInConflict(env, a.pkg)
      ensures candidates.Keys == accepted.Keys && forall k :: k in accepted ==> CandidateOk(env, V(), k)
      ensures ok && lucky ==> Closed(env, V(), candidates.Keys)
      ensures forall n :: old(available).Keys == {n} ==> AloneRight(env, old(V()), V(), n, ok)
      ensures NoErrors(env) && SortingKeeps(env) && AllOffer(env, old(available), old(available).Keys) ==>
                ok && old(available).Keys <= candidates.Keys
      ensures Unobstructed(env, old(available)) && old(lucky) ==> ok && lucky && old(available).Keys <= candidates.Keys
    {
      hide Valid, Settled, Closed, IsInConflict, Unobstructed, CandidateOk, NoErrors, SortingKeeps, AllOffer,
        AloneRight, AllRecorded;
      arts := [];
      ok := ResolveRequested(force, universe);
      AllOk(env, universe, V());
      if !ok {
        return;
      }
      RecordedHeads(env, universe, V());
      ValidFacts(env, universe, V());
      if lucky {
        LuckyIsClosed(env, universe, V());
      }
      arts := ListHeads(candidates);
    }
  }

  /** What the install of one requested package ends in: the first require of its first version stays, if that starts
      well; and a first fit is chosen, and nothing else. */
  ghost predicate AloneRight(env: Env, v: View, v': View, n: string, ok: bool) {
    Sorted(env, v.available, n).Some? ==>
      && (ok ==> FirstStays(env, v, [n], Sorted(env, v.available, n).value, v'.candidates.Keys))
      && forall i :: FirstFit(env, v, [n], Sorted(env, v.available, n).value, i) ==>
           ok && Chose(env, v, v', n, Sorted(env, v.available, n).value, i)
  }

  lemma AloneResolved(env: Env, v: View, v': View, n: string, r: Outcome)
    requires Sorted(env, v.available, n).Some? ==>
               && FirstStays(env, v, [n], Sorted(env, v.available, n).value, v'.candidates.Keys)
               && forall i :: FirstFit(env, v, [n], Sorted(env, v.available, n).value, i) ==>
                    r == Resolved && Chose(env, v, v', n, Sorted(env, v.available, n).value, i)
    ensures AloneRight(env, v, v', n, true)
    ensures r != Resolved ==> AloneRight(env, v, v', n, false)
  {
    hide FirstFit, Chose, FirstStays, Sorted;
  }

  /** After the first of several names nothing is claimed; after the only one, this. */
  ghost predicate Begun(env: Env, v0: View, v: View, names: set<string>) {
    forall n :: names == {n} ==> AloneRight(env, v0, v, n, true)
  }

  lemma OneBegun(env: Env, v0: View, v: View, v': View, n: string, names: set<string>, rest: set<string>, r: Outcome)
    requires n in rest && rest <= names && if rest == names then v == v0 else Begun(env, v0, v, names)
    requires v == v0 && n !in v.candidates && Sorted(env, v.available, n).Some? ==>
               && FirstStays(env, v, [n], Sorted(env, v.available, n).value, v'.candidates.Keys)
               && forall i :: FirstFit(env, v, [n], Sorted(env, v.available, n).value, i) ==>
                    r == Resolved && Chose(env, v, v', n, Sorted(env, v.available, n).value, i)
    requires v0.candidates == map[]
    ensures Begun(env, v0, v', names)
    ensures r != Resolved ==> forall m :: names == {m} ==> AloneRight(env, v0, v', m, false)
  {
    hide FirstFit, Chose, FirstStays, Sorted, AloneRight;
    if names == {n} {
      assert rest == names;
      AloneResolved(env, v0, v', n, r);
    }
  }

  lemma BegunEnds(env: Env, v0: View, v: View, names: set<string>)
    requires names != {} ==> Begun(env, v0, v, names)
    ensures forall n :: names == {n} ==> AloneRight(env, v0, v, n, true)
  {
    hide AloneRight;
  }

  ghost predicate AllOffer(env: Env, available: map<string, seq<Artifact>>, names: set<string>) {
    forall n :: n in names ==> n in available && OffersSure(env, available[n])
  }

  /** A version that fits whatever is chosen, in each of its builds. */
  ghost predicate OffersSure(env: Env, list: seq<Artifact>) {
    exists a :: a in list && Sure(env, a.pkg)
  }

  ghost predicate Sure(env: Env, p: Package) {
    p in env.pool && forall q :: q in env.pool && q.ToAtom() == p.ToAtom() ==> AlwaysFits(env, q)
  }

  lemma SureResolves(env: Env, universe: set<string>, v: View, v': View, n: string, r: Outcome, names: set<string>)
    requires Valid(env, universe, v) && NoErrors(env) && SortingKeeps(env)
    requires n in names && AllOffer(env, v.available, names)
    requires r == Resolved <==> n in v'.candidates
    requires n in v.candidates ==> n in v'.candidates
    requires n !in v.candidates ==> OutcomeRight(env, v, v', [n], Sorted(env, v.available, n), r)
    ensures r == Resolved
  {
    hide NoErrors, SortingKeeps, AlwaysFits, CandidateOk, Ordered, ProvidersListed, ErrsAtOnce, SkippedNow;
    if n !in v.candidates {
      var list := v.available[n];
      assert OneNamed(env, list);
      NoErrorsSort(env);
      SortingWorks(env, universe, v, n);
      var a :| a in list && Sure(env, a.pkg);
      assert AlwaysFits(env, a.pkg);
      SureIsClean(env, a.pkg);
      var b := KeptBuild(env, list, SortedList(env, list).value, a);
      SelectedNames(env, universe, v, n, SortedList(env, list).value);
      assert AlwaysFits(env, b.pkg);
    }
  }

  lemma SureIsClean(env: Env, p: Package)
    requires AlwaysFits(env, p)
    ensures Clean(env, p)
  {
    hide Clean;
  }

  lemma StillSure(env: Env, universe: set<string>, v: View, v': View, n: string, r: Outcome, names: set<string>)
    requires Resolves(env, universe, v, v', [], n, r)
    requires AllOffer(env, v.available, names)
    ensures AllOffer(env, v'.available, names)
  {
    hide Valid, Settled, Unobstructed, Sure, SameRecord, NewSince;
  }

  method ListHeads(candidates: map<string, seq<Artifact>>) returns (arts: seq<Artifact>)
    requires NamedLists(candidates)
    ensures HeadsOf(candidates, arts)
  {
    var rest := candidates.Keys;
    arts := [];
    while rest != {}
      invariant rest <= candidates.Keys
      invariant forall a :: a in arts <==> exists k :: k in candidates && k !in rest && a == candidates[k][0]
      invariant forall i, j :: 0 <= i < j < |arts| ==> arts[i].pkg.name != arts[j].pkg.name
    {
      var k :| k in rest;
      ghost var before := arts;
      HeadName(candidates, k);
      forall i | 0 <= i < |arts| ensures arts[i].pkg.name != k {
        assert arts[i] in arts;
        var x :| x in candidates && x !in rest && arts[i] == candidates[x][0];
        HeadName(candidates, x);
      }
      arts := arts + [candidates[k][0]];
      rest := rest - {k};
      assert forall a :: a in arts <==> a in before || a == candidates[k][0];
    }
  }

  /** The heads of all candidates, each once. */
  ghost predicate HeadsOf(candidates: map<string, seq<Artifact>>, arts: seq<Artifact>) {
    && (forall k :: k in candidates ==> candidates[k] != [])
    && (forall a :: a in arts <==> exists k :: k in candidates && a == candidates[k][0])
    && forall i, j :: 0 <= i < j < |arts| ==> arts[i].pkg.name != arts[j].pkg.name
  }

  lemma HeadName(candidates: map<string, seq<Artifact>>, k: string)
    requires NamedLists(candidates) && k in candidates
    ensures candidates[k] != [] && candidates[k][0].pkg.name == k
  {
    assert candidates[k][0] in candidates[k];
  }

  lemma AcceptedFacts(env: Env, universe: set<string>, v: View, k: string)
    requires Valid(env, universe, v) && k in v.accepted
    ensures k in v.candidates && v.candidates[k] != [] && RequiresMet(env, v, k) && ProvidersListed(env, v.provided)
    ensures v.accepted[k].pkg in env.pool && v.accepted[k].pkg.name == k
    ensures v.candidates[k][0].pkg in env.pool && v.candidates[k][0].pkg.name == k
    ensures env.ignoreConflicts || !IsInConflict(env, v.candidates[k][0].pkg)
  {
    hide IsInConflict, AdmittedByAll, RequiresMet, Offers, ProvidersListed, Chain;
    assert CandidateOk(env, v, k);
    assert v.accepted[k] in v.candidates[k] && v.candidates[k][0] in v.candidates[k];
  }

  lemma AcceptedChain(env: Env, universe: set<string>, v: View, k: string)
    requires Valid(env, universe, v) && k in v.accepted
    ensures k in v.stacks && Chain(env, v.stacks[k] + [k])
    ensures forall p :: p in env.pool ==> p.name in universe
  {
    hide IsInConflict, AdmittedByAll, RequiresMet, Offers, ProvidersListed, Chain;
    assert CandidateOk(env, v, k);
  }

  lemma AllOk(env: Env, universe: set<string>, v: View)
    requires Valid(env, universe, v) && AllRecorded(v)
    ensures v.candidates.Keys == v.accepted.Keys && forall k :: k in v.accepted ==> CandidateOk(env, v, k)
  {
    hide IsInConflict, AdmittedByAll, RequiresMet, Offers;
    forall k | k in v.accepted ensures k in v.candidates {
      assert CandidateOk(env, v, k);
    }
  }

  /** The requires of all accepted versions are met by what is installed, provided or chosen, as soon as every
      name that was under analysis is chosen. */
  lemma SettledIsClosed(env: Env, universe: set<string>, v: View)
    requires Valid(env, universe, v) && Settled(v, v.candidates.Keys)
    ensures forall k, r :: k in v.accepted && r in v.accepted[k].pkg.deps ==>
              Satisfied(env, v, v.candidates.Keys, v.accepted[k].pkg, r)
  {
    hide IsInConflict, AdmittedByAll, Satisfied, Offers;
    forall k, r | k in v.accepted && r in v.accepted[k].pkg.deps
      ensures Satisfied(env, v, v.candidates.Keys, v.accepted[k].pkg, r)
    {
      assert CandidateOk(env, v, k);
      assert Done(v, v.stacks[k]) == v.candidates.Keys;
    }
  }

  /** In a run without rejections this is so, and the accepted versions are the heads. */
  lemma LuckyIsClosed(env: Env, universe: set<string>, v: View)
    requires Valid(env, universe, v) && AllRecorded(v) && v.lucky && Settled(v, Done(v, []))
    ensures Closed(env, v, v.candidates.Keys)
  {
    hide IsInConflict, AdmittedByAll, Satisfied, Offers, RequiresMet;
    assert Done(v, []) == v.candidates.Keys;
    SettledIsClosed(env, universe, v);
    forall k, r | k in v.candidates && v.candidates[k] != [] && r in v.candidates[k][0].pkg.deps
      ensures Satisfied(env, v, v.candidates.Keys, v.candidates[k][0].pkg, r)
    {
      assert CandidateOk(env, v, k);
    }
  }

  /** In every run: of any two accepted versions, either the head recorded for one admits the other, or one was
      under analysis while the other was resolved. */
  lemma {:induction false} ChosenPairsAdmit(env: Env, universe: set<string>, v: View, j: string, k: string)
    requires Valid(env, universe, v) && j in v.accepted && k in v.accepted && j != k
    ensures j in v.candidates && k in v.candidates && v.candidates[j] != [] && v.candidates[k] != []
    ensures j in v.stacks && k in v.stacks
    ensures || Admit(env.g, v.candidates[j][0].pkg, v.accepted[k].pkg) == Admitted
            || Admit(env.g, v.candidates[k][0].pkg, v.accepted[j].pkg) == Admitted
            || j in v.stacks[k] || k in v.stacks[j]
  {
    hide Admit, IsInConflict, RequiresMet, Offers;
    assert CandidateOk(env, v, j) && CandidateOk(env, v, k) && Ordered(v, j, k);
  }

  lemma NothingChosen(env: Env, v: View)
    requires v.candidates == map[]
    requires v.accepted == map[]
    ensures AllRecorded(v) && Settled(v, Done(v, []))
  {
  }

  lemma RecordedHeads(env: Env, universe: set<string>, v: View)
    requires Valid(env, universe, v) && AllRecorded(v)
    ensures !env.ignoreConflicts ==>
              forall k :: k in v.candidates ==> v.candidates[k] != [] && !IsInConflict(env, v.candidates[k][0].pkg)
  {
    hide IsInConflict;
    forall k | k in v.candidates ensures CandidateOk(env, v, k) {
    }
  }

  lemma EnvIsValid(env: Env, universe: set<string>, v: View)
    requires Valid(env, universe, v)
    ensures env.Valid(universe)
  {
  }

  lemma SameAvailable(env: Env, universe: set<string>, v: View)
    requires Valid(env, universe, v)
    ensures MoreAvailable(env, v, v, universe)
  {
  }

  /** The first name among the artefacts that is not the given one, if any. */
  function OtherName(n: string, arts: seq<Artifact>): (other: string)
    ensures other == n || exists a :: a in arts && a.pkg.name == other
    ensures other == n ==> forall a :: a in arts ==> a.pkg.name == n
  {
    if arts == [] then n
    else if arts[0].pkg.name != n then arts[0].pkg.name
    else OtherName(n, arts[1..])
  }

  /** It is the name of the first artefact that has another one. */
  lemma {:induction false} OtherNameIsFirst(n: string, arts: seq<Artifact>) returns (i: nat)
    requires OtherName(n, arts) != n
    ensures i < |arts| && arts[i].pkg.name == OtherName(n, arts) && forall j :: 0 <= j < i ==> arts[j].pkg.name == n
  {
    if arts[0].pkg.name != n {
      i := 0;
    } else {
      var k := OtherNameIsFirst(n, arts[1..]);
      i := k + 1;
    }
  }

  /** What the search for the require has found, by repository if there are any. */
  ghost function FoundList(env: Env, r: Atom): seq<Artifact>
    requires env.search(r).Some?
  {
    if env.hasRepos then env.sortRepos(env.search(r).value) else env.search(r).value
  }

  /** What is available once the require has been sorted, or else searched. */
  ghost function WithRequire(env: Env, v: View, r: Atom): View {
    if r.name in v.available then
      if env.hasRepos then v.(available := v.available[r.name := env.sortRepos(v.available[r.name])]) else v
    else if env.search(r).Some? then v.(available := AddAll(v.available, FoundList(env, r)))
    else v
  }

  /** The name that is resolved for the require. */
  ghost function NextName(env: Env, v: View, r: Atom): string {
    if r.name in v.available || env.search(r).None? then r.name else OtherName(r.name, FoundList(env, r))
  }

  /** The require is to be resolved: what it asks for can be sorted or is found, and is not done under its name. */
  ghost predicate ToResolve(env: Env, v: View, stack: seq<string>, r: Atom) {
    && NextName(env, v, r) !in Done(v, stack)
    && (if r.name in v.available then env.hasRepos || Sorted(env, v.available, r.name).Some? else env.search(r).Some?)
  }

  /** What is installed, provided, chosen or under analysis does not settle the require. */
  ghost predicate Unsettled(env: Env, v: View, stack: seq<string>, p: Package, r: Atom) {
    && (r.name in env.system ==>
          env.system[r.name] != [] && Admit(env.g, p, env.system[r.name][0]) == Rejected && r.name in v.available)
    && !ProvidedFor(env, v.provided, p, r.name) && r.name !in Done(v, stack)
  }

  /** The call for a new name ends as it should, and a first fit is chosen, and nothing else. */
  ghost predicate Follows(env: Env, v: View, v': View, stack: seq<string>, n: string, outcome: Outcome) {
    && OutcomeRight(env, v, v', stack + [n], Sorted(env, v.available, n), outcome)
    && (Sorted(env, v.available, n).Some? ==>
          forall i :: FirstFit(env, v, stack + [n], Sorted(env, v.available, n).value, i) ==>
            outcome == Resolved && Chose(env, v, v', n, Sorted(env, v.available, n).value, i))
  }

  ghost function OutcomeOf(o: DepsOutcome): Outcome {
    match o
    case DepsAdmitted => Resolved
    case DepsRejected => NoValidVersion
    case DepsError => ResolveError
  }

  lemma OneFound(env: Env, universe: set<string>, v: View, r: Atom)
    requires Valid(env, universe, v) && env.search(r).Some? && |env.search(r).value| == 1
    ensures FoundList(env, r) == env.search(r).value
    ensures AddAll(v.available, FoundList(env, r)) == AddOne(v.available, env.search(r).value[0])
  {
    var arts := FoundList(env, r);
    assert arts[..0] == [];
    var found := env.search(r).value;
    if |found| == 1 {
      assert multiset(env.sortRepos(found)) == multiset(found);
      assert |multiset(arts)| == |arts| && |multiset(found)| == |found|;
      assert arts[0] in multiset(arts) && arts[0] in multiset(found) && arts[0] in found;
    }
  }

  lemma SearchedNames(env: Env, universe: set<string>, v: View, r: Atom, arts: seq<Artifact>)
    requires Valid(env, universe, v) && env.search(r).Some?
    requires arts == if env.hasRepos then env.sortRepos(env.search(r).value) else env.search(r).value
    ensures forall a :: a in arts ==> a.pkg.name in universe && a.pkg in env.pool && FoundFor(env, r, a.pkg.name)
    ensures forall a :: a in arts <==> a in env.search(r).value
    ensures env.search(r).value != [] ==> arts != []
  {
    var found := env.search(r).value;
    assert multiset(env.sortRepos(found)) == multiset(found);
    forall a ensures a in arts <==> a in found {
      assert a in env.sortRepos(found) <==> a in multiset(env.sortRepos(found));
      assert a in found <==> a in multiset(found);
    }
  }

  lemma SelectedNames(env: Env, universe: set<string>, v: View, n: string, selected: seq<Artifact>)
    requires Valid(env, universe, v) && n in v.available
    requires Some(selected) == Sorted(env, v.available, n)
    ensures n in universe && forall a :: a in selected ==> a.pkg.name == n && a.pkg in env.pool
    ensures Unobstructed(env, v.available) ==> HasClean(env, selected)
  {
    hide CandidateOk, Ordered, ProvidersListed, Unobstructed, HasClean;
    assert OneNamed(env, v.available[n]);
    assert forall a :: a in selected ==> a in v.available[n];
    if Unobstructed(env, v.available) {
      SortedHasClean(env, v.available, n, selected);
    }
  }

  lemma SortedHasClean(env: Env, available: map<string, seq<Artifact>>, n: string, selected: seq<Artifact>)
    requires Unobstructed(env, available) && n in available && OneNamed(env, available[n])
    requires SortedList(env, available[n]) == Some(selected)
    ensures HasClean(env, selected)
  {
    hide Clean, Obtainable, Admit, CleanResult, SortingKeeps, OneNamed, SortedList;
    assert HasClean(env, available[n]);
    var a :| a in available[n] && Clean(env, a.pkg);
    var _ := KeptBuild(env, available[n], selected, a);
  }

  /** Of a version that is in no conflict in any of its builds, sorting keeps one. */
  lemma KeptBuild(env: Env, list: seq<Artifact>, selected: seq<Artifact>, a: Artifact) returns (b: Artifact)
    requires OneNamed(env, list) && SortingKeeps(env) && SortedList(env, list) == Some(selected)
    requires a in list && Clean(env, a.pkg)
    ensures b in selected && b.pkg.ToAtom() == a.pkg.ToAtom() && Clean(env, b.pkg)
  {
    hide IsInConflict;
    if |list| == 1 {
      b := a;
    } else {
      assert KeepsVersions(list, selected);
      b :| b in selected && b.pkg.ToAtom() == a.pkg.ToAtom();
    }
  }

  lemma TryingOff(env: Env, universe: set<string>, v0: View, v: View, stack: seq<string>, n: string,
                  selected: seq<Artifact>, banned: set<string>, idx: nat)
    requires Trying(env, universe, v0, v, stack, n, selected, banned, idx)
    ensures n !in stack
  {
  }

  lemma TryingFacts(env: Env, universe: set<string>, v0: View, v: View, stack: seq<string>, n: string,
                    selected: seq<Artifact>, banned: set<string>, idx: nat)
    requires Trying(env, universe, v0, v, stack, n, selected, banned, idx)
    ensures Valid(env, universe, v) && NamedLists(v.candidates)
    ensures forall m :: m in env.system ==> env.system[m] != []
    ensures n in v0.available && Sorted(env, v0.available, n) == Some(selected) && idx <= |selected|
    ensures forall a :: a in v0.available[n] ==> a.pkg.name == n && a.pkg in env.pool
    ensures forall a :: a in selected ==> a.pkg in env.pool
    ensures forall i :: FirstFit(env, v0, stack + [n], selected, i) ==> idx <= i && v == v0.(lucky := v.lucky)
    ensures banned == BannedBefore(env, selected, idx)
    ensures Grows(env, v, v, stack + [n])
    ensures idx < |selected| ==> selected[idx].pkg.name == n && selected[idx].pkg in env.pool
    ensures Unobstructed(env, v0.available) && v0.lucky && n in v0.available ==> v.lucky
    ensures Unobstructed(env, v0.available) ==> Unobstructed(env, v.available)
  {
    hide FirstFit, HasClean, Unobstructed, IsInConflict;
    GrowsReflexive(env, v, stack + [n]);
    if idx < |selected| {
      assert selected[idx] in selected;
    }
  }

  lemma DepsFacts(env: Env, universe: set<string>, v0: View, v: View, stack: seq<string>, p: Package, n: nat)
    requires DepsDone(env, universe, v0, v, stack, p, n)
    ensures Valid(env, universe, v) && Grows(env, v0, v, stack)
    ensures Unobstructed(env, v0.available) && v0.lucky && p in env.pool ==> v.lucky
    ensures Unobstructed(env, v0.available) ==> Unobstructed(env, v.available)
  {
    hide Valid, Grows, Unobstructed, Settled, Satisfied;
    GrowsFacts(env, v0, v, stack);
  }

  // ---------- when nothing stands in the way ----------

  lemma RequireObtainable(env: Env, available: map<string, seq<Artifact>>, p: Package, r: Atom)
    requires r in p.deps
    ensures Unobstructed(env, available) && p in env.pool ==> Obtainable(env, available, p, r)
  {
    hide IsInConflict, Obtainable, Admit;
  }

  lemma SortingWorks(env: Env, universe: set<string>, v: View, n: string)
    requires Valid(env, universe, v) && n in v.available
    ensures Unobstructed(env, v.available) ==> env.sortVersions(v.available[n]).Some?
    ensures SortingSucceeds(env) ==> env.sortVersions(v.available[n]).Some?
  {
    hide IsInConflict, Obtainable, Admit;
    assert OneNamed(env, v.available[n]);
  }

  lemma NothingBlocks(env: Env, universe: set<string>, v: View, p: Package)
    requires Valid(env, universe, v) && p in env.pool
    ensures Unobstructed(env, v.available) ==> AdmittedByAll(env, v.candidates, p)
  {
    hide IsInConflict, Obtainable, Admit;
    if Unobstructed(env, v.available) {
      forall k | k in v.candidates && v.candidates[k] != []
        ensures Admit(env.g, v.candidates[k][0].pkg, p) == Admitted
      {
        assert v.candidates[k][0] in v.candidates[k];
      }
    }
  }
}
