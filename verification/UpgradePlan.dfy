/** The last part of the upgrade solver: the candidates become lists of packages to remove, update and install. */
module UpgradePlan {
  import opened Packages
  import opened Planner
  import opened Database
  import Installer
  import Resolver
  import OrderOperations

  /** The first of the installed packages with the name, as an artefact without files. */
  function Removal(system: map<string, seq<Package>>, n: string): Artifact
    requires n in system && system[n] != []
  {
    Artifact(system[n][0], [])
  }

  predicate NonemptyLists<T>(m: map<string, seq<T>>) {
    forall n :: n in m ==> m[n] != []
  }

  /** The inputs of the partition: every installed package is listed under its name, and a candidate for a
      name that is not installed has that name. */
  ghost predicate Inputs(candidates: map<string, seq<Artifact>>, system: map<string, seq<Package>>) {
    && NonemptyLists(candidates) && NonemptyLists(system)
    && (forall n :: n in system ==> system[n][0].name == n)
    && (forall k :: k in candidates && k !in system ==> candidates[k][0].pkg.name == k)
  }

  /** The candidate updates the installed package of its name. */
  ghost predicate UpdatesSelf(candidates: map<string, seq<Artifact>>, system: map<string, seq<Package>>, k: string)
    requires NonemptyLists(candidates)
  {
    k in candidates && k in system && candidates[k][0].pkg.name == k
  }

  /** The candidate is another package that replaces the installed one, and is not a candidate by its own name. */
  ghost predicate Replaces(candidates: map<string, seq<Artifact>>, system: map<string, seq<Package>>, k: string)
    requires NonemptyLists(candidates)
  {
    k in candidates && k in system && candidates[k][0].pkg.name != k && candidates[k][0].pkg.name !in candidates
  }

  ghost predicate Installs(candidates: map<string, seq<Artifact>>, system: map<string, seq<Package>>, k: string)
    requires NonemptyLists(candidates)
  {
    k in candidates && (k !in system || Replaces(candidates, system, k))
  }

  /** The candidate k makes the installed package n go: it is for n, or it provides n. */
  ghost predicate Ousts(candidates: map<string, seq<Artifact>>, system: map<string, seq<Package>>, k: string, n: string)
    requires NonemptyLists(candidates)
  {
    k in candidates && n in system && (k == n || exists a :: a in candidates[k][0].pkg.provs && a.name == n)
  }

  ghost predicate UpdatesOf(candidates: map<string, seq<Artifact>>, system: map<string, seq<Package>>,
                            done: set<string>, p2u: seq<Artifact>)
    requires NonemptyLists(candidates)
  {
    && (forall a :: a in p2u <==> exists k :: k in done && UpdatesSelf(candidates, system, k) && a == candidates[k][0])
    && OrderOperations.DistinctArtifacts(p2u)
  }

  /** No two installing candidates bring a package of the same name. */
  ghost predicate DistinctInstalls(candidates: map<string, seq<Artifact>>, system: map<string, seq<Package>>,
                                   done: set<string>)
    requires NonemptyLists(candidates)
  {
    forall j, k :: j in done && k in done && j != k && Installs(candidates, system, j) &&
      Installs(candidates, system, k)
      ==> candidates[j][0].pkg.name != candidates[k][0].pkg.name
  }

  ghost predicate InstallsOf(candidates: map<string, seq<Artifact>>, system: map<string, seq<Package>>,
                             done: set<string>, p2i: seq<Artifact>)
    requires NonemptyLists(candidates)
  {
    && (forall a :: a in p2i <==> exists k :: k in done && Installs(candidates, system, k) && a == candidates[k][0])
    && (OrderOperations.DistinctArtifacts(p2i) <==> DistinctInstalls(candidates, system, done))
  }

  /** What is removed is installed, is what the candidates oust, and is listed twice only if it is updated. */
  ghost predicate RemovesOf(candidates: map<string, seq<Artifact>>, system: map<string, seq<Package>>,
                            done: set<string>, p2r: seq<Artifact>)
    requires NonemptyLists(candidates) && NonemptyLists(system)
  {
    && (forall r :: r in p2r ==> r.pkg.name in system && r == Removal(system, r.pkg.name))
    && (forall n :: n in ArtifactNames(p2r) <==> exists k :: k in done && Ousts(candidates, system, k, n))
    && (forall i, j :: 0 <= i < j < |p2r| && p2r[i].pkg.name == p2r[j].pkg.name ==>
          p2r[i].pkg.name in done && UpdatesSelf(candidates, system, p2r[i].pkg.name))
  }

  /** The three lists, once the candidates in done are dealt with. */
  ghost predicate Partitioned(candidates: map<string, seq<Artifact>>, system: map<string, seq<Package>>,
                              done: set<string>, p2r: seq<Artifact>, p2u: seq<Artifact>, p2i: seq<Artifact>)
    requires NonemptyLists(candidates) && NonemptyLists(system)
  {
    && RemovesOf(candidates, system, done, p2r)
    && UpdatesOf(candidates, system, done, p2u)
    && InstallsOf(candidates, system, done, p2i)
  }

  method IsPresent(arts: seq<Artifact>, a: Artifact) returns (present: bool)
    ensures present <==> a.pkg.name in ArtifactNames(arts)
  {
    for i := 0 to |arts|
      invariant forall k :: 0 <= k < i ==> arts[k].pkg.name != a.pkg.name
    {
      if arts[i].pkg.name == a.pkg.name {
        return true;
      }
    }
    return false;
  }

  /** Removals in progress: those of done, plus those of k for the given names. */
  ghost predicate Removing(candidates: map<string, seq<Artifact>>, system: map<string, seq<Package>>, done: set<string>,
                           k: string, names: set<string>, p2r: seq<Artifact>)
    requires NonemptyLists(candidates) && NonemptyLists(system)
  {
    && (forall r :: r in p2r ==> r.pkg.name in system && r == Removal(system, r.pkg.name))
    && (forall n :: n in ArtifactNames(p2r) <==>
          (exists j :: j in done && Ousts(candidates, system, j, n)) || (n in names && n in system))
    && (forall i, j :: 0 <= i < j < |p2r| && p2r[i].pkg.name == p2r[j].pkg.name ==>
          p2r[i].pkg.name in done + {k} && UpdatesSelf(candidates, system, p2r[i].pkg.name))
  }

  lemma RemovingStart(candidates: map<string, seq<Artifact>>, system: map<string, seq<Package>>, done: set<string>,
                      k: string, p2r: seq<Artifact>)
    requires NonemptyLists(candidates) && NonemptyLists(system) && RemovesOf(candidates, system, done, p2r)
    ensures Removing(candidates, system, done, k, {}, p2r)
  {
  }

  lemma RemovingNext(candidates: map<string, seq<Artifact>>, system: map<string, seq<Package>>, done: set<string>,
                     k: string, names: set<string>, p2r: seq<Artifact>, n: string, again: bool)
    requires Inputs(candidates, system) && Removing(candidates, system, done, k, names, p2r)
    requires again ==> n == k && UpdatesSelf(candidates, system, k)
    ensures n !in system ==> Removing(candidates, system, done, k, names + {n}, p2r)
    ensures n in system && n in ArtifactNames(p2r) ==> Removing(candidates, system, done, k, names + {n}, p2r)
    ensures n in system && (again || n !in ArtifactNames(p2r)) ==>
              Removing(candidates, system, done, k, names + {n}, p2r + [Removal(system, n)])
  {
    if n in system {
      var r := Removal(system, n);
      var p2r' := p2r + [r];
      assert forall x :: x in p2r' <==> x in p2r || x == r;
      forall m ensures m in ArtifactNames(p2r') <==> m in ArtifactNames(p2r) || m == n {
        if m == n {
          assert r in p2r' && r.pkg.name == n;
        }
        if m in ArtifactNames(p2r) {
          var x :| x in p2r && x.pkg.name == m;
          assert x in p2r';
        }
      }
    }
  }

  lemma RemovingEnd(candidates: map<string, seq<Artifact>>, system: map<string, seq<Package>>, done: set<string>,
                    k: string, names: set<string>, p2r: seq<Artifact>)
    requires NonemptyLists(candidates) && NonemptyLists(system) && Removing(candidates, system, done, k, names, p2r)
    requires k in candidates && k in names
    requires forall n :: n in names <==> n == k || exists a :: a in candidates[k][0].pkg.provs && a.name == n
    ensures RemovesOf(candidates, system, done + {k}, p2r)
  {
    forall n ensures n in ArtifactNames(p2r) <==> exists j :: j in done + {k} && Ousts(candidates, system, j, n) {
      if n in names && n in system {
        assert k in done + {k} && Ousts(candidates, system, k, n);
      }
      if j :| j in done && Ousts(candidates, system, j, n) {
        assert j in done + {k};
      }
      if j :| j in done + {k} && Ousts(candidates, system, j, n) {
        assert j in done || j == k;
      }
    }
  }

  lemma HeadUpdates(candidates: map<string, seq<Artifact>>, system: map<string, seq<Package>>, done: set<string>,
                    p2u: seq<Artifact>, k: string)
    requires Inputs(candidates, system) && UpdatesOf(candidates, system, done, p2u) && k in candidates && k !in done
    ensures if UpdatesSelf(candidates, system, k)
            then UpdatesOf(candidates, system, done + {k}, p2u + [candidates[k][0]])
            else UpdatesOf(candidates, system, done + {k}, p2u)
  {
    var p2u' := if UpdatesSelf(candidates, system, k) then p2u + [candidates[k][0]] else p2u;
    forall a
      ensures a in p2u' <==> exists j :: j in done + {k} && UpdatesSelf(candidates, system, j) && a == candidates[j][0]
    {
      if a in p2u {
        var j :| j in done && UpdatesSelf(candidates, system, j) && a == candidates[j][0];
        assert j in done + {k};
      }
      if a in p2u' && a !in p2u {
        assert k in done + {k} && a == candidates[k][0];
      }
      if j :| j in done + {k} && UpdatesSelf(candidates, system, j) && a == candidates[j][0] {
        assert j in done || j == k;
      }
    }
    if UpdatesSelf(candidates, system, k) {
      forall i | 0 <= i < |p2u| ensures p2u[i].pkg.name != k {
        assert p2u[i] in p2u;
      }
    }
  }

  lemma HeadInstalls(candidates: map<string, seq<Artifact>>, system: map<string, seq<Package>>, done: set<string>,
                     p2i: seq<Artifact>, k: string)
    requires Inputs(candidates, system) && InstallsOf(candidates, system, done, p2i) && k in candidates && k !in done
    ensures if Installs(candidates, system, k) then InstallsOf(candidates, system, done + {k}, p2i + [candidates[k][0]])
            else InstallsOf(candidates, system, done + {k}, p2i)
  {
    hide Replaces, Inputs;
    InputLists(candidates, system);
    var head := candidates[k][0];
    var p2i' := if Installs(candidates, system, k) then p2i + [head] else p2i;
    forall a
      ensures a in p2i' <==> exists j :: j in done + {k} && Installs(candidates, system, j) && a == candidates[j][0]
    {
      if a in p2i {
        var j :| j in done && Installs(candidates, system, j) && a == candidates[j][0];
        assert j in done + {k};
      }
      if a in p2i' && a !in p2i {
        assert k in done + {k} && a == candidates[k][0];
      }
      if j :| j in done + {k} && Installs(candidates, system, j) && a == candidates[j][0] {
        assert j in done || j == k;
      }
    }
    if Installs(candidates, system, k) {
      DistinctAppend(p2i, head);
      DistinctInstallsNext(candidates, system, done, k);
      assert head.pkg.name in ArtifactNames(p2i) <==>
        exists j :: j in done && Installs(candidates, system, j) && candidates[j][0].pkg.name == head.pkg.name by {
        if j :| j in done && Installs(candidates, system, j) && candidates[j][0].pkg.name == head.pkg.name {
          assert candidates[j][0] in p2i;
        }
      }
    }
  }

  lemma InputLists(candidates: map<string, seq<Artifact>>, system: map<string, seq<Package>>)
    requires Inputs(candidates, system)
    ensures NonemptyLists(candidates) && NonemptyLists(system)
  {
  }

  lemma DistinctAppend(arts: seq<Artifact>, a: Artifact)
    ensures OrderOperations.DistinctArtifacts(arts + [a]) <==>
              OrderOperations.DistinctArtifacts(arts) && a.pkg.name !in ArtifactNames(arts)
  {
    var arts' := arts + [a];
    if OrderOperations.DistinctArtifacts(arts') {
      assert forall i :: 0 <= i < |arts| ==> arts'[i] == arts[i];
      assert arts'[|arts|] == a;
    }
    if OrderOperations.DistinctArtifacts(arts) && a.pkg.name !in ArtifactNames(arts) {
      forall i | 0 <= i < |arts| ensures arts[i].pkg.name != a.pkg.name {
        assert arts[i] in arts;
      }
    }
  }

  lemma DistinctInstallsNext(candidates: map<string, seq<Artifact>>, system: map<string, seq<Package>>,
                             done: set<string>, k: string)
    requires NonemptyLists(candidates) && k !in done && Installs(candidates, system, k)
    ensures DistinctInstalls(candidates, system, done + {k}) <==>
              DistinctInstalls(candidates, system, done)
              && forall j :: j in done && Installs(candidates, system, j) ==>
                   candidates[j][0].pkg.name != candidates[k][0].pkg.name
  {
    if DistinctInstalls(candidates, system, done + {k}) {
      forall j | j in done && Installs(candidates, system, j)
        ensures candidates[j][0].pkg.name != candidates[k][0].pkg.name
      {
        assert j in done + {k} && k in done + {k};
      }
    }
  }

  /** Mark for removal the installed packages that the candidate k provides. */
  method RemoveProvided(candidates: map<string, seq<Artifact>>, system: map<string, seq<Package>>, k: string,
                        p2r0: seq<Artifact>, ghost done: set<string>, ghost names0: set<string>)
    returns (p2r: seq<Artifact>)
    requires Inputs(candidates, system) && k in candidates && names0 == {k}
    requires Removing(candidates, system, done, k, names0, p2r0)
    ensures RemovesOf(candidates, system, done + {k}, p2r)
  {
    hide Removing, RemovesOf, ArtifactNames;
    var provs := candidates[k][0].pkg.provs;
    ghost var names := names0;
    p2r := p2r0;
    for i := 0 to |provs|
      invariant Removing(candidates, system, done, k, names, p2r)
      invariant names == {k} + set a | a in provs[..i] :: a.name
    {
      var n := provs[i].name;
      RemovingNext(candidates, system, done, k, names, p2r, n, false);
      if n in system {
        var rm := Removal(system, n);
        var present := IsPresent(p2r, rm);
        if !present {
          p2r := p2r + [rm];
        }
      }
      names := names + {n};
      assert provs[..i + 1] == provs[..i] + [provs[i]];
    }
    assert provs[..|provs|] == provs;
    RemovingEnd(candidates, system, done, k, names, p2r);
  }

  /** The partition of the candidates, taken in any order. */
  method Partition(candidates: map<string, seq<Artifact>>, system: map<string, seq<Package>>)
    returns (p2r: seq<Artifact>, p2u: seq<Artifact>, p2i: seq<Artifact>)
    requires Inputs(candidates, system)
    ensures Partitioned(candidates, system, candidates.Keys, p2r, p2u, p2i)
  {
    hide Removing, RemovesOf, UpdatesOf, InstallsOf, ArtifactNames;
    p2r, p2u, p2i := [], [], [];
    ghost var done: set<string> := {};
    var rest := candidates.Keys;
    NothingPartitioned(candidates, system);
    while rest != {}
      invariant rest <= candidates.Keys && done == candidates.Keys - rest
      invariant RemovesOf(candidates, system, done, p2r)
      invariant UpdatesOf(candidates, system, done, p2u)
      invariant InstallsOf(candidates, system, done, p2i)
    {
      var k :| k in rest;
      var head := candidates[k][0];
      HeadUpdates(candidates, system, done, p2u, k);
      HeadInstalls(candidates, system, done, p2i, k);
      RemovingStart(candidates, system, done, k, p2r);
      RemovingNext(candidates, system, done, k, {}, p2r, k, UpdatesSelf(candidates, system, k));
      assert {} + {k} == {k};
      if k in system {
        var rm := Removal(system, k);
        if head.pkg.name != k {
          var present := IsPresent(p2r, rm);
          if !present {
            p2r := p2r + [rm];
          }
          if head.pkg.name !in candidates {
            p2i := p2i + [head];
          }
        } else {
          p2r := p2r + [rm];
          p2u := p2u + [head];
        }
      } else {
        p2i := p2i + [head];
      }
      p2r := RemoveProvided(candidates, system, k, p2r, done, {k});
      done := done + {k};
      rest := rest - {k};
    }
    assert done == candidates.Keys;
  }

  lemma NothingPartitioned(candidates: map<string, seq<Artifact>>, system: map<string, seq<Package>>)
    requires NonemptyLists(candidates) && NonemptyLists(system)
    ensures Partitioned(candidates, system, {}, [], [], [])
  {
  }

  // ---------- what the lists are worth ----------

  /** No name is both installed and updated; every update removes the installed version; every remove is of
      an installed package. */
  lemma ListsAreOrdered(candidates: map<string, seq<Artifact>>, system: map<string, seq<Package>>,
                        p2r: seq<Artifact>, p2u: seq<Artifact>, p2i: seq<Artifact>)
    requires Inputs(candidates, system) && Partitioned(candidates, system, candidates.Keys, p2r, p2u, p2i)
    ensures ArtifactNames(p2i) !! ArtifactNames(p2u)
    ensures forall a :: a in p2u ==> a.pkg.name in system && Removal(system, a.pkg.name) in p2r
    ensures forall r :: r in p2r ==> r.pkg.name in system && r == Removal(system, r.pkg.name)
  {
    forall a, b | a in p2i && b in p2u ensures a.pkg.name != b.pkg.name {
      var j :| j in candidates && Installs(candidates, system, j) && a == candidates[j][0];
      var k :| k in candidates && UpdatesSelf(candidates, system, k) && b == candidates[k][0];
    }
    forall a | a in p2u ensures a.pkg.name in system && Removal(system, a.pkg.name) in p2r {
      var k :| k in candidates && UpdatesSelf(candidates, system, k) && a == candidates[k][0];
      assert Ousts(candidates, system, k, k);
      assert k in ArtifactNames(p2r);
      var r :| r in p2r && r.pkg.name == k;
    }
  }

  /** The map of the installed packages is that of the database. */
  ghost predicate SystemOf(system: map<string, seq<Package>>, db: Db) {
    && NonemptyLists(system)
    && (forall n :: n in system ==> system[n][0].name == n && system[n][0].ToAtom() in db.packages)
    && forall n :: db.Installed(n) <==> n in system
  }

  /** An installed package that replaces another one, and is no candidate itself, is ousted too. */
  ghost predicate ReplacementsAreNew(candidates: map<string, seq<Artifact>>, system: map<string, seq<Package>>)
    requires NonemptyLists(candidates)
  {
    forall k :: Replaces(candidates, system, k) && candidates[k][0].pkg.name in system
      ==> OustedBySome(candidates, system, candidates[k][0].pkg.name)
  }

  ghost predicate OustedBySome(candidates: map<string, seq<Artifact>>, system: map<string, seq<Package>>, n: string)
    requires NonemptyLists(candidates)
  {
    exists j :: j in candidates && Ousts(candidates, system, j, n)
  }

  lemma DistinctConcat(a: seq<Artifact>, b: seq<Artifact>)
    requires OrderOperations.DistinctArtifacts(b) && ArtifactNames(a) !! ArtifactNames(b)
    ensures OrderOperations.DistinctArtifacts(a + b) <==> OrderOperations.DistinctArtifacts(a)
  {
    var c := a + b;
    if OrderOperations.DistinctArtifacts(c) {
      assert forall i :: 0 <= i < |a| ==> c[i] == a[i];
    }
    if OrderOperations.DistinctArtifacts(a) {
      forall i, j | 0 <= i < j < |c| ensures c[i].pkg.name != c[j].pkg.name {
        if i < |a| && j >= |a| {
          assert a[i] in a && b[j - |a|] in b;
          assert a[i].pkg.name in ArtifactNames(a) && b[j - |a|].pkg.name in ArtifactNames(b);
        }
      }
    }
  }

  /** A package to add that is installed is also removed, unless it is a replacement that stays. */
  lemma AddedAndInstalled(candidates: map<string, seq<Artifact>>, system: map<string, seq<Package>>, db: Db,
                          p2r: seq<Artifact>, p2u: seq<Artifact>, p2i: seq<Artifact>)
    requires Inputs(candidates, system) && Partitioned(candidates, system, candidates.Keys, p2r, p2u, p2i)
    requires SystemOf(system, db)
    ensures (forall a :: a in p2i + p2u && db.Installed(a.pkg.name) ==> a.pkg.name in ArtifactNames(p2r))
       <==> ReplacementsAreNew(candidates, system)
  {
    if ReplacementsAreNew(candidates, system) {
      forall a | a in p2i + p2u && db.Installed(a.pkg.name) ensures a.pkg.name in ArtifactNames(p2r) {
        if a in p2u {
          ListsAreOrdered(candidates, system, p2r, p2u, p2i);
          assert Removal(system, a.pkg.name) in p2r;
        } else {
          var k :| k in candidates && Installs(candidates, system, k) && a == candidates[k][0];
          assert Replaces(candidates, system, k);
          assert OustedBySome(candidates, system, a.pkg.name);
        }
      }
    }
    if forall a :: a in p2i + p2u && db.Installed(a.pkg.name) ==> a.pkg.name in ArtifactNames(p2r) {
      forall k | Replaces(candidates, system, k) && candidates[k][0].pkg.name in system
        ensures OustedBySome(candidates, system, candidates[k][0].pkg.name)
      {
        assert Installs(candidates, system, k);
        assert candidates[k][0] in p2i && candidates[k][0] in p2i + p2u;
        assert candidates[k][0].pkg.name in ArtifactNames(p2r);
      }
    }
  }

  /** The lists form a transaction exactly when no two replaced packages bring the same replacement, and no
      replacement is itself installed and kept. */
  lemma PartitionIsTransaction(candidates: map<string, seq<Artifact>>, system: map<string, seq<Package>>, db: Db,
                               p2r: seq<Artifact>, p2u: seq<Artifact>, p2i: seq<Artifact>)
    requires Inputs(candidates, system) && Partitioned(candidates, system, candidates.Keys, p2r, p2u, p2i)
    requires SystemOf(system, db)
    ensures Transaction(db, p2i + p2u, p2r) <==>
              DistinctInstalls(candidates, system, candidates.Keys) && ReplacementsAreNew(candidates, system)
  {
    hide Installs, Replaces, DistinctInstalls, ReplacementsAreNew, Db.Installed, Ousts;
    var adds := p2i + p2u;
    ListsAreOrdered(candidates, system, p2r, p2u, p2i);
    DistinctConcat(p2i, p2u);
    AddedAndInstalled(candidates, system, db, p2r, p2u, p2i);
    assert forall i, j :: 0 <= i < j < |p2r| && p2r[i].pkg.name == p2r[j].pkg.name ==>
             p2r[i].pkg.name in ArtifactNames(adds) by {
      forall i, j | 0 <= i < j < |p2r| && p2r[i].pkg.name == p2r[j].pkg.name
        ensures p2r[i].pkg.name in ArtifactNames(adds)
      {
        var k := p2r[i].pkg.name;
        assert UpdatesSelf(candidates, system, k);
        assert candidates[k][0] in p2u && candidates[k][0] in adds;
      }
    }
    forall a | a in p2r ensures a.pkg.ToAtom() in db.packages {
      assert a == Removal(system, a.pkg.name);
    }
  }

  /** Without replacements the candidates meet the condition of a transaction, and each joins. */
  lemma PlainInputs(candidates: map<string, seq<Artifact>>, system: map<string, seq<Package>>, db: Db)
    requires SystemOf(system, db) && Resolver.NamedLists(candidates)
    ensures Inputs(candidates, system)
    ensures DistinctInstalls(candidates, system, candidates.Keys) && ReplacementsAreNew(candidates, system)
    ensures forall k :: k in candidates ==> Joins(candidates, system, k)
    ensures forall k :: k in candidates ==> candidates[k][0].pkg.name == k
  {
    forall k | k in candidates ensures candidates[k][0].pkg.name == k {
      assert candidates[k][0] in candidates[k];
    }
  }

  /** Without replacements the lists always form a transaction. */
  lemma PlainPartitionIsTransaction(candidates: map<string, seq<Artifact>>, system: map<string, seq<Package>>, db: Db,
                                    p2r: seq<Artifact>, p2u: seq<Artifact>, p2i: seq<Artifact>)
    requires Inputs(candidates, system) && Partitioned(candidates, system, candidates.Keys, p2r, p2u, p2i)
    requires SystemOf(system, db) && Resolver.NamedLists(candidates)
    ensures Transaction(db, p2i + p2u, p2r) && Installer.HonestRemoves(db, p2r)
  {
    PlainInputs(candidates, system, db);
    PartitionIsTransaction(candidates, system, db, p2r, p2u, p2i);
    forall a | a in p2r ensures a.files == [] {
      assert a == Removal(system, a.pkg.name);
    }
  }

  /** The removes bring no file lists, so each claims only files of its own package. */
  lemma RemovalsAreHonest(candidates: map<string, seq<Artifact>>, system: map<string, seq<Package>>, db: Db,
                          p2r: seq<Artifact>, p2u: seq<Artifact>, p2i: seq<Artifact>)
    requires Inputs(candidates, system) && Partitioned(candidates, system, candidates.Keys, p2r, p2u, p2i)
    ensures Installer.HonestRemoves(db, p2r)
  {
    forall a | a in p2r ensures a.files == [] {
      assert a == Removal(system, a.pkg.name);
    }
  }

  /** With two packages replaced by the same third one, the install list holds that one twice. */
  lemma SameReplacementExample()
    ensures exists candidates, system ::
              && Inputs(candidates, system)
              && forall p2r, p2u, p2i :: Partitioned(candidates, system, candidates.Keys, p2r, p2u, p2i)
                   ==> !OrderOperations.DistinctArtifacts(p2i)
  {
    var x := Artifact(Package("x", "2", [], [], [Atom("a", "2"), Atom("b", "2")]), []);
    var candidates := map["a" := [x], "b" := [x]];
    var system := map["a" := [Package("a", "1", [], [], [])], "b" := [Package("b", "1", [], [], [])]];
    assert Inputs(candidates, system);
    assert Replaces(candidates, system, "a") && Replaces(candidates, system, "b");
    assert Installs(candidates, system, "a") && Installs(candidates, system, "b");
    assert "a" in candidates.Keys && "b" in candidates.Keys;
    assert !DistinctInstalls(candidates, system, candidates.Keys);
  }

  /** A replacement that is installed already, and is no candidate by its own name, is added without a remove. */
  lemma KeptReplacementExample()
    ensures exists candidates, system ::
              && Inputs(candidates, system) && DistinctInstalls(candidates, system, candidates.Keys)
              && !ReplacementsAreNew(candidates, system)
              && forall p2r, p2u, p2i :: Partitioned(candidates, system, candidates.Keys, p2r, p2u, p2i)
                   ==> AddsOver(p2i, p2r, "x") && "x" in system
  {
    var x := Artifact(Package("x", "2", [], [], [Atom("a", "2")]), []);
    var candidates := map["a" := [x]];
    var system := map["a" := [Package("a", "1", [], [], [])], "x" := [Package("x", "1", [], [], [])]];
    assert Inputs(candidates, system);
    assert Replaces(candidates, system, "a") && Installs(candidates, system, "a");
    assert !OustedBySome(candidates, system, "x") by {
      forall a | a in x.pkg.provs ensures a.name != "x" {
      }
    }
    assert !ReplacementsAreNew(candidates, system);
    forall p2r, p2u, p2i | Partitioned(candidates, system, candidates.Keys, p2r, p2u, p2i)
      ensures AddsOver(p2i, p2r, "x")
    {
      assert "a" in candidates.Keys;
      assert x in p2i;
    }
  }

  /** The name is installed by the list and not removed. */
  ghost predicate AddsOver(p2i: seq<Artifact>, p2r: seq<Artifact>, n: string) {
    n in ArtifactNames(p2i) && n !in ArtifactNames(p2r)
  }

  // ---------- what the lists are ----------

  /** Which heads are installed, which update the package of their name, and which installed packages go. */
  lemma PartitionMeaning(candidates: map<string, seq<Artifact>>, system: map<string, seq<Package>>, p2r: seq<Artifact>,
                         p2u: seq<Artifact>, p2i: seq<Artifact>)
    requires Inputs(candidates, system) && Partitioned(candidates, system, candidates.Keys, p2r, p2u, p2i)
    ensures forall a :: a in p2u <==>
              exists k :: k in candidates && k in system && a == candidates[k][0] && a.pkg.name == k
    ensures forall a :: a in p2i <==>
              exists k :: k in candidates && a == candidates[k][0]
                          && (k !in system || (a.pkg.name != k && a.pkg.name !in candidates))
    ensures forall a :: a in p2r <==>
              exists n, k :: n in system && k in candidates && a == Artifact(system[n][0], [])
                             && (k == n || exists q :: q in candidates[k][0].pkg.provs && q.name == n)
  {
    assert RemovesOf(candidates, system, candidates.Keys, p2r);
    hide RemovesOf, UpdatesOf, InstallsOf;
    PartitionKeys(candidates, system, p2u, p2i);
    PartitionRemoves(candidates, system, p2r);
  }

  lemma PartitionRemoves(candidates: map<string, seq<Artifact>>, system: map<string, seq<Package>>, p2r: seq<Artifact>)
    requires Inputs(candidates, system) && RemovesOf(candidates, system, candidates.Keys, p2r)
    ensures forall a :: a in p2r <==>
              exists n, k :: n in system && k in candidates && a == Artifact(system[n][0], [])
                             && (k == n || exists q :: q in candidates[k][0].pkg.provs && q.name == n)
  {
    forall a | a in p2r
      ensures exists n, k :: n in system && k in candidates && a == Artifact(system[n][0], [])
                             && (k == n || exists q :: q in candidates[k][0].pkg.provs && q.name == n)
    {
      var n := a.pkg.name;
      assert n in ArtifactNames(p2r);
      var k :| k in candidates.Keys && Ousts(candidates, system, k, n);
    }
    forall n, k | Ousts(candidates, system, k, n) ensures Removal(system, n) in p2r {
      assert k in candidates.Keys && n in ArtifactNames(p2r);
      var r :| r in p2r && r.pkg.name == n;
    }
    forall a, n, k | n in system && k in candidates && a == Artifact(system[n][0], [])
                     && (k == n || exists q :: q in candidates[k][0].pkg.provs && q.name == n)
      ensures a in p2r
    {
      assert Ousts(candidates, system, k, n) && a == Removal(system, n);
    }
  }

  lemma PartitionKeys(candidates: map<string, seq<Artifact>>, system: map<string, seq<Package>>, p2u: seq<Artifact>,
                      p2i: seq<Artifact>)
    requires Inputs(candidates, system) && UpdatesOf(candidates, system, candidates.Keys, p2u)
    requires InstallsOf(candidates, system, candidates.Keys, p2i)
    ensures forall a :: a in p2u <==>
              exists k :: k in candidates && k in system && a == candidates[k][0] && a.pkg.name == k
    ensures forall a :: a in p2i <==>
              exists k :: k in candidates && a == candidates[k][0]
                          && (k !in system || (a.pkg.name != k && a.pkg.name !in candidates))
  {
    forall a ensures a in p2u <==> exists k :: UpdatesSelf(candidates, system, k) && a == candidates[k][0] {
      if k :| UpdatesSelf(candidates, system, k) && a == candidates[k][0] {
        assert k in candidates.Keys;
      }
    }
    forall a ensures a in p2i <==> exists k :: Installs(candidates, system, k) && a == candidates[k][0] {
      if k :| Installs(candidates, system, k) && a == candidates[k][0] {
        assert k in candidates.Keys;
      }
    }
  }

  // ---------- when the files fit ----------

  ghost predicate SameJoinedFile(candidates: map<string, seq<Artifact>>, system: map<string, seq<Package>>, j: string,
                                 x: int, k: string, y: int)
    requires NonemptyLists(candidates)
  {
    && Joins(candidates, system, j) && Joins(candidates, system, k)
    && 0 <= x < |candidates[j][0].files| && 0 <= y < |candidates[k][0].files|
    && candidates[j][0].files[x] == candidates[k][0].files[y]
  }

  /** No file is brought twice by the heads that join, and none that is on the target belongs to an installed package
      that stays: one that is no candidate, and of whose name no head provides anything. */
  ghost predicate FilesFit(candidates: map<string, seq<Artifact>>, system: map<string, seq<Package>>, db: Db,
                           onDisk: set<string>)
    requires NonemptyLists(candidates) && NonemptyLists(system)
  {
    && (forall j, k, x, y :: SameJoinedFile(candidates, system, j, x, k, y) ==> j == k && x == y)
    && forall k, f, fp :: Meets(candidates, system, db, onDisk, k, f, fp) ==> Gone(candidates, system, fp)
  }

  /** A joining head brings a file that is on the target, and that a registered package owns. */
  ghost predicate Meets(candidates: map<string, seq<Artifact>>, system: map<string, seq<Package>>, db: Db,
                        onDisk: set<string>, k: string, f: string, fp: Atom)
    requires NonemptyLists(candidates)
  {
    Joins(candidates, system, k) && f in candidates[k][0].files && f in onDisk && Installer.Owns(db, fp, f)
  }

  ghost predicate Gone(candidates: map<string, seq<Artifact>>, system: map<string, seq<Package>>, fp: Atom)
    requires NonemptyLists(candidates) && NonemptyLists(system)
  {
    exists n, k :: n in system && k in candidates && system[n][0].ToAtom() == fp
                   && (k == n || exists q :: q in candidates[k][0].pkg.provs && q.name == n)
  }

  lemma JoinedNames(candidates: map<string, seq<Artifact>>, system: map<string, seq<Package>>, j: string, k: string)
    requires Inputs(candidates, system) && DistinctInstalls(candidates, system, candidates.Keys)
    requires Joins(candidates, system, j) && Joins(candidates, system, k) && j != k
    ensures candidates[j][0].pkg.name != candidates[k][0].pkg.name
  {
    assert j in candidates.Keys && k in candidates.Keys;
  }

  lemma JoinedAre(candidates: map<string, seq<Artifact>>, system: map<string, seq<Package>>, p2r: seq<Artifact>,
                  p2u: seq<Artifact>, p2i: seq<Artifact>, a: Artifact)
    requires Inputs(candidates, system) && Partitioned(candidates, system, candidates.Keys, p2r, p2u, p2i)
    ensures a in p2i + p2u <==> exists k :: Joins(candidates, system, k) && a == candidates[k][0]
  {
    if a in p2i + p2u {
      if a in p2i {
        var k :| k in candidates && Installs(candidates, system, k) && a == candidates[k][0];
        assert Joins(candidates, system, k);
      } else {
        var k :| k in candidates && UpdatesSelf(candidates, system, k) && a == candidates[k][0];
        assert Joins(candidates, system, k);
      }
    }
    if k :| Joins(candidates, system, k) && a == candidates[k][0] {
      CandidateAdded(candidates, system, p2r, p2u, p2i, k);
    }
  }

  lemma OnceExactly(candidates: map<string, seq<Artifact>>, system: map<string, seq<Package>>, p2r: seq<Artifact>,
                    p2u: seq<Artifact>, p2i: seq<Artifact>)
    requires Inputs(candidates, system) && Partitioned(candidates, system, candidates.Keys, p2r, p2u, p2i)
    requires DistinctInstalls(candidates, system, candidates.Keys) && OrderOperations.DistinctArtifacts(p2i + p2u)
    ensures Installer.EachFileOnce(p2i + p2u) <==>
            forall j, k, x, y :: SameJoinedFile(candidates, system, j, x, k, y) ==> j == k && x == y
  {
    assert NonemptyLists(candidates);
    hide Partitioned, Installs, UpdatesSelf, DistinctInstalls, Inputs;
    var adds := p2i + p2u;
    if Installer.EachFileOnce(adds) {
      forall j, k, x, y | SameJoinedFile(candidates, system, j, x, k, y) ensures j == k && x == y {
        JoinedAre(candidates, system, p2r, p2u, p2i, candidates[j][0]);
        JoinedAre(candidates, system, p2r, p2u, p2i, candidates[k][0]);
        var i :| 0 <= i < |adds| && adds[i] == candidates[j][0];
        var l :| 0 <= l < |adds| && adds[l] == candidates[k][0];
        assert Installer.SameFile(adds, i, x, l, y);
        if j != k {
          JoinedNames(candidates, system, j, k);
        }
      }
    }
    if forall j, k, x, y :: SameJoinedFile(candidates, system, j, x, k, y) ==> j == k && x == y {
      forall i, x, l, y | Installer.SameFile(adds, i, x, l, y) ensures i == l && x == y {
        assert adds[i] in adds && adds[l] in adds;
        JoinedAre(candidates, system, p2r, p2u, p2i, adds[i]);
        JoinedAre(candidates, system, p2r, p2u, p2i, adds[l]);
        var j :| Joins(candidates, system, j) && adds[i] == candidates[j][0];
        var k :| Joins(candidates, system, k) && adds[l] == candidates[k][0];
        assert SameJoinedFile(candidates, system, j, x, k, y);
      }
    }
  }

  lemma FitsExactly(candidates: map<string, seq<Artifact>>, system: map<string, seq<Package>>, db: Db,
                    p2r: seq<Artifact>, p2u: seq<Artifact>, p2i: seq<Artifact>, onDisk: set<string>)
    requires Inputs(candidates, system) && Partitioned(candidates, system, candidates.Keys, p2r, p2u, p2i)
    requires DistinctInstalls(candidates, system, candidates.Keys) && OrderOperations.DistinctArtifacts(p2i + p2u)
    ensures Installer.FullRemoves(db, p2r)
    ensures FilesFit(candidates, system, db, onDisk) <==>
              Installer.EachFileOnce(p2i + p2u) && !Installer.Clashes(db, p2i + p2u, p2r, onDisk)
  {
    OnceExactly(candidates, system, p2r, p2u, p2i);
    PartitionMeaning(candidates, system, p2r, p2u, p2i);
    assert NonemptyLists(candidates) && NonemptyLists(system);
    hide Partitioned, Installs, UpdatesSelf, DistinctInstalls, Inputs;
    forall fp ensures Gone(candidates, system, fp) <==> exists r :: r in p2r && r.pkg.ToAtom() == fp {
      GoneExactly(candidates, system, p2r, fp);
    }
    forall a ensures a in p2i + p2u <==> exists k :: Joins(candidates, system, k) && a == candidates[k][0] {
      JoinedAre(candidates, system, p2r, p2u, p2i, a);
    }
    hide Gone, Installer.EachFileOnce;
    ClashesExactly(candidates, system, db, p2i + p2u, p2r, onDisk);
  }

  lemma GoneExactly(candidates: map<string, seq<Artifact>>, system: map<string, seq<Package>>, p2r: seq<Artifact>,
                    fp: Atom)
    requires NonemptyLists(candidates) && NonemptyLists(system)
    requires forall a :: a in p2r <==>
               exists n, k :: n in system && k in candidates && a == Artifact(system[n][0], [])
                              && (k == n || exists q :: q in candidates[k][0].pkg.provs && q.name == n)
    ensures Gone(candidates, system, fp) <==> exists r :: r in p2r && r.pkg.ToAtom() == fp
  {
    if Gone(candidates, system, fp) {
      var n, k :| n in system && k in candidates && system[n][0].ToAtom() == fp
               && (k == n || exists q :: q in candidates[k][0].pkg.provs && q.name == n);
      assert Artifact(system[n][0], []) in p2r;
    }
  }

  lemma ClashesExactly(candidates: map<string, seq<Artifact>>, system: map<string, seq<Package>>, db: Db,
                       adds: seq<Artifact>, p2r: seq<Artifact>, onDisk: set<string>)
    requires NonemptyLists(candidates) && NonemptyLists(system)
    requires forall a :: a in adds <==> exists k :: Joins(candidates, system, k) && a == candidates[k][0]
    requires forall fp :: Gone(candidates, system, fp) <==> exists r :: r in p2r && r.pkg.ToAtom() == fp
    ensures Installer.Clashes(db, adds, p2r, onDisk) <==>
            exists k, f, fp :: Meets(candidates, system, db, onDisk, k, f, fp) && !Gone(candidates, system, fp)
  {
    hide Gone, Installs, UpdatesSelf;
    if Installer.Clashes(db, adds, p2r, onDisk) {
      var a, f, fp :| a in adds && f in a.files && f in onDisk && Installer.Owns(db, fp, f)
                   && forall r :: r in p2r ==> r.pkg.ToAtom() != fp;
      var k :| Joins(candidates, system, k) && a == candidates[k][0];
      assert Meets(candidates, system, db, onDisk, k, f, fp) && !Gone(candidates, system, fp);
    }
    if k, f, fp :| Meets(candidates, system, db, onDisk, k, f, fp) && !Gone(candidates, system, fp) {
      assert candidates[k][0] in adds;
    }
  }

  /** From the candidates to the upgraded system: when no two candidates bring the same new package and no
      replacement is an installed package that is kept, and the file check passes, the upgrade commits the lists.
      The registered packages own pairwise disjoint files again, if all files that they owned were on the target. */
  method UpgradeSystem(m: Installer.ArtifactsManager, g: Gentoo, candidates: map<string, seq<Artifact>>,
                       system: map<string, seq<Package>>, onDisk: set<string>) returns (result: Installer.CheckResult)
    requires m.database.Valid() && m.database.OneVersion() && m.IndexCurrent()
    requires Inputs(candidates, system) && SystemOf(system, m.database)
    requires DistinctInstalls(candidates, system, candidates.Keys) && ReplacementsAreNew(candidates, system)
    modifies m
    ensures m.database.Valid() && m.database.OneVersion()
    ensures !result.Passed? ==> m.database == old(m.database)
    ensures Installer.DisjointFiles(old(m.database)) ==>
              (result.Passed? <==> FilesFit(candidates, system, old(m.database), onDisk))
    ensures Installer.DisjointFiles(old(m.database)) && Installer.FilesPresent(old(m.database), onDisk) ==>
              Installer.DisjointFiles(m.database)
    ensures result.Passed? ==> forall k :: Joins(candidates, system, k) ==>
              Holds(m.database, candidates[k][0].pkg.ToAtom(), candidates[k][0].pkg, candidates[k][0].files)
    ensures result.Passed? ==>
              forall fp :: fp in old(m.database.packages) && !Provided(candidates, fp.name) ==>
                fp.name in candidates || fp in m.database.packages
    ensures result.Passed? ==> forall k :: Leaves(candidates, system, k) ==>
              system[k][0].ToAtom() !in m.database.packages
    ensures result.Passed? ==> forall fp :: fp in m.database.packages ==>
              fp in old(m.database.packages) || Brought(candidates, system, fp)
  {
    hide Transaction, Committed, Installer.DisjointFiles, Partitioned, Inputs, SystemOf, Installer.CheckSeesAll,
      Brought, Installer.FilesPresent, Installs, UpdatesSelf, DistinctInstalls, ReplacementsAreNew, OustedBySome, Joins,
      Leaves, FilesFit, Installer.EachFileOnce, Installer.Clashes, Installer.FullRemoves;
    var p2r, p2u, p2i := Partition(candidates, system);
    ghost var db := m.database;
    PartitionIsTransaction(candidates, system, db, p2r, p2u, p2i);
    RemovalsAreHonest(candidates, system, db, p2r, p2u, p2i);
    RemovesAreInstalled(candidates, system, db, p2r, p2u, p2i);
    AddsDistinct(db, p2i + p2u, p2r);
    FitsExactly(candidates, system, db, p2r, p2u, p2i, onDisk);
    result := m.Upgrade(g, p2i, p2u, p2r, true, false, onDisk);
    if result.Passed? {
      if Installer.DisjointFiles(db) && Installer.FilesPresent(db, onDisk) {
        Installer.PresentFilesAreSeen(db, p2i + p2u, p2r, onDisk);
      }
      CommittedCandidates(candidates, system, db, p2r, p2u, p2i, m.database);
    }
  }

  lemma AddsDistinct(db: Db, adds: seq<Artifact>, p2r: seq<Artifact>)
    requires Transaction(db, adds, p2r)
    ensures OrderOperations.DistinctArtifacts(adds)
  {
  }

  /** The head of the candidate is installed or updates the package of its name. */
  ghost predicate Joins(candidates: map<string, seq<Artifact>>, system: map<string, seq<Package>>, k: string)
    requires NonemptyLists(candidates)
  {
    k in candidates && (Installs(candidates, system, k) || UpdatesSelf(candidates, system, k))
  }

  /** The fingerprint is that of the head of a candidate. */
  ghost predicate Brought(candidates: map<string, seq<Artifact>>, system: map<string, seq<Package>>, fp: Atom)
    requires NonemptyLists(candidates)
  {
    exists k :: Joins(candidates, system, k) && candidates[k][0].pkg.ToAtom() == fp
  }

  /** The installed package is ousted, and not added again in the same version. */
  ghost predicate Leaves(candidates: map<string, seq<Artifact>>, system: map<string, seq<Package>>, k: string)
    requires NonemptyLists(candidates) && NonemptyLists(system)
  {
    && k in system && OustedBySome(candidates, system, k)
    && forall j :: Joins(candidates, system, j) ==> candidates[j][0].pkg.ToAtom() != system[k][0].ToAtom()
  }

  ghost predicate Provided(candidates: map<string, seq<Artifact>>, n: string)
  {
    exists k, a :: k in candidates && candidates[k] != [] && a in candidates[k][0].pkg.provs && a.name == n
  }

  lemma RemovesAreInstalled(candidates: map<string, seq<Artifact>>, system: map<string, seq<Package>>, db: Db,
                            p2r: seq<Artifact>, p2u: seq<Artifact>, p2i: seq<Artifact>)
    requires Inputs(candidates, system) && Partitioned(candidates, system, candidates.Keys, p2r, p2u, p2i)
    requires SystemOf(system, db)
    ensures forall a :: a in p2r ==> a.pkg.ToAtom() in db.packages
  {
    forall a | a in p2r ensures a.pkg.ToAtom() in db.packages {
      assert a == Removal(system, a.pkg.name);
    }
  }

  lemma CandidateAdded(candidates: map<string, seq<Artifact>>, system: map<string, seq<Package>>,
                       p2r: seq<Artifact>, p2u: seq<Artifact>, p2i: seq<Artifact>, k: string)
    requires Inputs(candidates, system) && Partitioned(candidates, system, candidates.Keys, p2r, p2u, p2i)
    requires Joins(candidates, system, k)
    ensures candidates[k][0] in p2i + p2u
  {
    assert candidates[k][0] in p2i || candidates[k][0] in p2u;
  }

  lemma OustedGone(candidates: map<string, seq<Artifact>>, system: map<string, seq<Package>>, db: Db,
                   p2r: seq<Artifact>, p2u: seq<Artifact>, p2i: seq<Artifact>, db': Db, k: string)
    requires Inputs(candidates, system) && Partitioned(candidates, system, candidates.Keys, p2r, p2u, p2i)
    requires Committed(db, p2i + p2u, p2r, db') && Leaves(candidates, system, k)
    ensures system[k][0].ToAtom() !in db'.packages
  {
    hide Installs, UpdatesSelf, Ousts;
    var fp := system[k][0].ToAtom();
    assert k in ArtifactNames(p2r);
    var r :| r in p2r && r.pkg.name == k;
    assert r.pkg.ToAtom() == fp && fp in Fingerprints(p2r);
    forall a | a in p2i + p2u ensures a.pkg.ToAtom() != fp {
      if a in p2i {
        var j :| j in candidates && Installs(candidates, system, j) && a == candidates[j][0];
      } else {
        var j :| j in candidates && UpdatesSelf(candidates, system, j) && a == candidates[j][0];
      }
    }
  }

  lemma AddedIsBrought(candidates: map<string, seq<Artifact>>, system: map<string, seq<Package>>,
                       p2r: seq<Artifact>, p2u: seq<Artifact>, p2i: seq<Artifact>, fp: Atom)
    requires Inputs(candidates, system) && Partitioned(candidates, system, candidates.Keys, p2r, p2u, p2i)
    requires fp in Fingerprints(p2i + p2u)
    ensures Brought(candidates, system, fp)
  {
    hide Installs, UpdatesSelf, Ousts;
    var a :| a in p2i + p2u && a.pkg.ToAtom() == fp;
    if a in p2i {
      var j :| j in candidates && Installs(candidates, system, j) && a == candidates[j][0];
      assert Joins(candidates, system, j);
    } else {
      var j :| j in candidates && UpdatesSelf(candidates, system, j) && a == candidates[j][0];
      assert Joins(candidates, system, j);
    }
  }

  lemma OustedOnly(candidates: map<string, seq<Artifact>>, system: map<string, seq<Package>>,
                   p2r: seq<Artifact>, p2u: seq<Artifact>, p2i: seq<Artifact>, fp: Atom)
    requires Inputs(candidates, system) && Partitioned(candidates, system, candidates.Keys, p2r, p2u, p2i)
    requires fp in Fingerprints(p2r)
    ensures fp.name in candidates || Provided(candidates, fp.name)
  {
    var r :| r in p2r && r.pkg.ToAtom() == fp;
    assert r.pkg.name in ArtifactNames(p2r);
    var k :| k in candidates && Ousts(candidates, system, k, fp.name);
  }

  lemma CommittedCandidates(candidates: map<string, seq<Artifact>>, system: map<string, seq<Package>>, db: Db,
                            p2r: seq<Artifact>, p2u: seq<Artifact>, p2i: seq<Artifact>, db': Db)
    requires Inputs(candidates, system) && Partitioned(candidates, system, candidates.Keys, p2r, p2u, p2i)
    requires db.Valid() && Committed(db, p2i + p2u, p2r, db')
    ensures db'.Valid() && db'.OneVersion()
    ensures forall k :: Joins(candidates, system, k) ==>
              Holds(db', candidates[k][0].pkg.ToAtom(), candidates[k][0].pkg, candidates[k][0].files)
    ensures forall fp :: fp in db.packages && fp.name !in candidates && !Provided(candidates, fp.name) ==>
              fp in db'.packages
    ensures forall k :: Leaves(candidates, system, k) ==> system[k][0].ToAtom() !in db'.packages
    ensures forall fp :: fp in db'.packages ==> fp in db.packages || Brought(candidates, system, fp)
  {
    hide RemovesOf, Brought, UpdatesOf, InstallsOf, Holds, Provided, Fingerprints, Installs, UpdatesSelf, OustedBySome;
    forall k | Joins(candidates, system, k)
      ensures Holds(db', candidates[k][0].pkg.ToAtom(), candidates[k][0].pkg, candidates[k][0].files)
    {
      CandidateAdded(candidates, system, p2r, p2u, p2i, k);
    }
    forall fp | fp in db.packages && fp.name !in candidates && !Provided(candidates, fp.name)
      ensures fp in db'.packages
    {
      if fp in Fingerprints(p2r) {
        OustedOnly(candidates, system, p2r, p2u, p2i, fp);
      }
    }
    forall fp | fp in db'.packages && fp !in db.packages ensures Brought(candidates, system, fp) {
      AddedIsBrought(candidates, system, p2r, p2u, p2i, fp);
    }
    forall k | Leaves(candidates, system, k)
      ensures system[k][0].ToAtom() !in db'.packages
    {
      OustedGone(candidates, system, db, p2r, p2u, p2i, db', k);
    }
  }
}
