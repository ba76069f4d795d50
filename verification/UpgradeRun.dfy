/** From the check of the candidates to the upgraded system. */
module UpgradeRun {
  import opened Packages
  import opened Database
  import opened Resolver
  import opened UpgradeSelector
  import Installer
  import UpgradePlan

  /** Check every candidate and, if no check fails, carry out the upgrade.  If that is done, the heads of all candidates
      are registered, nothing else is new, and a name that had a current version available is not registered in an
      older one, whichever versions were chosen. */
  method Upgrade(s: Solver, u: UpgradeEnv, pList: seq<string>, ghost universe: set<string>,
                 m: Installer.ArtifactsManager, onDisk: set<string>) returns (done: bool)
    requires Valid(s.env, universe, s.V()) && u.Valid(s.env) && s.candidates == map[] && s.accepted == map[]
    requires m.database.Valid() && m.database.OneVersion() && m.IndexCurrent()
    requires UpgradePlan.SystemOf(s.env.system, m.database)
    modifies s, m
    ensures m.database.Valid() && m.database.OneVersion()
    ensures !done ==> m.database == old(m.database)
    ensures done ==> UpgradePlan.NonemptyLists(s.candidates) && UpgradePlan.NonemptyLists(s.env.system)
    ensures done && Installer.DisjointFiles(old(m.database)) ==>
              UpgradePlan.FilesFit(s.candidates, s.env.system, old(m.database), onDisk)
    ensures Installer.DisjointFiles(old(m.database)) && Unobstructed(s.env, old(s.available)) && old(s.lucky)
            && Checkable(s.env, u, old(s.available), pList) ==>
              && UpgradePlan.NonemptyLists(s.candidates) && UpgradePlan.NonemptyLists(s.env.system)
              && (done <==> UpgradePlan.FilesFit(s.candidates, s.env.system, old(m.database), onDisk))
    ensures Installer.DisjointFiles(old(m.database)) && Installer.FilesPresent(old(m.database), onDisk) ==>
              Installer.DisjointFiles(m.database)
    ensures done ==> Registered(s.candidates, m.database)
    ensures done ==> OnlyCandidatesNew(s.candidates, old(m.database), m.database)
    ensures done && !u.deep && SortingKeeps(s.env) ==>
              forall n :: HasCurrent(s.env, u, old(s.available), n) ==> NoneOlder(s.env, u, m.database, n)
  {
    hide Valid, UpgradeEnv.Valid, HeadsChecked, OlderHead, NewerBanned, HasCurrent, SortingKeeps,
      Installer.DisjointFiles, Installer.FilesPresent, UpgradePlan.SystemOf, UpgradePlan.Inputs,
      UpgradePlan.DistinctInstalls, UpgradePlan.ReplacementsAreNew, UpgradePlan.Leaves, UpgradePlan.Joins,
      UpgradePlan.Brought, Registered, OnlyCandidatesNew, NoneOlder, Holds, UpgradePlan.FilesFit, Unobstructed,
      Checkable, Smooth;
    ghost var db, available := m.database, s.available;
    done := CheckCandidates(s, u, pList, universe);
    if done {
      CandidatesNamed(s.env, universe, s.V());
      UpgradePlan.PlainInputs(s.candidates, s.env.system, db);
      var result := UpgradePlan.UpgradeSystem(m, s.env.g, s.candidates, s.env.system, onDisk);
      done := result.Passed?;
    }
    if done {
      AllRegistered(s.candidates, s.env.system, m.database);
      OnlyBrought(s.candidates, s.env.system, db, m.database);
      if !u.deep && SortingKeeps(s.env) {
        forall n | HasCurrent(s.env, u, available, n) ensures NoneOlder(s.env, u, m.database, n) {
          NotOlderThere(s.env, u, s.V(), db, m.database, available, n);
        }
      }
    }
  }

  /** The head of every candidate is registered with its files. */
  ghost predicate Registered(candidates: map<string, seq<Artifact>>, db: Db) {
    forall k :: k in candidates ==>
      candidates[k] != [] && Holds(db, candidates[k][0].pkg.ToAtom(), candidates[k][0].pkg, candidates[k][0].files)
  }

  ghost predicate OnlyCandidatesNew(candidates: map<string, seq<Artifact>>, db: Db, db': Db) {
    forall fp :: fp in db'.packages && fp !in db.packages ==>
      fp.name in candidates && candidates[fp.name] != [] && candidates[fp.name][0].pkg.ToAtom() == fp
  }

  /** No registered package of the name is older than the one installed before. */
  ghost predicate NoneOlder(env: Env, u: UpgradeEnv, db: Db, n: string) {
    n in env.system && env.system[n] != [] &&
    forall fp :: fp in db.packages && fp.name == n ==> u.leq(env.system[n][0].version, fp.version)
  }

  lemma CandidatesNamed(env: Env, universe: set<string>, v: View)
    requires Valid(env, universe, v)
    ensures NamedLists(v.candidates)
  {
  }

  lemma AllRegistered(candidates: map<string, seq<Artifact>>, system: map<string, seq<Package>>, db: Db)
    requires UpgradePlan.NonemptyLists(candidates)
    requires forall k :: k in candidates ==> UpgradePlan.Joins(candidates, system, k)
    requires forall k :: UpgradePlan.Joins(candidates, system, k) ==>
               Holds(db, candidates[k][0].pkg.ToAtom(), candidates[k][0].pkg, candidates[k][0].files)
    ensures Registered(candidates, db)
  {
    hide UpgradePlan.Joins, Holds;
  }

  lemma OnlyBrought(candidates: map<string, seq<Artifact>>, system: map<string, seq<Package>>, db: Db, db': Db)
    requires UpgradePlan.NonemptyLists(candidates)
    requires forall k :: k in candidates ==> candidates[k][0].pkg.name == k
    requires forall fp :: fp in db'.packages ==> fp in db.packages || UpgradePlan.Brought(candidates, system, fp)
    ensures OnlyCandidatesNew(candidates, db, db')
  {
    forall fp | fp in db'.packages && fp !in db.packages
      ensures fp.name in candidates && candidates[fp.name][0].pkg.ToAtom() == fp
    {
      var k :| UpgradePlan.Joins(candidates, system, k) && candidates[k][0].pkg.ToAtom() == fp;
    }
  }

  /** A registered package of the name is the head of its candidate, or the one installed before. */
  lemma NotOlderThere(env: Env, u: UpgradeEnv, v: View, db: Db, db': Db, available: map<string, seq<Artifact>>,
                      n: string)
    requires UpgradePlan.SystemOf(env.system, db) && db.OneVersion() && db'.OneVersion() && u.Valid(env)
    requires Registered(v.candidates, db') && OnlyCandidatesNew(v.candidates, db, db')
    requires forall k :: k in v.candidates ==> v.candidates[k] != [] && v.candidates[k][0].pkg.name == k
    requires HasCurrent(env, u, available, n) && !OlderHead(env, u, v, n)
    ensures NoneOlder(env, u, db', n)
  {
    forall fp | fp in db'.packages && fp.name == n ensures u.leq(env.system[n][0].version, fp.version) {
      if n in v.candidates {
        assert v.candidates[n][0].pkg.ToAtom() in db'.packages;
      } else {
        assert fp in db.packages && env.system[n][0].ToAtom() in db.packages;
      }
    }
  }
}
