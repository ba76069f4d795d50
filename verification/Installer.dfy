/** The installer: the file conflict check, the effect of each operation on the database, and the upgrade
    that runs an ordered transaction. */
module Installer {
  import opened Wrappers
  import opened Packages
  import opened Planner
  import opened Database
  import OrderOperations

  ghost predicate Owns(db: Db, fp: Atom, f: string) {
    fp in db.packages && fp in db.files && f in db.files[fp]
  }

  ghost predicate Owned(db: Db, f: string) {
    exists fp :: Owns(db, fp, f)
  }

  /** No two registered packages own the same file. */
  ghost predicate DisjointFiles(db: Db) {
    forall fp, fq, f :: Owns(db, fp, f) && Owns(db, fq, f) ==> fp == fq
  }

  /** The index has exactly the owned files, each with an owner. */
  ghost predicate IsIndex(index: map<string, Package>, db: Db) {
    && (forall f :: f in index ==> Owns(db, index[f].ToAtom(), f))
    && (forall fp, f :: Owns(db, fp, f) ==> f in index)
  }

  function FilesOf(arts: seq<Artifact>): seq<string> {
    if arts == [] then [] else FilesOf(arts[..|arts| - 1]) + arts[|arts| - 1].files
  }

  /** The files that a remove accounts for: its own list or, if that is empty, the recorded one. */
  function RemovedFilesOf(db: Db, a: Artifact): seq<string> {
    if a.files == [] then db.GetPackageFiles(a.pkg.ToAtom()) else a.files
  }

  ghost predicate InRemoved(db: Db, toRemove: seq<Artifact>, f: string) {
    exists a :: a in toRemove && f in RemovedFilesOf(db, a)
  }

  /** The file is on the target, is not removed, and belongs to an installed package. */
  ghost predicate SystemConflict(db: Db, toRemove: seq<Artifact>, onDisk: set<string>, f: string) {
    f in onDisk && !InRemoved(db, toRemove, f) && Owned(db, f)
  }

  ghost predicate NoSystemConflict(db: Db, toRemove: seq<Artifact>, onDisk: set<string>, files: seq<string>) {
    forall f :: f in files ==> !SystemConflict(db, toRemove, onDisk, f)
  }

  datatype CheckResult = Passed | DuplicateFile(file: string) | OwnedFile(file: string)

  class ArtifactsManager {
    var database: Db
    var fileIndex: Option<map<string, Package>>

    constructor (db: Db)
      ensures database == db && fileIndex == None
    {
      database := db;
      fileIndex := None;
    }

    /** The index, if built, is that of the current database. */
    ghost predicate IndexCurrent()
      reads this
    {
      fileIndex.Some? ==> IsIndex(fileIndex.value, database)
    }

    method BuildIndexFiles()
      requires database.Valid() && IndexCurrent()
      modifies this`fileIndex
      ensures fileIndex.Some? && IsIndex(fileIndex.value, database)
    {
      if fileIndex.None? {
        var index: map<string, Package> := map[];
        var world := database.packages.Keys;
        while world != {}
          invariant world <= database.packages.Keys
          invariant forall f :: f in index ==> Owns(database, index[f].ToAtom(), f)
          invariant forall fp, f :: Owns(database, fp, f) && fp !in world ==> f in index
        {
          var fp :| fp in world;
          var files := database.GetPackageFiles(fp);
          for i := 0 to |files|
            invariant forall f :: f in index ==> Owns(database, index[f].ToAtom(), f)
            invariant forall fq, f :: Owns(database, fq, f) && fq !in world ==> f in index
            invariant forall k :: 0 <= k < i ==> files[k] in index
          {
            assert Owns(database, fp, files[i]);
            index := index[files[i] := database.packages[fp]];
          }
          world := world - {fp};
        }
        fileIndex := Some(index);
      }
    }

    method ExistsPackageFile(file: string) returns (owner: Option<Package>)
      requires database.Valid() && IndexCurrent()
      modifies this`fileIndex
      ensures IndexCurrent()
      ensures owner.Some? <==> Owned(database, file)
      ensures owner.Some? ==> Owns(database, owner.value.ToAtom(), file)
    {
      BuildIndexFiles();
      if file in fileIndex.value {
        owner := Some(fileIndex.value[file]);
      } else {
        owner := None;
      }
    }

    /** The files of the packages to remove, with the owner's name for the message. */
    method CollectRemoved(toRemove: seq<Artifact>) returns (filesToRemove: map<string, string>)
      ensures forall f :: f in filesToRemove <==> InRemoved(database, toRemove, f)
    {
      filesToRemove := map[];
      for i := 0 to |toRemove|
        invariant forall f :: f in filesToRemove <==> InRemoved(database, toRemove[..i], f)
      {
        var a := toRemove[i];
        var files := RemovedFilesOf(database, a);
        for k := 0 to |files|
          invariant forall f :: f in filesToRemove <==> InRemoved(database, toRemove[..i], f) || f in files[..k]
        {
          filesToRemove := filesToRemove[files[k] := a.pkg.name];
        }
        assert files[..|files|] == files;
        assert toRemove[..i + 1] == toRemove[..i] + [a];
        forall f
          ensures InRemoved(database, toRemove[..i + 1], f) <==> InRemoved(database, toRemove[..i], f) || f in files
        {
          InRemovedAppend(database, toRemove[..i], a, f);
        }
      }
      assert toRemove[..|toRemove|] == toRemove;
    }

    /** Check one file of a package to install. */
    method CheckFile(f: string, filesToInstall: map<string, string>, filesToRemove: map<string, string>,
                     checkSystem: bool, safeCheck: bool, onDisk: set<string>, ghost toRemove: seq<Artifact>)
      returns (result: CheckResult)
      requires database.Valid() && IndexCurrent()
      requires checkSystem ==> forall x :: x in filesToRemove <==> InRemoved(database, toRemove, x)
      modifies this`fileIndex
      ensures IndexCurrent()
      ensures result.Passed? <==>
                safeCheck || (f !in filesToInstall && (checkSystem ==> !SystemConflict(database, toRemove, onDisk, f)))
      ensures result.DuplicateFile? ==> result.file == f && f in filesToInstall
      ensures result.OwnedFile? ==> result.file == f && checkSystem && SystemConflict(database, toRemove, onDisk, f)
    {
      if f in filesToInstall && !safeCheck {
        return DuplicateFile(f);
      }
      if checkSystem {
        // Check if the file is present on the target path.
        if f in onDisk {
          if f !in filesToRemove {
            var owner := ExistsPackageFile(f);
            if owner.Some? && !safeCheck {
              return OwnedFile(f);
            }
          }
        }
      }
      return Passed;
    }

    method CheckFileConflicts(toInstall: seq<Artifact>, toRemove: seq<Artifact>, checkSystem: bool, safeCheck: bool,
                              onDisk: set<string>) returns (result: CheckResult)
      requires database.Valid() && IndexCurrent()
      modifies this`fileIndex
      ensures IndexCurrent() && (result.Passed? ==> fileIndex.None?)
      ensures result.Passed? <==> CheckedFiles(database, toRemove, checkSystem, safeCheck, onDisk, FilesOf(toInstall))
      ensures !result.Passed? ==> result.file in FilesOf(toInstall)
      ensures result.DuplicateFile? ==> OccursTwice(FilesOf(toInstall), result.file)
      ensures result.OwnedFile? ==> SystemConflict(database, toRemove, onDisk, result.file)
    {
      var filesToInstall: map<string, string> := map[];
      var filesToRemove: map<string, string> := map[];
      if checkSystem {
        filesToRemove := CollectRemoved(toRemove);
      }
      for i := 0 to |toInstall|
        invariant IndexCurrent()
        invariant forall f :: f in filesToInstall <==> f in FilesOf(toInstall[..i])
        invariant CheckedFiles(database, toRemove, checkSystem, safeCheck, onDisk, FilesOf(toInstall[..i]))
      {
        var a := toInstall[i];
        ghost var done := FilesOf(toInstall[..i]);
        FilesOfAppend(toInstall, i);
        for k := 0 to |a.files|
          invariant IndexCurrent()
          invariant forall f :: f in filesToInstall <==> f in done + a.files[..k]
          invariant CheckedFiles(database, toRemove, checkSystem, safeCheck, onDisk, done + a.files[..k])
        {
          var f := a.files[k];
          result := CheckFile(f, filesToInstall, filesToRemove, checkSystem, safeCheck, onDisk, toRemove);
          CheckedFile(database, toRemove, checkSystem, safeCheck, onDisk, toInstall, i, k);
          if !result.Passed? {
            SecondTime(toInstall, i, k);
            return;
          }
          filesToInstall := filesToInstall[f := a.pkg.name];
          assert a.files[..k + 1] == a.files[..k] + [f];
          assert done + a.files[..k + 1] == done + a.files[..k] + [f];
        }
        assert a.files[..|a.files|] == a.files;
      }
      assert toInstall[..|toInstall|] == toInstall;
      fileIndex := None;
      result := Passed;
    }

    /** RemovePackage: the file list, the file record, and the package record, in this order. */
    method RemovePackage(fp: Atom, force: bool) returns (ok: bool)
      modifies this`database
      ensures (database, ok) == old(database).Remove(fp, force)
      ensures Removes(old(database), fp, force, database, ok)
    {
      if fp !in database.files && !force {
        return false;
      }
      database := database.(files := database.files - {fp});
      if fp !in database.packages && !force {
        return false;
      }
      database := database.(packages := database.packages - {fp});
      return true;
    }

    /** RegisterPackage: the file record first, then the package record. */
    method RegisterPackage(a: Artifact, force: bool) returns (ok: bool)
      modifies this`database
      ensures (database, ok) == old(database).Register(a, force)
      ensures Registers(old(database), a, force, database, ok)
    {
      var fp := a.pkg.ToAtom();
      if fp !in database.files {
        database := database.(files := database.files[fp := a.files]);
      } else if !force {
        return false;
      }
      database := database.(packages := database.packages[fp := a.pkg]);
      return true;
    }

    /** Execute the operations; a failing remove ends the run. */
    method ExecuteOperations(ops: seq<Operation>, force: bool) returns (status: RunStatus)
      modifies this`database
      ensures (database, status) == old(database).Run(ops, force)
      ensures exists dbs :: Ran(old(database), ops, force, dbs, status) && database == dbs[|dbs| - 1]
    {
      var _ := RunIsRan(database, ops, force);
      status := Succeeded;
      for idx := 0 to |ops|
        invariant (database, status) == old(database).Run(ops[..idx], force) && status != Stopped
      {
        var op := ops[idx];
        assert ops[..idx + 1][..idx] == ops[..idx];
        if op.Removes() {
          var ok := RemovePackage(op.art.pkg.ToAtom(), force);
          if !ok {
            StoppedRun(old(database), ops, idx, force);
            return Stopped;
          }
        } else {
          var ok := RegisterPackage(op.art, force);
          if !ok {
            status := Failing;
          }
        }
      }
      assert ops[..|ops|] == ops;
    }

    /** Upgrade: check the files, order the operations, execute them. */
    method Upgrade(g: Gentoo, p2i: seq<Artifact>, p2u: seq<Artifact>, p2r: seq<Artifact>, checkSystem: bool,
                   force: bool, onDisk: set<string>) returns (result: CheckResult)
      requires database.Valid() && database.OneVersion() && IndexCurrent()
      requires Transaction(database, p2i + p2u, p2r)
      modifies this
      ensures IndexCurrent()
      ensures result.Passed? <==> CheckedFiles(old(database), p2r, checkSystem, force, onDisk, FilesOf(p2i + p2u))
      ensures if result.Passed? then Committed(old(database), p2i + p2u, p2r, database) else database == old(database)
      ensures result.Passed? && checkSystem && !force && DisjointFiles(old(database)) ==>
                (DisjointFiles(database) <==> CheckSeesAll(old(database), p2i + p2u, p2r, onDisk))
      ensures checkSystem && !force && DisjointFiles(old(database)) && FullRemoves(old(database), p2r) ==>
                (result.Passed? <==> EachFileOnce(p2i + p2u) && !Clashes(old(database), p2i + p2u, p2r, onDisk))
    {
      hide Transaction, Committed, DisjointFiles, CheckSeesAll, IsIndex, FilesOf, Db.Run, Plan, AdditionsOf;
      ghost var db := database;
      if DisjointFiles(db) && FullRemoves(db, p2r) {
        PassesExactly(db, p2i + p2u, p2r, onDisk);
      }
      hide EachFileOnce, Clashes, FullRemoves;
      result := CheckFileConflicts(p2i + p2u, p2r, checkSystem, force, onDisk);
      if !result.Passed? {
        return;
      }
      TransactionPacks(db, p2i, p2u, p2r);
      var ops, added := OrderOperations.OrderOperations(g, p2i, p2u, p2r);
      RequestedAdditions(p2i, p2u, added);
      PlanRuns(g, db, p2i + p2u, p2r, added, force);
      var status := ExecuteOperations(ops, force);
      if status != Succeeded {
        // The plan of a transaction runs to the end.
        assert false;
      }
      if checkSystem && !force && DisjointFiles(db) {
        DisjointAfterCheck(db, p2i + p2u, p2r, database, onDisk);
      }
    }
  }

  lemma {:induction false} StoppedRun(db: Db, ops: seq<Operation>, idx: nat, force: bool)
    requires idx < |ops| && db.Run(ops[..idx + 1], force).1 == Stopped
    ensures db.Run(ops, force) == db.Run(ops[..idx + 1], force)
    decreases |ops|
  {
    hide Db.Execute;
    if idx + 1 < |ops| {
      var init := ops[..|ops| - 1];
      assert init[..idx + 1] == ops[..idx + 1];
      StoppedRun(db, init, idx, force);
    } else {
      assert ops[..idx + 1] == ops;
    }
  }

  lemma TransactionPacks(db: Db, p2i: seq<Artifact>, p2u: seq<Artifact>, p2r: seq<Artifact>)
    requires Transaction(db, p2i + p2u, p2r)
    ensures OrderOperations.DistinctArtifacts(p2i + p2u)
  {
  }

  lemma RequestedAdditions(p2i: seq<Artifact>, p2u: seq<Artifact>, added: seq<Operation>)
    requires DistinctNames(added) && forall op :: op in added <==> op in OrderOperations.Requested(p2i, p2u)
    ensures AdditionsOf(added, p2i + p2u)
  {
    var ops := OrderOperations.Requested(p2i, p2u);
    OrderOperations.RequestedAdds(p2i, p2u);
    forall k | 0 <= k < |p2i| + |p2u| ensures ops[k].art == (p2i + p2u)[k] {
      if k >= |p2i| {
        assert ops[|p2i| + (k - |p2i|)].art == p2u[k - |p2i|];
      }
    }
    forall op | op in added ensures op.art in p2i + p2u {
      var k :| 0 <= k < |ops| && ops[k] == op;
      assert op.art == (p2i + p2u)[k];
    }
    forall a | a in p2i + p2u ensures AddsArtifact(added, a) {
      var k :| 0 <= k < |p2i + p2u| && (p2i + p2u)[k] == a;
      assert ops[k] in ops && ops[k] in added;
    }
  }

  lemma InRemovedAppend(db: Db, toRemove: seq<Artifact>, a: Artifact, f: string)
    ensures InRemoved(db, toRemove + [a], f) <==> InRemoved(db, toRemove, f) || f in RemovedFilesOf(db, a)
  {
    if InRemoved(db, toRemove, f) {
      var x :| x in toRemove && f in RemovedFilesOf(db, x);
      assert x in toRemove + [a];
    }
    assert a in toRemove + [a];
  }

  lemma FilesOfAppend(arts: seq<Artifact>, i: nat)
    requires i < |arts|
    ensures FilesOf(arts[..i + 1]) == FilesOf(arts[..i]) + arts[i].files
  {
    assert arts[..i + 1][..i] == arts[..i];
  }

  /** What the check has established about the files seen so far. */
  ghost predicate CheckedFiles(db: Db, toRemove: seq<Artifact>, checkSystem: bool, safeCheck: bool, onDisk: set<string>,
                               files: seq<string>) {
    safeCheck || (NoRepeats(files) && (checkSystem ==> NoSystemConflict(db, toRemove, onDisk, files)))
  }

  lemma FilesOfPrefix(arts: seq<Artifact>, i: nat)
    requires i <= |arts|
    ensures FilesOf(arts[..i]) <= FilesOf(arts)
    decreases |arts| - i
  {
    if i == |arts| {
      assert arts[..i] == arts;
    } else {
      FilesOfAppend(arts, i);
      FilesOfPrefix(arts, i + 1);
    }
  }

  lemma FileInPrefix(arts: seq<Artifact>, i: nat, k: nat)
    requires i < |arts| && k < |arts[i].files|
    ensures FilesOf(arts[..i]) + arts[i].files[..k] + [arts[i].files[k]] <= FilesOf(arts)
  {
    hide FilesOf;
    var done, files := FilesOf(arts[..i]), arts[i].files;
    FilesOfAppend(arts, i);
    FilesOfPrefix(arts, i + 1);
    assert done + files == done + files[..k] + [files[k]] + files[k + 1..];
  }

  ghost predicate OccursTwice(files: seq<string>, f: string) {
    exists i, j :: 0 <= i < j < |files| && files[i] == f && files[j] == f
  }

  lemma SecondTime(toInstall: seq<Artifact>, i: nat, k: nat)
    requires i < |toInstall| && k < |toInstall[i].files|
    ensures var f := toInstall[i].files[k];
      f in FilesOf(toInstall[..i]) + toInstall[i].files[..k] ==> OccursTwice(FilesOf(toInstall), f)
  {
    hide FilesOf;
    FileInPrefix(toInstall, i, k);
    var done, f, files := FilesOf(toInstall[..i]) + toInstall[i].files[..k], toInstall[i].files[k], FilesOf(toInstall);
    if f in done {
      var m :| 0 <= m < |done| && done[m] == f;
      assert (done + [f])[m] == files[m] && (done + [f])[|done|] == files[|done|];
    }
  }

  lemma CheckedFile(db: Db, toRemove: seq<Artifact>, checkSystem: bool, safeCheck: bool, onDisk: set<string>,
                    toInstall: seq<Artifact>, i: nat, k: nat)
    requires i < |toInstall| && k < |toInstall[i].files|
    ensures var done := FilesOf(toInstall[..i]) + toInstall[i].files[..k]; var f := toInstall[i].files[k];
      && done + [f] <= FilesOf(toInstall)
      && (CheckedFiles(db, toRemove, checkSystem, safeCheck, onDisk, done + [f]) <==>
            CheckedFiles(db, toRemove, checkSystem, safeCheck, onDisk, done)
            && (safeCheck || (f !in done && (checkSystem ==> !SystemConflict(db, toRemove, onDisk, f)))))
      && (CheckedFiles(db, toRemove, checkSystem, safeCheck, onDisk, FilesOf(toInstall)) ==>
            CheckedFiles(db, toRemove, checkSystem, safeCheck, onDisk, done + [f]))
  {
    hide CheckedFiles, SystemConflict, FilesOf;
    var files := toInstall[i].files;
    var done, f := FilesOf(toInstall[..i]) + files[..k], files[k];
    FileInPrefix(toInstall, i, k);
    CheckedAppend(db, toRemove, checkSystem, safeCheck, onDisk, done, f);
    if CheckedFiles(db, toRemove, checkSystem, safeCheck, onDisk, FilesOf(toInstall)) {
      CheckedPrefix(db, toRemove, checkSystem, safeCheck, onDisk, done + [f], FilesOf(toInstall));
    }
  }

  lemma CheckedAppend(db: Db, toRemove: seq<Artifact>, checkSystem: bool, safeCheck: bool, onDisk: set<string>,
                      done: seq<string>, f: string)
    ensures CheckedFiles(db, toRemove, checkSystem, safeCheck, onDisk, done + [f]) <==>
            CheckedFiles(db, toRemove, checkSystem, safeCheck, onDisk, done)
            && (safeCheck || (f !in done && (checkSystem ==> !SystemConflict(db, toRemove, onDisk, f))))
  {
    hide SystemConflict;
    var all := done + [f];
    assert forall x :: x in all <==> x in done || x == f;
    assert NoRepeats(all) <==> NoRepeats(done) && f !in done by {
      if NoRepeats(all) {
        assert forall i :: 0 <= i < |done| ==> all[i] == done[i];
        assert all[|done|] == f;
      }
    }
  }

  lemma CheckedPrefix(db: Db, toRemove: seq<Artifact>, checkSystem: bool, safeCheck: bool, onDisk: set<string>,
                      part: seq<string>, files: seq<string>)
    requires part <= files && CheckedFiles(db, toRemove, checkSystem, safeCheck, onDisk, files)
    ensures CheckedFiles(db, toRemove, checkSystem, safeCheck, onDisk, part)
  {
    hide SystemConflict;
    assert forall i :: 0 <= i < |part| ==> part[i] == files[i];
  }

  // ---------- what the check is worth ----------

  /** Two artefacts that pass the check share no file. */
  lemma {:induction false} DistinctOwnersOf(arts: seq<Artifact>, i: nat, j: nat, f: string)
    requires NoRepeats(FilesOf(arts)) && i < j < |arts| && f in arts[i].files
    ensures f !in arts[j].files
  {
    hide FilesOf;
    FilesOfPrefix(arts, j + 1);
    FilesOfAppend(arts, j);
    FilesOfPrefix(arts[..j], i + 1);
    assert arts[..j][..i + 1] == arts[..i + 1];
    FilesOfAppend(arts, i);
    var before, files := FilesOf(arts[..j]), arts[j].files;
    assert f in before by {
      var k :| 0 <= k < |arts[i].files| && arts[i].files[k] == f;
      assert before[|FilesOf(arts[..i])| + k] == f;
    }
    var m :| 0 <= m < |before| && before[m] == f;
    forall k | 0 <= k < |files| ensures files[k] != f {
      assert FilesOf(arts)[m] == f && FilesOf(arts)[|before| + k] == files[k];
    }
  }

  lemma FileListed(arts: seq<Artifact>, a: Artifact, f: string)
    requires a in arts && f in a.files
    ensures f in FilesOf(arts)
  {
    var i :| 0 <= i < |arts| && arts[i] == a;
    FilesOfAppend(arts, i);
    FilesOfPrefix(arts, i + 1);
    var k :| 0 <= k < |a.files| && a.files[k] == f;
    assert FilesOf(arts)[|FilesOf(arts[..i])| + k] == f;
  }

  lemma {:induction false} ListedFile(arts: seq<Artifact>, f: string) returns (a: Artifact)
    requires f in FilesOf(arts)
    ensures a in arts && f in a.files
  {
    var n := |arts| - 1;
    if f in arts[n].files {
      a := arts[n];
    } else {
      a := ListedFile(arts[..n], f);
    }
  }

  /** A package that the transaction leaves alone. */
  ghost predicate Untouched(db: Db, adds: seq<Artifact>, p2r: seq<Artifact>, fp: Atom) {
    fp in db.packages && fp !in Fingerprints(p2r) && fp !in Fingerprints(adds)
  }

  /** The check cannot miss a file: every file to install that an untouched package owns is on the target
      and is not claimed by a remove. */
  ghost predicate CheckSeesAll(db: Db, adds: seq<Artifact>, p2r: seq<Artifact>, onDisk: set<string>) {
    forall fp, f :: Untouched(db, adds, p2r, fp) && Owns(db, fp, f) && f in FilesOf(adds)
      ==> f in onDisk && !InRemoved(db, p2r, f)
  }

  lemma AddedOwner(db: Db, adds: seq<Artifact>, p2r: seq<Artifact>, db': Db, fp: Atom, f: string)
    requires Committed(db, adds, p2r, db') && Owns(db', fp, f)
    requires db.Valid()
    ensures if fp in Fingerprints(adds) then exists a :: a in adds && a.pkg.ToAtom() == fp && f in a.files
            else Untouched(db, adds, p2r, fp) && Owns(db, fp, f)
  {
    if fp in Fingerprints(adds) {
      var a :| a in adds && a.pkg.ToAtom() == fp;
      assert Holds(db', fp, a.pkg, a.files);
    } else {
      assert fp in db.packages && fp in db.files;
    }
  }

  /** After a transaction that has passed the system check, the registered packages own pairwise disjoint
      files if and only if the check could see every file that matters. */
  lemma DisjointAfterCheck(db: Db, adds: seq<Artifact>, p2r: seq<Artifact>, db': Db, onDisk: set<string>)
    requires db.Valid() && DisjointFiles(db) && Committed(db, adds, p2r, db')
    requires NoRepeats(FilesOf(adds)) && NoSystemConflict(db, p2r, onDisk, FilesOf(adds))
    ensures DisjointFiles(db') <==> CheckSeesAll(db, adds, p2r, onDisk)
  {
    if CheckSeesAll(db, adds, p2r, onDisk) {
      forall fp, fq, f | Owns(db', fp, f) && Owns(db', fq, f) ensures fp == fq {
        OneOwner(db, adds, p2r, db', onDisk, fp, fq, f);
      }
    }
    if !CheckSeesAll(db, adds, p2r, onDisk) {
      var fp, f :| Untouched(db, adds, p2r, fp) && Owns(db, fp, f) && f in FilesOf(adds)
                && !(f in onDisk && !InRemoved(db, p2r, f));
      TwoOwners(db, adds, p2r, db', fp, f);
    }
  }

  /** A file to install that an untouched package owns has two owners afterwards. */
  lemma TwoOwners(db: Db, adds: seq<Artifact>, p2r: seq<Artifact>, db': Db, fp: Atom, f: string)
    requires db.Valid() && Committed(db, adds, p2r, db')
    requires Untouched(db, adds, p2r, fp) && Owns(db, fp, f) && f in FilesOf(adds)
    ensures exists fq :: fq != fp && Owns(db', fp, f) && Owns(db', fq, f)
  {
    var a := ListedFile(adds, f);
    assert Holds(db', fp, db.packages[fp], db.files[fp]) && Holds(db', a.pkg.ToAtom(), a.pkg, a.files);
    assert a.pkg.ToAtom() in Fingerprints(adds);
    assert Owns(db', fp, f) && Owns(db', a.pkg.ToAtom(), f);
  }

  lemma OneOwner(db: Db, adds: seq<Artifact>, p2r: seq<Artifact>, db': Db, onDisk: set<string>, fp: Atom, fq: Atom,
                 f: string)
    requires db.Valid() && DisjointFiles(db) && Committed(db, adds, p2r, db')
    requires NoRepeats(FilesOf(adds)) && NoSystemConflict(db, p2r, onDisk, FilesOf(adds))
    requires CheckSeesAll(db, adds, p2r, onDisk) && Owns(db', fp, f) && Owns(db', fq, f)
    ensures fp == fq
  {
    AddedOwner(db, adds, p2r, db', fp, f);
    AddedOwner(db, adds, p2r, db', fq, f);
    hide Committed, NoSystemConflict, CheckSeesAll, NoRepeats, FilesOf, Untouched;
    if fp in Fingerprints(adds) && fq in Fingerprints(adds) {
      AddedOnce(adds, fp, fq, f);
    } else if fp in Fingerprints(adds) {
      UntouchedOwner(db, adds, p2r, onDisk, fp, fq, f);
    } else if fq in Fingerprints(adds) {
      UntouchedOwner(db, adds, p2r, onDisk, fq, fp, f);
    }
  }

  /** A file that is installed once has one owner among the additions. */
  lemma AddedOnce(adds: seq<Artifact>, fp: Atom, fq: Atom, f: string)
    requires NoRepeats(FilesOf(adds))
    requires exists a :: a in adds && a.pkg.ToAtom() == fp && f in a.files
    requires exists a :: a in adds && a.pkg.ToAtom() == fq && f in a.files
    ensures fp == fq
  {
    var a :| a in adds && a.pkg.ToAtom() == fp && f in a.files;
    var b :| b in adds && b.pkg.ToAtom() == fq && f in b.files;
    var i :| 0 <= i < |adds| && adds[i] == a;
    var j :| 0 <= j < |adds| && adds[j] == b;
    if i < j {
      DistinctOwnersOf(adds, i, j, f);
    } else if j < i {
      DistinctOwnersOf(adds, j, i, f);
    }
  }

  lemma UntouchedOwner(db: Db, adds: seq<Artifact>, p2r: seq<Artifact>, onDisk: set<string>, fp: Atom, fq: Atom,
                       f: string)
    requires NoSystemConflict(db, p2r, onDisk, FilesOf(adds)) && CheckSeesAll(db, adds, p2r, onDisk)
    requires exists a :: a in adds && a.pkg.ToAtom() == fp && f in a.files
    ensures !(Untouched(db, adds, p2r, fq) && Owns(db, fq, f))
  {
    var a :| a in adds && a.pkg.ToAtom() == fp && f in a.files;
    FileListed(adds, a, f);
    if Untouched(db, adds, p2r, fq) && Owns(db, fq, f) {
      assert SystemConflict(db, p2r, onDisk, f);
    }
  }

  // ---------- when the check passes ----------

  /** A remove accounts for the files of its own list or, if it brings none, for those recorded for the package. */
  lemma InRemovedMeaning(db: Db, toRemove: seq<Artifact>, f: string)
    ensures InRemoved(db, toRemove, f) <==>
              exists a :: a in toRemove &&
                (f in a.files || (a.files == [] && a.pkg.ToAtom() in db.files && f in db.files[a.pkg.ToAtom()]))
  {
    forall a | a in toRemove
      ensures f in RemovedFilesOf(db, a) <==>
              f in a.files || (a.files == [] && a.pkg.ToAtom() in db.files && f in db.files[a.pkg.ToAtom()])
    {
    }
  }

  ghost predicate SameFile(arts: seq<Artifact>, i: int, k: int, j: int, l: int) {
    && 0 <= i < |arts| && 0 <= k < |arts[i].files| && 0 <= j < |arts| && 0 <= l < |arts[j].files|
    && arts[i].files[k] == arts[j].files[l]
  }

  /** No file is listed twice, by one artefact or by two. */
  ghost predicate EachFileOnce(arts: seq<Artifact>) {
    forall i, j, k, l :: SameFile(arts, i, k, j, l) ==> i == j && k == l
  }

  /** The file stands at a place of its own among all files. */
  lemma {:induction false} FilePlace(arts: seq<Artifact>, i: nat, k: nat)
    requires i < |arts| && k < |arts[i].files|
    ensures |FilesOf(arts[..i])| + k < |FilesOf(arts)| && FilesOf(arts)[|FilesOf(arts[..i])| + k] == arts[i].files[k]
  {
    FilesOfAppend(arts, i);
    FilesOfPrefix(arts, i + 1);
  }

  lemma {:induction false} FileAt(arts: seq<Artifact>, x: nat) returns (i: nat, k: nat)
    requires x < |FilesOf(arts)|
    ensures i < |arts| && k < |arts[i].files| && x == |FilesOf(arts[..i])| + k
    decreases |arts|
  {
    var n := |arts| - 1;
    if x < |FilesOf(arts[..n])| {
      i, k := FileAt(arts[..n], x);
      assert arts[..n][..i] == arts[..i];
    } else {
      i, k := n, x - |FilesOf(arts[..n])|;
    }
  }

  lemma PlacesGrow(arts: seq<Artifact>, i: nat, j: nat)
    requires i < j <= |arts|
    ensures |FilesOf(arts[..i])| + |arts[i].files| <= |FilesOf(arts[..j])|
  {
    FilesOfAppend(arts, i);
    FilesOfPrefix(arts[..j], i + 1);
    assert arts[..j][..i + 1] == arts[..i + 1];
  }

  lemma FilesOnce(arts: seq<Artifact>)
    ensures NoRepeats(FilesOf(arts)) <==> EachFileOnce(arts)
  {
    var files := FilesOf(arts);
    if EachFileOnce(arts) {
      forall x, y | 0 <= x < y < |files| ensures files[x] != files[y] {
        var i, k := FileAt(arts, x);
        var j, l := FileAt(arts, y);
        FilePlace(arts, i, k);
        FilePlace(arts, j, l);
        assert files[x] == files[y] ==> SameFile(arts, i, k, j, l);
      }
    }
    if NoRepeats(files) {
      forall i, j, k, l | SameFile(arts, i, k, j, l) ensures i == j && k == l {
        SamePlace(arts, i, j, k, l);
      }
    }
  }

  lemma SamePlace(arts: seq<Artifact>, i: nat, j: nat, k: nat, l: nat)
    requires NoRepeats(FilesOf(arts)) && i < |arts| && j < |arts| && k < |arts[i].files| && l < |arts[j].files|
    requires arts[i].files[k] == arts[j].files[l]
    ensures i == j && k == l
  {
    hide FilesOf;
    FilePlace(arts, i, k);
    FilePlace(arts, j, l);
    assert |FilesOf(arts[..i])| + k == |FilesOf(arts[..j])| + l;
    if i < j {
      PlacesGrow(arts, i, j);
    } else if j < i {
      PlacesGrow(arts, j, i);
    }
  }

  /** The artefacts to remove bring no file list, or the recorded one. */
  ghost predicate FullRemoves(db: Db, p2r: seq<Artifact>) {
    forall a :: a in p2r ==> a.files == [] || forall f :: f in a.files <==> Owns(db, a.pkg.ToAtom(), f)
  }

  /** A file to install is on the target and owned by a package that is not removed. */
  ghost predicate Clashes(db: Db, adds: seq<Artifact>, p2r: seq<Artifact>, onDisk: set<string>) {
    exists a, f, fp :: a in adds && f in a.files && f in onDisk && Owns(db, fp, f)
                       && forall r :: r in p2r ==> r.pkg.ToAtom() != fp
  }

  /** When the check passes: no file is installed twice, and none that is on the target belongs to a package that is
      not removed. */
  lemma PassesExactly(db: Db, adds: seq<Artifact>, p2r: seq<Artifact>, onDisk: set<string>)
    requires db.Valid() && DisjointFiles(db) && FullRemoves(db, p2r)
    ensures CheckedFiles(db, p2r, true, false, onDisk, FilesOf(adds)) <==>
              EachFileOnce(adds) && !Clashes(db, adds, p2r, onDisk)
  {
    hide FilesOf, NoRepeats, EachFileOnce, InRemoved, DisjointFiles, FullRemoves;
    FilesOnce(adds);
    if Clashes(db, adds, p2r, onDisk) {
      var a, f, fp :| a in adds && f in a.files && f in onDisk && Owns(db, fp, f)
                   && forall r :: r in p2r ==> r.pkg.ToAtom() != fp;
      FileListed(adds, a, f);
      RemovedExactly(db, p2r, fp, f);
      assert SystemConflict(db, p2r, onDisk, f);
    } else {
      forall f | f in FilesOf(adds) ensures !SystemConflict(db, p2r, onDisk, f) {
        var a := ListedFile(adds, f);
        if f in onDisk && Owned(db, f) {
          var fp :| Owns(db, fp, f);
          assert exists r :: r in p2r && r.pkg.ToAtom() == fp;
          RemovedExactly(db, p2r, fp, f);
        }
      }
    }
  }

  /** A file that a package owns counts as removed if and only if the package is removed. */
  lemma RemovedExactly(db: Db, p2r: seq<Artifact>, fp: Atom, f: string)
    requires db.Valid() && DisjointFiles(db) && FullRemoves(db, p2r) && Owns(db, fp, f)
    ensures InRemoved(db, p2r, f) <==> exists r :: r in p2r && r.pkg.ToAtom() == fp
  {
    InRemovedMeaning(db, p2r, f);
    forall a | a in p2r
               && (f in a.files || (a.files == [] && a.pkg.ToAtom() in db.files && f in db.files[a.pkg.ToAtom()]))
      ensures a.pkg.ToAtom() == fp
    {
      assert Owns(db, a.pkg.ToAtom(), f);
    }
    forall r | r in p2r && r.pkg.ToAtom() == fp
      ensures f in r.files || (r.files == [] && r.pkg.ToAtom() in db.files && f in db.files[r.pkg.ToAtom()])
    {
    }
  }

  /** A file that is owned but not on the target passes the check, and has two owners afterwards. */
  lemma MissedFileExample()
    ensures exists db: Db, adds: seq<Artifact>, onDisk: set<string> ::
              && db.Valid() && db.OneVersion() && DisjointFiles(db) && Transaction(db, adds, [])
              && CheckedFiles(db, [], true, false, onDisk, FilesOf(adds))
              && forall db' :: Committed(db, adds, [], db') ==> !DisjointFiles(db')
  {
    var a, b := Package("a", "1", [], [], []), Package("b", "1", [], [], []);
    var db := Db(map[a.ToAtom() := a], map[a.ToAtom() := ["f"]]);
    var adds: seq<Artifact>, onDisk: set<string> := [Artifact(b, ["f"])], {};
    OneArtifactFiles(adds[0]);
    assert db.Valid() && db.OneVersion() && DisjointFiles(db);
    assert Transaction(db, adds, []);
    assert CheckedFiles(db, [], true, false, onDisk, FilesOf(adds));
    assert Owns(db, a.ToAtom(), "f") && "f" in FilesOf(adds);
    forall db' | Committed(db, adds, [], db') ensures !DisjointFiles(db') {
      TwoOwners(db, adds, [], db', a.ToAtom(), "f");
    }
  }

  lemma OneArtifactFiles(a: Artifact)
    ensures FilesOf([a]) == a.files
  {
    assert [a][..0] == [] && FilesOf([]) == [];
  }

  /** All owned files are on the target. */
  ghost predicate FilesPresent(db: Db, onDisk: set<string>) {
    forall f :: Owned(db, f) ==> f in onDisk
  }

  /** The artefacts to remove bring no file list of their own, or one that the package owns. */
  ghost predicate HonestRemoves(db: Db, p2r: seq<Artifact>) {
    forall a, f :: a in p2r && f in a.files ==> Owns(db, a.pkg.ToAtom(), f)
  }

  lemma PresentFilesAreSeen(db: Db, adds: seq<Artifact>, p2r: seq<Artifact>, onDisk: set<string>)
    requires db.Valid() && DisjointFiles(db) && FilesPresent(db, onDisk) && HonestRemoves(db, p2r)
    requires forall a :: a in p2r ==> a.pkg.ToAtom() in db.packages
    ensures CheckSeesAll(db, adds, p2r, onDisk)
  {
    forall fp, f | Untouched(db, adds, p2r, fp) && Owns(db, fp, f) && f in FilesOf(adds)
      ensures f in onDisk && !InRemoved(db, p2r, f)
    {
      if InRemoved(db, p2r, f) {
        RemovedFileOwner(db, p2r, fp, f);
      }
    }
  }

  /** The owner of a file that counts as removed is removed. */
  lemma RemovedFileOwner(db: Db, p2r: seq<Artifact>, fp: Atom, f: string)
    requires db.Valid() && DisjointFiles(db) && HonestRemoves(db, p2r)
    requires forall a :: a in p2r ==> a.pkg.ToAtom() in db.packages
    requires InRemoved(db, p2r, f) && Owns(db, fp, f)
    ensures fp in Fingerprints(p2r)
  {
    var a :| a in p2r && f in RemovedFilesOf(db, a);
    assert Owns(db, a.pkg.ToAtom(), f);
  }
}
