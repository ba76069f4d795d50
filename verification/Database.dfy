/** The package database as the installer sees it, and the run of a list of operations against it. */
module Database {
  import opened Packages
  import opened Planner

  /** Registered packages and their files, by fingerprint. */
  datatype Db = Db(packages: map<Atom, Package>, files: map<Atom, seq<string>>) {

    ghost predicate Valid() {
      && packages.Keys == files.Keys
      && forall fp :: fp in packages ==> packages[fp].ToAtom() == fp
    }

    /** At most one version per name. */
    ghost predicate OneVersion() {
      forall fp, fq :: fp in packages && fq in packages && fp.name == fq.name ==> fp == fq
    }

    ghost predicate Installed(name: string) {
      exists fp :: fp in packages && fp.name == name
    }

    function GetPackageFiles(fp: Atom): seq<string> {
      if fp in files then files[fp] else []
    }

    /** File records are unique: registering a package that has one already fails or, with force, leaves
        that record as it is. */
    function Register(a: Artifact, force: bool): (Db, bool) {
      var fp := a.pkg.ToAtom();
      if fp !in files then (Db(packages[fp := a.pkg], files[fp := a.files]), true)
      else if force then (this.(packages := packages[fp := a.pkg]), true)
      else (this, false)
    }

    /** Without force a remove stops at the first record it does not find; with force it goes on. */
    function Remove(fp: Atom, force: bool): (Db, bool) {
      if !force && fp !in files then (this, false)
      else if !force && fp !in packages then (this.(files := files - {fp}), false)
      else (Db(packages - {fp}, files - {fp}), true)
    }

    function Execute(op: Operation, force: bool): (Db, bool) {
      if op.Removes() then Remove(op.art.pkg.ToAtom(), force) else Register(op.art, force)
    }

    /** Execute the operations in order.  A failing addition is noted, a failing remove ends the run. */
    function Run(ops: seq<Operation>, force: bool): (Db, RunStatus) {
      if ops == [] then (this, Succeeded)
      else
        var (db, status) := Run(ops[..|ops| - 1], force);
        if status == Stopped then (db, Stopped)
        else
          var (db', ok) := db.Execute(ops[|ops| - 1], force);
          (db', if ok then status else if ops[|ops| - 1].Removes() then Stopped else Failing)
    }
  }

  datatype RunStatus = Succeeded | Failing | Stopped

  /** What a remove does: it fails on a missing record, though the file record is gone if only the other one is
      missing; with force it removes what there is. */
  ghost predicate Removes(db: Db, fp: Atom, force: bool, db': Db, ok: bool) {
    && (ok <==> force || (fp in db.files && fp in db.packages))
    && db'.files == (if force || fp in db.files then db.files - {fp} else db.files)
    && db'.packages == if ok then db.packages - {fp} else db.packages
  }

  /** What a registration does: it fails on a file record that exists; with force this record stays as it is. */
  ghost predicate Registers(db: Db, a: Artifact, force: bool, db': Db, ok: bool) {
    var fp := Atom(a.pkg.name, a.pkg.version);
    && (ok <==> force || fp !in db.files)
    && db'.files == (if fp in db.files then db.files else db.files[fp := a.files])
    && db'.packages == if ok then db.packages[fp := a.pkg] else db.packages
  }

  /** One operation, a remove or a registration. */
  ghost predicate Performed(db: Db, op: Operation, force: bool, db': Db, ok: bool) {
    if op.action == RemovePackage then Removes(db, Atom(op.art.pkg.name, op.art.pkg.version), force, db', ok)
    else Registers(db, op.art, force, db', ok)
  }


  /** A run through these databases: one for each operation up to the first remove that fails, which stops the run; a
      registration that fails only tells the status. */
  ghost predicate Ran(db: Db, ops: seq<Operation>, force: bool, dbs: seq<Db>, status: RunStatus) {
    && 0 < |dbs| <= |ops| + 1 && dbs[0] == db
    && (forall i :: 0 <= i < |dbs| - 1 ==> Took(ops, force, dbs, i))
    && (forall i :: 0 <= i < |dbs| - 1 && FailsAt(ops, force, dbs, i) && ops[i].action == RemovePackage ==>
          status == Stopped && i == |dbs| - 2)
    && (status == Stopped ==> |dbs| > 1 && FailsAt(ops, force, dbs, |dbs| - 2) &&
                              ops[|dbs| - 2].action == RemovePackage)
    && (status != Stopped ==>
          && |dbs| == |ops| + 1
          && (status == Failing <==> exists i :: 0 <= i < |ops| && FailsAt(ops, force, dbs, i)))
  }

  ghost predicate Took(ops: seq<Operation>, force: bool, dbs: seq<Db>, i: nat)
    requires i < |dbs| - 1 <= |ops|
  {
    || Performed(dbs[i], ops[i], force, dbs[i + 1], true)
    || Performed(dbs[i], ops[i], force, dbs[i + 1], false)
  }

  ghost predicate FailsAt(ops: seq<Operation>, force: bool, dbs: seq<Db>, i: nat)
    requires i < |dbs| - 1 <= |ops|
  {
    Performed(dbs[i], ops[i], force, dbs[i + 1], false)
  }

  lemma ExecutePerforms(db: Db, op: Operation, force: bool)
    ensures Performed(db, op, force, db.Execute(op, force).0, db.Execute(op, force).1)
    ensures !Performed(db, op, force, db.Execute(op, force).0, !db.Execute(op, force).1)
  {
  }

  /** The run of the operations is such a run. */
  lemma {:induction false} RunIsRan(db: Db, ops: seq<Operation>, force: bool) returns (dbs: seq<Db>)
    ensures Ran(db, ops, force, dbs, db.Run(ops, force).1) && db.Run(ops, force).0 == dbs[|dbs| - 1]
  {
    if ops == [] {
      dbs := [db];
    } else {
      hide Db.Execute, Performed;
      var n := |ops| - 1;
      dbs := RunIsRan(db, ops[..n], force);
      var status := db.Run(ops[..n], force).1;
      if status == Stopped {
        StoppedBefore(db, ops, force, dbs);
      } else {
        var (db', ok) := dbs[n].Execute(ops[n], force);
        ExecutePerforms(dbs[n], ops[n], force);
        NextRan(db, ops, force, dbs, status, db', ok);
        dbs := dbs + [db'];
      }
    }
  }

  lemma StoppedBefore(db: Db, ops: seq<Operation>, force: bool, dbs: seq<Db>)
    requires ops != [] && Ran(db, ops[..|ops| - 1], force, dbs, Stopped)
    ensures Ran(db, ops, force, dbs, Stopped)
  {
    hide Performed;
    var init := ops[..|ops| - 1];
    forall i: nat | i < |dbs| - 1
      ensures Took(ops, force, dbs, i) && (FailsAt(ops, force, dbs, i) <==> FailsAt(init, force, dbs, i))
    {
      assert Took(init, force, dbs, i) && init[i] == ops[i];
    }
  }

  lemma NextRan(db: Db, ops: seq<Operation>, force: bool, dbs: seq<Db>, status: RunStatus, db': Db, ok: bool)
    requires ops != [] && Ran(db, ops[..|ops| - 1], force, dbs, status) && status != Stopped
    requires Performed(dbs[|ops| - 1], ops[|ops| - 1], force, db', ok)
    requires !Performed(dbs[|ops| - 1], ops[|ops| - 1], force, db', !ok)
    ensures Ran(db, ops, force, dbs + [db'],
                if ok then status else if ops[|ops| - 1].action == RemovePackage then Stopped else Failing)
  {
    hide Performed;
    var n, init, dbs' := |ops| - 1, ops[..|ops| - 1], dbs + [db'];
    forall i: nat | i < n
      ensures Took(ops, force, dbs', i) && (FailsAt(ops, force, dbs', i) <==> FailsAt(init, force, dbs, i))
    {
      assert Took(init, force, dbs, i) && init[i] == ops[i] && dbs'[i] == dbs[i] && dbs'[i + 1] == dbs[i + 1];
    }
    assert dbs'[n] == dbs[n] && dbs'[n + 1] == db';
    assert Took(ops, force, dbs', n) && (FailsAt(ops, force, dbs', n) <==> !ok);
  }

  ghost function Fingerprints(arts: seq<Artifact>): set<Atom> {
    set a | a in arts :: a.pkg.ToAtom()
  }

  /** A transaction that the database can take: what is removed is installed, what is added and
      installed in some version is also removed. */
  ghost predicate Applicable(db: Db, ops: seq<Operation>) {
    && (forall op :: op in ops && op.Removes() ==> op.art.pkg.ToAtom() in db.packages)
    && (forall op :: op in ops && !op.Removes() && db.Installed(op.Name()) ==> RemovesName(ops, op.Name()))
  }

  /** Does one of the operations register, or remove, the fingerprint? */
  ghost predicate Adds(ops: seq<Operation>, fp: Atom) {
    exists op :: op in ops && !op.Removes() && op.art.pkg.ToAtom() == fp
  }

  ghost predicate Drops(ops: seq<Operation>, fp: Atom) {
    exists op :: op in ops && op.Removes() && op.art.pkg.ToAtom() == fp
  }

  /** The fingerprint is registered with this package and these files. */
  ghost predicate Holds(db: Db, fp: Atom, p: Package, files: seq<string>) {
    fp in db.packages && fp in db.files && db.packages[fp] == p && db.files[fp] == files
  }

  /** What the operations leave under one fingerprint: what they add, else what was there unless removed. */
  ghost predicate AfterAt(db: Db, ops: seq<Operation>, db': Db, fp: Atom) {
    && (fp in db'.packages <==> Adds(ops, fp) || (fp in db.packages && !Drops(ops, fp)))
    && (forall op :: op in ops && !op.Removes() && op.art.pkg.ToAtom() == fp ==>
          Holds(db', fp, op.art.pkg, op.art.files))
    && (fp in db.packages && fp in db.files && !Drops(ops, fp) && !Adds(ops, fp) ==>
          Holds(db', fp, db.packages[fp], db.files[fp]))
  }

  ghost predicate After(db: Db, ops: seq<Operation>, db': Db) {
    db'.Valid() && forall fp :: AfterAt(db, ops, db', fp)
  }

  lemma NextOperation(ops: seq<Operation>, j: nat, fp: Atom)
    requires j < |ops|
    ensures Adds(ops[..j + 1], fp) <==> Adds(ops[..j], fp) || (!ops[j].Removes() && ops[j].art.pkg.ToAtom() == fp)
    ensures Drops(ops[..j + 1], fp) <==> Drops(ops[..j], fp) || (ops[j].Removes() && ops[j].art.pkg.ToAtom() == fp)
    ensures forall op :: op in ops[..j + 1] <==> op in ops[..j] || op == ops[j]
  {
    assert ops[..j + 1] == ops[..j] + [ops[j]];
    assert forall op :: op in ops[..j + 1] <==> op in ops[..j] || op == ops[j];
  }

  /** Before a name's first operation nothing was done to it. */
  lemma FreshName(ops: seq<Operation>, j: nat)
    requires j < |ops| && RemoveThenAdd(ops)
    ensures forall op :: op in ops[..j] && op.Name() == ops[j].Name() ==> op.Removes() && !ops[j].Removes()
  {
    forall op | op in ops[..j] && op.Name() == ops[j].Name() ensures op.Removes() && !ops[j].Removes() {
      var i :| 0 <= i < j && ops[..j][i] == op;
      assert ops[i] == op;
    }
  }

  lemma RemoveRuns(db: Db, ops: seq<Operation>, j: nat, d: Db, force: bool)
    requires db.Valid() && Applicable(db, ops) && RemoveThenAdd(ops) && j < |ops| && After(db, ops[..j], d)
    requires ops[j].Removes()
    ensures d.Execute(ops[j], force).1 && After(db, ops[..j + 1], d.Execute(ops[j], force).0)
  {
    hide RemoveThenAdd;
    var op, fp0 := ops[j], ops[j].art.pkg.ToAtom();
    assert op in ops;
    FreshName(ops, j);
    assert AfterAt(db, ops[..j], d, fp0);
    assert !Drops(ops[..j], fp0) && !Adds(ops[..j], fp0);
    var d' := d.Execute(op, force).0;
    var ops' := ops[..j + 1];
    forall fp ensures AfterAt(db, ops', d', fp) {
      assert AfterAt(db, ops[..j], d, fp);
      NextOperation(ops, j, fp);
    }
  }

  /** An addition finds no record of its own fingerprint: the installed version, if any, was removed before. */
  lemma NotRegisteredYet(db: Db, ops: seq<Operation>, j: nat, d: Db)
    requires db.Valid() && db.OneVersion() && Applicable(db, ops) && RemoveThenAdd(ops) && j < |ops| &&
             After(db, ops[..j], d)
    requires !ops[j].Removes()
    ensures ops[j].art.pkg.ToAtom() !in d.packages
  {
    var fp0 := ops[j].art.pkg.ToAtom();
    assert ops[j] in ops && AfterAt(db, ops[..j], d, fp0);
    FreshName(ops, j);
    if fp0 in db.packages {
      assert db.Installed(ops[j].Name());
      assert RemovesName(ops, ops[j].Name());
      var rm :| rm in ops && rm.Removes() && rm.Name() == ops[j].Name();
      assert rm.art.pkg.ToAtom() in db.packages;
      var k :| 0 <= k < |ops| && ops[k] == rm;
      assert ops[..j][k] == rm;
      assert Drops(ops[..j], fp0);
    }
  }

  lemma AddRuns(db: Db, ops: seq<Operation>, j: nat, d: Db, force: bool)
    requires db.Valid() && Applicable(db, ops) && RemoveThenAdd(ops) && j < |ops| && After(db, ops[..j], d)
    requires !ops[j].Removes() && ops[j].art.pkg.ToAtom() !in d.packages
    ensures d.Execute(ops[j], force).1 && After(db, ops[..j + 1], d.Execute(ops[j], force).0)
  {
    hide RemoveThenAdd;
    var op, fp0 := ops[j], ops[j].art.pkg.ToAtom();
    FreshName(ops, j);
    var d' := d.Execute(op, force).0;
    var ops' := ops[..j + 1];
    forall fp ensures AfterAt(db, ops', d', fp) {
      assert AfterAt(db, ops[..j], d, fp);
      NextOperation(ops, j, fp);
    }
  }

  lemma {:induction false} PrefixRuns(db: Db, ops: seq<Operation>, j: nat, force: bool)
    requires db.Valid() && Applicable(db, ops) && RemoveThenAdd(ops) && j <= |ops|
    requires db.OneVersion() || forall op :: op in ops ==> op.Removes()
    ensures db.Run(ops[..j], force).1 == Succeeded && After(db, ops[..j], db.Run(ops[..j], force).0)
  {
    if j > 0 {
      PrefixRuns(db, ops, j - 1, force);
      assert ops[..j][..j - 1] == ops[..j - 1];
      if ops[j - 1].Removes() {
        RemoveRuns(db, ops, j - 1, db.Run(ops[..j - 1], force).0, force);
      } else {
        NotRegisteredYet(db, ops, j - 1, db.Run(ops[..j - 1], force).0);
        AddRuns(db, ops, j - 1, db.Run(ops[..j - 1], force).0, force);
      }
    }
  }

  /** At every step of an applicable plan there is at most one version per name. */
  lemma PrefixKeepsOneVersion(db: Db, ops: seq<Operation>, j: nat, d: Db)
    requires db.Valid() && db.OneVersion() && Applicable(db, ops) && RemoveThenAdd(ops) && j <= |ops|
    requires After(db, ops[..j], d)
    ensures d.OneVersion()
  {
    forall fp, fq | fp in d.packages && fq in d.packages && fp.name == fq.name ensures fp == fq {
      assert AfterAt(db, ops[..j], d, fp) && AfterAt(db, ops[..j], d, fq);
      if Adds(ops[..j], fp) {
        AddedIsOnly(db, ops, j, d, fp, fq);
      } else if Adds(ops[..j], fq) {
        AddedIsOnly(db, ops, j, d, fq, fp);
      }
    }
  }

  lemma AddedIsOnly(db: Db, ops: seq<Operation>, j: nat, d: Db, fp: Atom, fq: Atom)
    requires db.Valid() && db.OneVersion() && Applicable(db, ops) && RemoveThenAdd(ops) && j <= |ops|
    requires After(db, ops[..j], d) && Adds(ops[..j], fp) && fq in d.packages && fp.name == fq.name
    ensures fp == fq
  {
    assert AfterAt(db, ops[..j], d, fq);
    var i :| 0 <= i < j && !ops[..j][i].Removes() && ops[..j][i].art.pkg.ToAtom() == fp;
    assert ops[..j][i] == ops[i] && ops[i] in ops;
    if Adds(ops[..j], fq) {
      var k :| 0 <= k < j && !ops[..j][k].Removes() && ops[..j][k].art.pkg.ToAtom() == fq;
      assert ops[..j][k] == ops[k];
    } else {
      InstalledWasDropped(db, ops, i, j, fq);
    }
  }

  /** Once an addition of its name has run, an installed version has been removed. */
  lemma InstalledWasDropped(db: Db, ops: seq<Operation>, i: nat, j: nat, fq: Atom)
    requires db.OneVersion() && Applicable(db, ops) && RemoveThenAdd(ops) && i < j <= |ops|
    requires !ops[i].Removes() && fq in db.packages && fq.name == ops[i].Name()
    ensures Drops(ops[..j], fq)
  {
    assert ops[i] in ops && db.Installed(ops[i].Name());
    assert RemovesName(ops, ops[i].Name());
    var rm :| rm in ops && rm.Removes() && rm.Name() == ops[i].Name();
    var k :| 0 <= k < |ops| && ops[k] == rm;
    assert ops[..j][k] == rm;
    assert rm.art.pkg.ToAtom() in db.packages;
  }

  /** A transaction: no name is added twice; what is removed is installed; a name removed twice, or
      added over an installed version, is both removed and added. */
  ghost predicate Transaction(db: Db, adds: seq<Artifact>, p2r: seq<Artifact>) {
    && (forall i, j :: 0 <= i < j < |adds| ==> adds[i].pkg.name != adds[j].pkg.name)
    && (forall a :: a in p2r ==> a.pkg.ToAtom() in db.packages)
    && (forall i, j :: 0 <= i < j < |p2r| && p2r[i].pkg.name == p2r[j].pkg.name ==>
          p2r[i].pkg.name in ArtifactNames(adds))
    && (forall a :: a in adds && db.Installed(a.pkg.name) ==> a.pkg.name in ArtifactNames(p2r))
  }

  ghost predicate AddsArtifact(ops: seq<Operation>, a: Artifact) {
    exists op :: op in ops && op.art == a
  }

  /** The operations are the additions of the artefacts. */
  ghost predicate AdditionsOf(added: seq<Operation>, adds: seq<Artifact>) {
    && DistinctNames(added)
    && (forall op :: op in added ==> !op.Removes() && op.art in adds)
    && (forall a :: a in adds ==> AddsArtifact(added, a))
  }

  lemma TransactionIsOrderable(db: Db, adds: seq<Artifact>, p2r: seq<Artifact>, added: seq<Operation>)
    requires Transaction(db, adds, p2r) && AdditionsOf(added, adds)
    ensures Orderable(added, p2r)
  {
    forall i, j | 0 <= i < j < |p2r| && p2r[i].pkg.name == p2r[j].pkg.name ensures HasName(added, p2r[i].pkg.name) {
      var a :| a in adds && a.pkg.name == p2r[i].pkg.name;
      assert AddsArtifact(added, a);
      var op :| op in added && op.art == a;
      var k :| 0 <= k < |added| && added[k] == op;
    }
  }

  lemma TransactionIsApplicable(db: Db, adds: seq<Artifact>, p2r: seq<Artifact>, added: seq<Operation>,
                                ops: seq<Operation>)
    requires Transaction(db, adds, p2r) && AdditionsOf(added, adds) && Performs(ops, added, p2r)
    ensures Applicable(db, ops)
  {
    hide RemovesName, AddsArtifact, Db.Installed;
    forall op | op in ops && !op.Removes() && db.Installed(op.Name()) ensures RemovesName(ops, op.Name()) {
      assert op in added;
      var r :| r in p2r && r.pkg.name == op.Name();
    }
  }

  /** The database after a transaction: what was removed is gone, what was added is there with its
      files, and everything else is as before. */
  ghost predicate Committed(db: Db, adds: seq<Artifact>, p2r: seq<Artifact>, db': Db) {
    && db'.Valid() && db'.OneVersion()
    && db'.packages.Keys == db.packages.Keys - Fingerprints(p2r) + Fingerprints(adds)
    && (forall a :: a in adds ==> Holds(db', a.pkg.ToAtom(), a.pkg, a.files))
    && (forall fp :: fp in db.packages && fp in db.files && fp !in Fingerprints(p2r) && fp !in Fingerprints(adds) ==>
          Holds(db', fp, db.packages[fp], db.files[fp]))
  }

  lemma DropsAreRemovals(db: Db, adds: seq<Artifact>, p2r: seq<Artifact>, added: seq<Operation>, ops: seq<Operation>,
                         fp: Atom)
    requires db.OneVersion() && Transaction(db, adds, p2r) && Performs(ops, added, p2r)
    ensures Drops(ops, fp) <==> fp in Fingerprints(p2r)
  {
    if fp in Fingerprints(p2r) {
      var a :| a in p2r && a.pkg.ToAtom() == fp;
      assert RemovesName(ops, a.pkg.name);
      var op :| op in ops && op.Removes() && op.Name() == a.pkg.name;
      assert op.art in p2r && op.art.pkg.ToAtom() in db.packages;
    }
    if Drops(ops, fp) {
      var op :| op in ops && op.Removes() && op.art.pkg.ToAtom() == fp;
      assert op.art in p2r;
    }
  }

  lemma AddsAreAdditions(adds: seq<Artifact>, p2r: seq<Artifact>, added: seq<Operation>, ops: seq<Operation>, fp: Atom)
    requires AdditionsOf(added, adds) && Performs(ops, added, p2r)
    ensures Adds(ops, fp) <==> fp in Fingerprints(adds)
  {
    if fp in Fingerprints(adds) {
      var a :| a in adds && a.pkg.ToAtom() == fp;
      assert AddsArtifact(added, a);
      var op :| op in added && op.art == a;
      assert op in ops && !op.Removes();
    }
  }

  lemma PlanCommits(db: Db, adds: seq<Artifact>, p2r: seq<Artifact>, added: seq<Operation>, ops: seq<Operation>,
                    db': Db)
    requires db.Valid() && db.OneVersion() && Transaction(db, adds, p2r) && AdditionsOf(added, adds)
    requires Performs(ops, added, p2r) && After(db, ops, db') && db'.OneVersion()
    ensures Committed(db, adds, p2r, db')
  {
    hide Transaction;
    forall fp
      ensures fp in db'.packages <==> fp in Fingerprints(adds) || (fp in db.packages && fp !in Fingerprints(p2r))
    {
      assert AfterAt(db, ops, db', fp);
      DropsAreRemovals(db, adds, p2r, added, ops, fp);
      AddsAreAdditions(adds, p2r, added, ops, fp);
    }
    forall a | a in adds ensures Holds(db', a.pkg.ToAtom(), a.pkg, a.files) {
      assert AfterAt(db, ops, db', a.pkg.ToAtom());
      assert AddsArtifact(added, a);
      var op :| op in added && op.art == a;
      assert op in ops && !op.Removes();
    }
    forall fp | fp in db.packages && fp in db.files && fp !in Fingerprints(p2r) && fp !in Fingerprints(adds)
      ensures Holds(db', fp, db.packages[fp], db.files[fp])
    {
      assert AfterAt(db, ops, db', fp);
      DropsAreRemovals(db, adds, p2r, added, ops, fp);
      AddsAreAdditions(adds, p2r, added, ops, fp);
    }
  }

  /** Running the plan of a transaction never fails, holds at most one version of each package at every
      step, and commits the transaction. */
  lemma PlanRuns(g: Gentoo, db: Db, adds: seq<Artifact>, p2r: seq<Artifact>, added: seq<Operation>, force: bool)
    requires db.Valid() && db.OneVersion() && Transaction(db, adds, p2r) && AdditionsOf(added, adds)
    ensures forall j :: 0 <= j <= |Plan(g, added, p2r)| ==>
              db.Run(Plan(g, added, p2r)[..j], force).1 == Succeeded &&
                db.Run(Plan(g, added, p2r)[..j], force).0.OneVersion()
    ensures db.Run(Plan(g, added, p2r), force).1 == Succeeded
    ensures Committed(db, adds, p2r, db.Run(Plan(g, added, p2r), force).0)
  {
    hide Plan, Db.Run, After, Transaction, Orderable, RemoveThenAdd, Performs, Applicable;
    var ops := Plan(g, added, p2r);
    TransactionIsOrderable(db, adds, p2r, added);
    PlanPerforms(g, added, p2r);
    TransactionIsApplicable(db, adds, p2r, added, ops);
    forall j | 0 <= j <= |ops|
      ensures db.Run(ops[..j], force).1 == Succeeded && After(db, ops[..j], db.Run(ops[..j], force).0)
      ensures db.Run(ops[..j], force).0.OneVersion()
    {
      PrefixRuns(db, ops, j, force);
      PrefixKeepsOneVersion(db, ops, j, db.Run(ops[..j], force).0);
    }
    assert ops[..|ops|] == ops;
    PlanCommits(db, adds, p2r, added, ops, db.Run(ops, force).0);
  }
}
