/** The in-memory package database with its version index, against the full scan of the Bolt database.
    Both are driven by the same history of creations and removals of packages without provides. */
module MemoryIndex {
  import opened Packages
  import opened Wrappers

  datatype Event = Created(pkg: Package) | Removed(fp: Atom) {
    predicate Creates(fp: Atom) {
      Created? && pkg.ToAtom() == fp
    }
  }

  predicate EverCreated(h: seq<Event>, fp: Atom) {
    exists i :: 0 <= i < |h| && h[i].Creates(fp)
  }

  /** Removed at some time after a creation. */
  predicate RemovedSince(h: seq<Event>, fp: Atom) {
    exists j :: 0 <= j < |h| && h[j] == Removed(fp) && EverCreated(h[..j], fp)
  }

  /** Created, and not removed since. */
  predicate Present(h: seq<Event>, fp: Atom) {
    exists i :: 0 <= i < |h| && h[i].Creates(fp) && Removed(fp) !in h[i..]
  }

  /** How many records of the package Bolt holds: every creation adds one, a remove takes one away. */
  function Records(h: seq<Event>, fp: Atom): nat {
    if h == [] then 0
    else
      var n, e := Records(h[..|h| - 1], fp), h[|h| - 1];
      if e.Creates(fp) then n + 1
      else if e == Removed(fp) && n > 0 then n - 1
      else n
  }

  /** What the version index holds: what was created once and never removed. */
  predicate Indexed(h: seq<Event>, fp: Atom) {
    EverCreated(h, fp) && !RemovedSince(h, fp)
  }

  /** A record that the index has lost: it was removed once, and Bolt still holds a record of it. */
  predicate Lost(h: seq<Event>, fp: Atom) {
    RemovedSince(h, fp) && Records(h, fp) > 0
  }

  lemma NextCreated(h: seq<Event>, e: Event, fp: Atom)
    ensures EverCreated(h + [e], fp) <==> EverCreated(h, fp) || e.Creates(fp)
  {
    var h' := h + [e];
    assert h'[|h|] == e;
    if EverCreated(h, fp) {
      var i :| 0 <= i < |h| && h[i].Creates(fp);
      assert h'[i] == h[i];
    }
  }

  lemma NextRemoved(h: seq<Event>, e: Event, fp: Atom)
    ensures RemovedSince(h + [e], fp) <==> RemovedSince(h, fp) || (e == Removed(fp) && EverCreated(h, fp))
  {
    hide EverCreated;
    var h' := h + [e];
    assert h'[|h|] == e && h'[..|h|] == h;
    if RemovedSince(h, fp) {
      var j :| 0 <= j < |h| && h[j] == Removed(fp) && EverCreated(h[..j], fp);
      assert h'[j] == h[j] && h'[..j] == h[..j];
    }
    if RemovedSince(h', fp) {
      var j :| 0 <= j < |h'| && h'[j] == Removed(fp) && EverCreated(h'[..j], fp);
      if j < |h| {
        assert h'[j] == h[j] && h'[..j] == h[..j];
      }
    }
  }

  lemma NextPresent(h: seq<Event>, e: Event, fp: Atom)
    ensures Present(h + [e], fp) <==> e.Creates(fp) || (Present(h, fp) && e != Removed(fp))
  {
    var h' := h + [e];
    if e.Creates(fp) {
      assert h'[|h|] == e && h'[|h|..] == [e];
    }
    if Present(h, fp) && e != Removed(fp) {
      var i :| 0 <= i < |h| && h[i].Creates(fp) && Removed(fp) !in h[i..];
      assert h'[i] == h[i] && h'[i..] == h[i..] + [e];
    }
    if Present(h', fp) && !e.Creates(fp) {
      var i :| 0 <= i < |h'| && h'[i].Creates(fp) && Removed(fp) !in h'[i..];
      assert h'[i] == h[i] && h'[i..] == h[i..] + [e];
      assert e in h'[i..];
    }
  }

  lemma NextRecords(h: seq<Event>, e: Event, fp: Atom)
    ensures Records(h + [e], fp) == if e.Creates(fp) then Records(h, fp) + 1
                                    else if e == Removed(fp) && Records(h, fp) > 0 then Records(h, fp) - 1
                                    else Records(h, fp)
  {
    assert (h + [e])[..|h|] == h;
  }

  /** What is indexed is present; what is present has a record; without a record it is not present. */
  lemma {:induction false} IndexedIsPresent(h: seq<Event>, fp: Atom)
    ensures Indexed(h, fp) ==> Present(h, fp)
    ensures Present(h, fp) ==> Records(h, fp) > 0
    ensures Records(h, fp) > 0 ==> EverCreated(h, fp)
  {
    hide EverCreated, RemovedSince, Present;
    if h == [] {
      Nothing(fp);
    } else {
      var init, e := h[..|h| - 1], h[|h| - 1];
      assert h == init + [e];
      IndexedIsPresent(init, fp);
      NextCreated(init, e, fp);
      NextRemoved(init, e, fp);
      NextPresent(init, e, fp);
      NextRecords(init, e, fp);
    }
  }

  lemma Nothing(fp: Atom)
    ensures !EverCreated([], fp) && !RemovedSince([], fp) && !Present([], fp)
  {
  }

  predicate IsSelector(fp: Atom) {
    exists c :: c in fp.version && c in ['<', '>', '=']
  }

  /** The version has a comparison sign in it. */
  ghost predicate Compares(version: string) {
    '<' in version || '>' in version || '=' in version
  }

  /** The package has the selector's name and a version that the selector accepts. */
  predicate Matches(accepts: (string, string) -> bool, sel: Atom, fp: Atom) {
    fp.name == sel.name && accepts(sel.version, fp.version)
  }

  datatype Failure = NotFound | NoVersions | CacheMismatch

  datatype Answer = Found(packages: seq<Package>) | Error(failure: Failure)

  ghost function PackagesOf(r: Answer): set<Package> {
    if r.Found? then set p | p in r.packages else {}
  }

  ghost function AtomsOf(ps: set<Package>): set<Atom> {
    set p | p in ps :: p.ToAtom()
  }

  /** The index of versions by name. */
  ghost predicate HasVersion(versions: map<string, set<string>>, fp: Atom) {
    fp.name in versions && fp.version in versions[fp.name]
  }

  /** The fields of the in-memory database after a history, for one fingerprint. */
  ghost predicate Reflects(h: seq<Event>, database: map<Atom, Package>, versions: map<string, set<string>>,
                           cached: set<Atom>, fp: Atom) {
    && (fp in database <==> Present(h, fp))
    && (fp in database ==> database[fp].ToAtom() == fp && Created(database[fp]) in h)
    && (fp in cached <==> EverCreated(h, fp))
    && (HasVersion(versions, fp) <==> Indexed(h, fp))
    && (EverCreated(h, fp) ==> fp.name in versions)
  }

  lemma ReflectsCreated(h: seq<Event>, d: map<Atom, Package>, v: map<string, set<string>>, c: set<Atom>, p: Package,
                        v': map<string, set<string>>, fp: Atom)
    requires Reflects(h, d, v, c, fp)
    requires if p.ToAtom() in c then v' == v
             else v' == v[p.name := (if p.name in v then v[p.name] else {}) + {p.version}]
    requires Reflects(h, d, v, c, p.ToAtom())
    ensures Reflects(h + [Created(p)], d[p.ToAtom() := p], v', c + {p.ToAtom()}, fp)
  {
    hide EverCreated, RemovedSince, Present;
    var e := Created(p);
    NextCreated(h, e, fp);
    NextRemoved(h, e, fp);
    NextPresent(h, e, fp);
    RemovedWasCreated(h, fp);
  }

  lemma RemovedWasCreated(h: seq<Event>, fp: Atom)
    ensures RemovedSince(h, fp) ==> EverCreated(h, fp)
  {
    if RemovedSince(h, fp) {
      var j :| 0 <= j < |h| && h[j] == Removed(fp) && EverCreated(h[..j], fp);
      var i :| 0 <= i < j && h[..j][i].Creates(fp);
      assert h[i].Creates(fp);
    }
  }

  lemma ReflectsRemoved(h: seq<Event>, d: map<Atom, Package>, v: map<string, set<string>>, c: set<Atom>, gone: Atom,
                        v': map<string, set<string>>, fp: Atom)
    requires Reflects(h, d, v, c, fp)
    requires v' == if gone.name in v then v[gone.name := v[gone.name] - {gone.version}] else v
    ensures Reflects(h + [Removed(gone)], d - {gone}, v', c, fp)
  {
    hide EverCreated, RemovedSince, Present;
    var e := Removed(gone);
    NextCreated(h, e, fp);
    NextRemoved(h, e, fp);
    NextPresent(h, e, fp);
  }

  ghost predicate NameEverCreated(h: seq<Event>, name: string) {
    exists p :: Created(p) in h && p.name == name
  }

  /** Where a selector is looked up. */
  datatype Source = Index | Scan

  predicate Holds(source: Source, h: seq<Event>, fp: Atom) {
    match source
    case Index => Indexed(h, fp)
    case Scan => Records(h, fp) > 0
  }

  /** r holds packages created in the history, those that match the selector and that the source holds. */
  ghost predicate Selects(source: Source, h: seq<Event>, accepts: (string, string) -> bool, sel: Atom, r: Answer) {
    && (forall p :: p in PackagesOf(r) ==> Created(p) in h)
    && forall fp :: fp in AtomsOf(PackagesOf(r)) <==>
         fp.name == sel.name && accepts(sel.version, fp.version) && Holds(source, h, fp)
  }

  class InMemoryDatabase {
    var database: map<Atom, Package>
    var cacheNoVersion: map<string, set<string>>
    var cached: set<Atom>
    ghost var history: seq<Event>

    ghost predicate Valid()
      reads this
    {
      && (forall fp :: Reflects(history, database, cacheNoVersion, cached, fp))
      && forall n: string :: n in cacheNoVersion <==> NameEverCreated(history, n)
    }

    constructor ()
      ensures Valid() && history == []
    {
      database, cacheNoVersion, cached, history := map[], map[], {}, [];
    }

    method CreatePackage(p: Package)
      requires Valid() && p.provs == []
      modifies this
      ensures Valid() && history == old(history) + [Created(p)]
    {
      hide Reflects;
      ghost var h, d, v, c := history, database, cacheNoVersion, cached;
      assert forall fp: Atom :: Reflects(h, d, v, c, fp);
      assert p.ToAtom() in c ==> p.name in v by {
        CachedHasName(h, d, v, c, p.ToAtom());
      }
      database := database[p.ToAtom() := p];
      PopulateCaches(p);
      history := history + [Created(p)];
      forall fp ensures Reflects(history, database, cacheNoVersion, cached, fp) {
        assert Reflects(h, d, v, c, fp) && Reflects(h, d, v, c, p.ToAtom());
        ReflectsCreated(h, d, v, c, p, cacheNoVersion, fp);
      }
      NamesAfterCreate(h, v, c, p, cacheNoVersion);
    }

    method PopulateCaches(p: Package)
      modifies this`cacheNoVersion, this`cached
      ensures cached == old(cached) + {p.ToAtom()}
      ensures cacheNoVersion ==
              if p.ToAtom() in old(cached) then old(cacheNoVersion)
              else old(cacheNoVersion)[
                p.name := (if p.name in old(cacheNoVersion) then old(cacheNoVersion)[p.name] else {}) + {p.version}]
    {
      if p.ToAtom() in cached {
        return;
      }
      cached := cached + {p.ToAtom()};
      if p.name !in cacheNoVersion {
        cacheNoVersion := cacheNoVersion[p.name := {}];
      }
      cacheNoVersion := cacheNoVersion[p.name := cacheNoVersion[p.name] + {p.version}];
    }

    method RemovePackage(fp: Atom)
      requires Valid()
      modifies this
      ensures Valid() && history == old(history) + [Removed(fp)]
    {
      hide Reflects;
      ghost var v := cacheNoVersion;
      if fp.name in cacheNoVersion {
        cacheNoVersion := cacheNoVersion[fp.name := cacheNoVersion[fp.name] - {fp.version}];
      }
      database := database - {fp};
      history := history + [Removed(fp)];
      forall fq ensures Reflects(history, database, cacheNoVersion, cached, fq) {
        ReflectsRemoved(old(history), old(database), v, cached, fp, cacheNoVersion, fq);
      }
      forall p ensures Created(p) in history <==> Created(p) in old(history) {
      }
    }

    method FindPackage(fp: Atom) returns (p: Option<Package>)
      requires Valid()
      ensures p.Some? <==> Present(history, fp)
      ensures p.Some? ==> p.value.ToAtom() == fp && Created(p.value) in history
    {
      hide EverCreated, RemovedSince, Present;
      assert Reflects(history, database, cacheNoVersion, cached, fp);
      if fp in database {
        p := Some(database[fp]);
      } else {
        p := None;
      }
    }

    /** A selector finds what the index holds.  The error of a version in the index without a package
        never happens. */
    method FindPackages(accepts: (string, string) -> bool, sel: Atom) returns (r: Answer)
      requires Valid()
      ensures !Compares(sel.version) ==> r.Found? == Present(history, sel)
      ensures !Compares(sel.version) && r.Found? ==>
                |r.packages| == 1 && r.packages[0].ToAtom() == sel && Created(r.packages[0]) in history
      ensures Compares(sel.version) ==> Selects(Index, history, accepts, sel, r)
      ensures Compares(sel.version) ==> r.Found? == NameEverCreated(history, sel.name)
      ensures r != Error(CacheMismatch)
    {
      hide Reflects, EverCreated, RemovedSince, Present;
      if !IsSelector(sel) {
        var p := FindPackage(sel);
        return if p.Some? then Found([p.value]) else Error(NotFound);
      }
      if sel.name !in cacheNoVersion {
        forall fp: Atom | fp.name == sel.name ensures !Indexed(history, fp) {
          InIndex(history, database, cacheNoVersion, cached, fp);
        }
        assert AtomsOf(PackagesOf(Error(NoVersions))) == {};
        return Error(NoVersions);
      }
      var versions := cacheNoVersion[sel.name];
      var found: seq<Package> := [];
      ghost var done: set<string> := {};
      while versions != {}
        invariant done + versions == cacheNoVersion[sel.name] && done !! versions
        invariant forall p :: p in found ==> Created(p) in history
        invariant IndexScanned(accepts, sel, done, found)
        decreases versions
      {
        var v :| v in versions;
        versions := versions - {v};
        if accepts(sel.version, v) {
          InIndex(history, database, cacheNoVersion, cached, Atom(sel.name, v));
          var w := FindPackage(Atom(sel.name, v));
          if w.None? {
            assert false;
          }
          ScannedMatch(accepts, sel, done, found, v, w.value);
          found := found + [w.value];
        }
        done := done + {v};
      }
      r := Found(found);
      forall fp ensures fp in AtomsOf(PackagesOf(r)) <==> Matches(accepts, sel, fp) && Indexed(history, fp) {
        InIndex(history, database, cacheNoVersion, cached, fp);
      }
    }
  }

  /** The packages found are those of the versions seen so far that match. */
  ghost predicate IndexScanned(accepts: (string, string) -> bool, sel: Atom, done: set<string>, found: seq<Package>) {
    forall fp :: fp in AtomsOf(set p | p in found) <==> Matches(accepts, sel, fp) && fp.version in done
  }

  lemma ScannedMatch(accepts: (string, string) -> bool, sel: Atom, done: set<string>, found: seq<Package>, v: string,
                     w: Package)
    requires IndexScanned(accepts, sel, done, found) && accepts(sel.version, v) && w.ToAtom() == Atom(sel.name, v)
    ensures IndexScanned(accepts, sel, done + {v}, found + [w])
  {
    assert (set p | p in found + [w]) == (set p | p in found) + {w};
    assert AtomsOf(set p | p in found + [w]) == AtomsOf(set p | p in found) + {w.ToAtom()};
  }

  lemma InIndex(h: seq<Event>, d: map<Atom, Package>, v: map<string, set<string>>, c: set<Atom>, fp: Atom)
    requires Reflects(h, d, v, c, fp)
    ensures HasVersion(v, fp) <==> Indexed(h, fp)
    ensures HasVersion(v, fp) ==> Present(h, fp)
  {
    IndexedIsPresent(h, fp);
  }

  lemma CachedHasName(h: seq<Event>, d: map<Atom, Package>, v: map<string, set<string>>, c: set<Atom>, fp: Atom)
    requires Reflects(h, d, v, c, fp)
    ensures fp in c ==> fp.name in v
  {
  }

  lemma NamesAfterCreate(h: seq<Event>, v: map<string, set<string>>, c: set<Atom>, p: Package,
                         v': map<string, set<string>>)
    requires forall n :: n in v <==> NameEverCreated(h, n)
    requires p.ToAtom() in c ==> p.name in v
    requires if p.ToAtom() in c then v' == v
             else v' == v[p.name := (if p.name in v then v[p.name] else {}) + {p.version}]
    ensures forall n :: n in v' <==> NameEverCreated(h + [Created(p)], n)
  {
  }

  class BoltDatabase {
    var records: seq<Package>
    ghost var history: seq<Event>

    ghost predicate Valid()
      reads this
    {
      && (forall fp: Atom :: Count(records, fp) == Records(history, fp))
      && forall p :: p in records ==> Created(p) in history
    }

    constructor ()
      ensures Valid() && history == []
    {
      records, history := [], [];
    }

    method CreatePackage(p: Package)
      requires Valid() && p.provs == []
      modifies this
      ensures Valid() && history == old(history) + [Created(p)]
    {
      forall fp ensures Count(records + [p], fp) == Records(history + [Created(p)], fp) {
        CountAppend(records, p, fp);
        NextRecords(history, Created(p), fp);
      }
      records := records + [p];
      history := history + [Created(p)];
    }

    /** Select the first record of the package. */
    method First(fp: Atom) returns (k: nat)
      ensures k <= |records|
      ensures k == |records| <==> Count(records, fp) == 0
      ensures k < |records| ==> records[k].ToAtom() == fp
    {
      k := 0;
      while k < |records| && records[k].ToAtom() != fp
        invariant k <= |records| && forall i :: 0 <= i < k ==> records[i].ToAtom() != fp
      {
        k := k + 1;
      }
      CountPositive(records, fp);
    }

    /** Deletes the first record of the package; fails when there is none. */
    method RemovePackage(fp: Atom) returns (ok: bool)
      requires Valid()
      modifies this
      ensures Valid() && history == old(history) + [Removed(fp)]
      ensures ok <==> Records(old(history), fp) > 0
    {
      hide Records;
      assert forall fq: Atom :: Count(records, fq) == Records(history, fq);
      var k := First(fp);
      ok := k < |records|;
      ghost var was := records;
      if ok {
        records := records[..k] + records[k + 1..];
      }
      forall fq: Atom ensures Count(records, fq) == Records(history + [Removed(fp)], fq) {
        assert Count(was, fq) == Records(history, fq);
        if ok {
          CountWithout(was, k, fq);
        }
        NextRecords(history, Removed(fp), fq);
      }
      history := history + [Removed(fp)];
    }

    method FindPackage(fp: Atom) returns (p: Option<Package>)
      requires Valid()
      ensures p.Some? <==> Records(history, fp) > 0
      ensures p.Some? ==> p.value.ToAtom() == fp && Created(p.value) in history
    {
      assert Count(records, fp) == Records(history, fp);
      var k := First(fp);
      p := if k < |records| then Some(records[k]) else None;
    }

    /** A selector finds every record that matches. */
    method FindPackages(accepts: (string, string) -> bool, sel: Atom) returns (r: Answer)
      requires Valid()
      ensures !Compares(sel.version) ==> r.Found? == (Records(history, sel) > 0)
      ensures !Compares(sel.version) && r.Found? ==>
                |r.packages| == 1 && r.packages[0].ToAtom() == sel && Created(r.packages[0]) in history
      ensures Compares(sel.version) ==> r.Found? && Selects(Scan, history, accepts, sel, r)
    {
      if !IsSelector(sel) {
        var p := FindPackage(sel);
        return if p.Some? then Found([p.value]) else Error(NotFound);
      }
      var found: seq<Package> := [];
      for k := 0 to |records|
        invariant forall p :: p in found <==> p in records[..k] && Matches(accepts, sel, p.ToAtom())
      {
        assert records[..k + 1] == records[..k] + [records[k]];
        if records[k].name == sel.name && accepts(sel.version, records[k].version) {
          found := found + [records[k]];
        }
      }
      assert records[..|records|] == records;
      r := Found(found);
      forall fp ensures fp in AtomsOf(PackagesOf(r)) <==> Matches(accepts, sel, fp) && Records(history, fp) > 0 {
        CountPositive(records, fp);
        assert Count(records, fp) == Records(history, fp);
      }
    }
  }

  function Count(records: seq<Package>, fp: Atom): nat {
    if records == [] then 0
    else (if records[0].ToAtom() == fp then 1 else 0) + Count(records[1..], fp)
  }

  lemma {:induction false} CountConcat(a: seq<Package>, b: seq<Package>, fp: Atom)
    ensures Count(a + b, fp) == Count(a, fp) + Count(b, fp)
  {
    if a == [] {
      assert a + b == b;
    } else {
      assert (a + b)[1..] == a[1..] + b;
      CountConcat(a[1..], b, fp);
    }
  }

  lemma CountAppend(records: seq<Package>, p: Package, fp: Atom)
    ensures Count(records + [p], fp) == Count(records, fp) + if p.ToAtom() == fp then 1 else 0
  {
    CountConcat(records, [p], fp);
  }

  lemma CountWithout(records: seq<Package>, k: nat, fp: Atom)
    requires k < |records|
    ensures Count(records, fp) ==
            Count(records[..k] + records[k + 1..], fp) + if records[k].ToAtom() == fp then 1 else 0
  {
    assert records == records[..k] + ([records[k]] + records[k + 1..]);
    CountConcat(records[..k], [records[k]] + records[k + 1..], fp);
    CountConcat([records[k]], records[k + 1..], fp);
    CountConcat(records[..k], records[k + 1..], fp);
  }

  lemma {:induction false} CountPositive(records: seq<Package>, fp: Atom)
    ensures Count(records, fp) > 0 <==> exists p :: p in records && p.ToAtom() == fp
  {
    if records != [] {
      CountPositive(records[1..], fp);
      assert forall p :: p in records <==> p == records[0] || p in records[1..];
    }
  }

  // ---------- agreement of the two databases ----------

  /** The history never creates two different packages under one fingerprint. */
  ghost predicate OnePackagePerAtom(h: seq<Event>) {
    forall p, q :: Created(p) in h && Created(q) in h && p.ToAtom() == q.ToAtom() ==> p == q
  }

  /** On a selector the index and the full scan find the same fingerprints exactly when no matching record
      was lost by the index. */
  lemma SelectorsAgree(h: seq<Event>, accepts: (string, string) -> bool, sel: Atom, mem: Answer, bolt: Answer)
    requires Selects(Index, h, accepts, sel, mem)
    requires Selects(Scan, h, accepts, sel, bolt)
    ensures AtomsOf(PackagesOf(mem)) <= AtomsOf(PackagesOf(bolt))
    ensures AtomsOf(PackagesOf(mem)) == AtomsOf(PackagesOf(bolt)) <==>
            forall fp :: Matches(accepts, sel, fp) ==> !Lost(h, fp)
  {
    hide EverCreated, RemovedSince, Present;
    forall fp ensures Indexed(h, fp) ==> Records(h, fp) > 0
      ensures Records(h, fp) > 0 && !Indexed(h, fp) <==> Lost(h, fp)
    {
      IndexedIsPresent(h, fp);
      IndexedOrLost(h, fp);
    }
    if AtomsOf(PackagesOf(mem)) == AtomsOf(PackagesOf(bolt)) {
      forall fp | Matches(accepts, sel, fp) ensures !Lost(h, fp) {
        assert fp in AtomsOf(PackagesOf(mem)) <==> fp in AtomsOf(PackagesOf(bolt));
      }
    }
  }

  lemma IndexedOrLost(h: seq<Event>, fp: Atom)
    ensures Records(h, fp) > 0 && !Indexed(h, fp) <==> Lost(h, fp)
  {
    hide EverCreated, RemovedSince, Present;
    IndexedIsPresent(h, fp);
  }

  lemma SamePackages(h: seq<Event>, a: set<Package>, b: set<Package>)
    requires OnePackagePerAtom(h) && (forall p :: p in a + b ==> Created(p) in h) && AtomsOf(a) <= AtomsOf(b)
    ensures a <= b
  {
    forall p | p in a ensures p in b {
      assert p.ToAtom() in AtomsOf(b);
    }
  }

  /** The same packages, when a fingerprint stands for one package. */
  lemma SelectorsAgreeOnPackages(h: seq<Event>, accepts: (string, string) -> bool, sel: Atom, mem: Answer, bolt: Answer)
    requires OnePackagePerAtom(h)
    requires Selects(Index, h, accepts, sel, mem)
    requires Selects(Scan, h, accepts, sel, bolt)
    ensures PackagesOf(mem) == PackagesOf(bolt) <==> forall fp :: Matches(accepts, sel, fp) ==> !Lost(h, fp)
  {
    hide Indexed, Lost, Records;
    SelectorsAgree(h, accepts, sel, mem, bolt);
    SamePackages(h, PackagesOf(mem), PackagesOf(bolt));
    if AtomsOf(PackagesOf(mem)) == AtomsOf(PackagesOf(bolt)) {
      SamePackages(h, PackagesOf(bolt), PackagesOf(mem));
    }
  }

  /** No package is created twice. */
  predicate CreatedOnce(h: seq<Event>) {
    forall i, j :: 0 <= i < j < |h| && h[i].Created? && h[j].Created? ==> h[i].pkg.ToAtom() != h[j].pkg.ToAtom()
  }

  /** Then the index loses nothing, whatever is removed and when, and an exact lookup agrees too. */
  lemma {:induction false} CreatedOnceLosesNothing(h: seq<Event>, fp: Atom)
    requires CreatedOnce(h)
    ensures !Lost(h, fp) && Records(h, fp) <= 1
    ensures Present(h, fp) <==> Records(h, fp) > 0
  {
    hide RemovedSince, Present;
    if h == [] {
      Nothing(fp);
    } else {
      var init, e := h[..|h| - 1], h[|h| - 1];
      assert h == init + [e];
      CreatedOnceLosesNothing(init, fp);
      NextRemoved(init, e, fp);
      NextRecords(init, e, fp);
      RemovedWasCreated(init, fp);
      IndexedIsPresent(init, fp);
      IndexedIsPresent(h, fp);
    }
  }

  /** No package is created again after it was removed. */
  predicate NeverRecreatesRemoved(h: seq<Event>) {
    forall k :: 0 <= k < |h| && h[k].Created? ==> !RemovedSince(h[..k], h[k].pkg.ToAtom())
  }

  /** That alone is not enough: a package created twice and removed once keeps a record in Bolt. */
  lemma CreatedTwiceIsLost(p: Package)
    ensures NeverRecreatesRemoved([Created(p), Created(p), Removed(p.ToAtom())])
    ensures Lost([Created(p), Created(p), Removed(p.ToAtom())], p.ToAtom())
  {
    hide EverCreated, RemovedSince, Records;
    var fp, c := p.ToAtom(), Created(p);
    var h := [c, c, Removed(fp)];
    assert [c] == [] + [c] && [c, c] == [c] + [c] && h == [c, c] + [Removed(fp)];
    Nothing(fp);
    NextCreated([], c, fp);
    NextCreated([c], c, fp);
    NextRemoved([], c, fp);
    NextRemoved([c, c], Removed(fp), fp);
    NextRecords([], c, fp);
    NextRecords([c], c, fp);
    NextRecords([c, c], Removed(fp), fp);
    assert h[..0] == [] && h[..1] == [c];
  }
}
