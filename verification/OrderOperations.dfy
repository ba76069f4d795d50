/** The imperative side of the planner: build thin packages, sort them, and interleave the removes. */
module OrderOperations {
  import opened Wrappers
  import opened Packages
  import opened Planner
  import opened Digraph
  import opened ThinPackages
  import Sorter

  /** The map of a pack: for each name its artefacts, in order. */
  method ToMap(arts: seq<Artifact>) returns (m: map<string, seq<Artifact>>)
    ensures forall n :: n in m <==> Named(arts, n) != []
    ensures forall n :: n in m ==> m[n] == Named(arts, n)
  {
    m := map[];
    for i := 0 to |arts|
      invariant forall n :: n in m <==> Named(arts[..i], n) != []
      invariant forall n :: n in m ==> m[n] == Named(arts[..i], n)
    {
      var key := arts[i].pkg.name;
      assert arts[..i + 1][..i] == arts[..i];
      if key in m {
        m := m[key := m[key] + [arts[i]]];
      } else {
        m := m[key := [arts[i]]];
      }
    }
    assert arts[..|arts|] == arts;
  }

  /** The names of the requires that are present. */
  function KeptRequires(deps: seq<Atom>, present: set<string>): (kept: seq<string>)
    ensures forall n :: n in kept <==> n in present && exists d :: d in deps && d.name == n
  {
    if deps == [] then []
    else
      var init := KeptRequires(deps[..|deps| - 1], present);
      var last := deps[|deps| - 1];
      assert deps == deps[..|deps| - 1] + [last];
      if last.name in present then init + [last.name] else init
  }

  /** Each require that is present is kept, however often, and the order is that of the requires. */
  lemma {:induction false} KeptInOrder(deps: seq<Atom>, present: set<string>) returns (at: seq<nat>)
    ensures KeepsInOrder(deps, (d: Atom) => d.name in present, (d: Atom) => d.name, KeptRequires(deps, present), at)
  {
    at := [];
    if deps != [] {
      var n: nat := |deps| - 1;
      at := KeptInOrder(deps[..n], present);
      KeepsNext(deps, (d: Atom) => d.name in present, (d: Atom) => d.name, KeptRequires(deps[..n], present), at);
      if ((d: Atom) => d.name in present)(deps[n]) {
        at := at + [n];
      }
    }
  }

  ghost predicate DistinctArtifacts(arts: seq<Artifact>) {
    forall i, j :: 0 <= i < j < |arts| ==> arts[i].pkg.name != arts[j].pkg.name
  }

  lemma NamedOne(arts: seq<Artifact>, a: Artifact)
    requires DistinctArtifacts(arts) && a in arts
    ensures Named(arts, a.pkg.name) != [] && Named(arts, a.pkg.name)[0] == a
  {
    assert a in Named(arts, a.pkg.name);
    var b := Named(arts, a.pkg.name)[0];
    assert b in Named(arts, a.pkg.name);
  }

  lemma NamesAreNamed(arts: seq<Artifact>, n: string)
    ensures n in ArtifactNames(arts) <==> Named(arts, n) != []
  {
    if n in ArtifactNames(arts) {
      var a :| a in arts && a.pkg.name == n;
      assert a in Named(arts, n);
    }
    if Named(arts, n) != [] {
      assert Named(arts, n)[0] in Named(arts, n);
    }
  }

  /** The requires relation of a transaction: what is not part of it counts as installed. */
  ghost function TransactionRequires(arts: seq<Artifact>): (reqs: Requires)
    ensures reqs.Keys == ArtifactNames(arts)
  {
    map n | n in ArtifactNames(arts) ::
      NamesAreNamed(arts, n); KeptRequires(Named(arts, n)[0].pkg.deps, ArtifactNames(arts))
  }

  method CreateThinPkgsPlist(arts: seq<Artifact>, present: map<string, seq<Artifact>>) returns (thin: seq<PackageThin>)
    ensures |thin| == |arts| && fresh(thin)
    ensures forall i :: 0 <= i < |arts| ==> thin[i].name == arts[i].pkg.name
    ensures forall i :: 0 <= i < |arts| ==> thin[i].deps == KeptRequires(arts[i].pkg.deps, present.Keys)
  {
    thin := [];
    for i := 0 to |arts|
      invariant |thin| == i && fresh(thin)
      invariant forall k :: 0 <= k < i ==> thin[k].name == arts[k].pkg.name
      invariant forall k :: 0 <= k < i ==> thin[k].deps == KeptRequires(arts[k].pkg.deps, present.Keys)
    {
      var p := new PackageThin(arts[i].pkg.name, KeptRequires(arts[i].pkg.deps, present.Keys));
      thin := thin + [p];
    }
  }

  ghost function Requested(p2i: seq<Artifact>, p2u: seq<Artifact>): (ops: seq<Operation>)
    ensures |ops| == |p2i| + |p2u|
    ensures forall i :: 0 <= i < |p2i| ==> ops[i] == Operation(AddPackage, p2i[i])
    ensures forall i :: 0 <= i < |p2u| ==> ops[|p2i| + i] == Operation(UpdatePackage, p2u[i])
  {
    seq(|p2i|, i requires 0 <= i < |p2i| => Operation(AddPackage, p2i[i]))
    + seq(|p2u|, i requires 0 <= i < |p2u| => Operation(UpdatePackage, p2u[i]))
  }

  /** The operation that adds the named package: an install if the install pack has it, else an update. */
  function AdditionOf(p2i: seq<Artifact>, p2u: seq<Artifact>, name: string): Operation
    requires Named(p2i, name) != [] || Named(p2u, name) != []
  {
    if Named(p2i, name) != [] then Operation(AddPackage, Named(p2i, name)[0])
    else Operation(UpdatePackage, Named(p2u, name)[0])
  }

  lemma AdditionOfRequested(p2i: seq<Artifact>, p2u: seq<Artifact>, k: nat)
    requires DistinctArtifacts(p2i + p2u) && k < |p2i| + |p2u|
    ensures var op := Requested(p2i, p2u)[k];
      && (Named(p2i, op.Name()) != [] || Named(p2u, op.Name()) != [])
      && AdditionOf(p2i, p2u, op.Name()) == op
  {
    var arts := p2i + p2u;
    assert forall i :: 0 <= i < |p2i| ==> arts[i] == p2i[i];
    assert forall i :: 0 <= i < |p2u| ==> arts[|p2i| + i] == p2u[i];
    assert DistinctArtifacts(p2i) && DistinctArtifacts(p2u);
    if k < |p2i| {
      NamedOne(p2i, p2i[k]);
    } else {
      var a := p2u[k - |p2i|];
      NamedOne(p2u, a);
      assert arts[k] == a;
      forall b | b in p2i ensures b.pkg.name != a.pkg.name {
        var i :| 0 <= i < |p2i| && p2i[i] == b;
        assert arts[i] == b;
      }
      NamedNone(p2i, a.pkg.name);
    }
  }

  lemma NamedNone(arts: seq<Artifact>, n: string)
    requires forall a :: a in arts ==> a.pkg.name != n
    ensures Named(arts, n) == []
  {
    NamesAreNamed(arts, n);
  }

  /** The additions, in the order of names. */
  ghost predicate AddedInOrder(p2i: seq<Artifact>, p2u: seq<Artifact>, names: seq<string>, added: seq<Operation>) {
    && |added| == |names|
    && forall k :: 0 <= k < |names| ==>
         && (Named(p2i, names[k]) != [] || Named(p2u, names[k]) != [])
         && added[k] == AdditionOf(p2i, p2u, names[k])
  }

  /** If the names are those of the packs, each once, the additions are exactly the requested ones. */
  lemma AddedIsRequested(p2i: seq<Artifact>, p2u: seq<Artifact>, names: seq<string>, added: seq<Operation>)
    requires DistinctArtifacts(p2i + p2u) && AddedInOrder(p2i, p2u, names, added)
    requires NoRepeats(names) && forall n :: n in names <==> n in ArtifactNames(p2i + p2u)
    ensures DistinctNames(added) && |added| == |names|
    ensures forall op :: op in added <==> op in Requested(p2i, p2u)
    ensures forall k :: 0 <= k < |added| ==> added[k].Name() == names[k] && added[k].art in p2i + p2u
  {
    forall k | 0 <= k < |added| ensures added[k].Name() == names[k] && added[k].art in p2i + p2u {
      assert added[k].art in Named(p2i, names[k]) || added[k].art in Named(p2u, names[k]);
    }
    forall op | op in added ensures op in Requested(p2i, p2u) {
      if op.action == AddPackage {
        var i :| 0 <= i < |p2i| && p2i[i] == op.art;
        assert Requested(p2i, p2u)[i] == op;
      } else {
        var i :| 0 <= i < |p2u| && p2u[i] == op.art;
        assert Requested(p2i, p2u)[|p2i| + i] == op;
      }
    }
    forall op | op in Requested(p2i, p2u) ensures op in added {
      var k :| 0 <= k < |p2i| + |p2u| && Requested(p2i, p2u)[k] == op;
      AdditionOfRequested(p2i, p2u, k);
      assert op.art in p2i + p2u;
      assert op.Name() in names;
      var j :| 0 <= j < |names| && names[j] == op.Name();
      assert added[j] == op;
    }
  }

  lemma AddedDependencies(p2i: seq<Artifact>, p2u: seq<Artifact>, names: seq<string>, added: seq<Operation>)
    requires DistinctArtifacts(p2i + p2u)
    requires |added| == |names| && forall k :: 0 <= k < |added| ==>
               added[k].Name() == names[k] && added[k].art in p2i + p2u
    requires Sorter.DependenciesFirst(TransactionRequires(p2i + p2u), names)
    requires forall op :: op in added ==> !op.Removes()
    ensures DependenciesAddedFirst(added, added)
  {
    var arts := p2i + p2u;
    forall j, d | 0 <= j < |added| && d in added[j].art.pkg.deps && HasName(added, d.name)
      ensures exists i :: 0 <= i < j && !added[i].Removes() && added[i].Name() == d.name
    {
      NamedOne(arts, added[j].art);
      var k :| 0 <= k < |added| && added[k].Name() == d.name;
      assert d.name in ArtifactNames(arts);
      assert d.name in TransactionRequires(arts)[names[j]];
      var i :| 0 <= i < j && names[..j][i] == d.name;
      assert added[i].Name() == d.name && added[i] in added;
    }
  }

  lemma TransactionClosed(arts: seq<Artifact>)
    ensures Sorter.Closed(TransactionRequires(arts))
  {
  }

  lemma TransactionRequiresAt(arts: seq<Artifact>, i: nat)
    requires DistinctArtifacts(arts) && i < |arts|
    ensures arts[i].pkg.name in TransactionRequires(arts)
    ensures TransactionRequires(arts)[arts[i].pkg.name] == KeptRequires(arts[i].pkg.deps, ArtifactNames(arts))
  {
    NamedOne(arts, arts[i]);
  }

  lemma NameIndex(arts: seq<Artifact>, n: string) returns (i: nat)
    requires n in ArtifactNames(arts)
    ensures i < |arts| && arts[i].pkg.name == n
  {
    var a :| a in arts && a.pkg.name == n;
    i :| 0 <= i < |arts| && arts[i] == a;
  }

  /** The thin packages of the transaction: distinct names, and closed, because requires outside the
      transaction were dropped. */
  lemma {:induction false} ThinTransaction(arts: seq<Artifact>, thin: seq<PackageThin>)
    requires DistinctArtifacts(arts) && |thin| == |arts|
    requires forall i :: 0 <= i < |arts| ==> thin[i].name == arts[i].pkg.name
    requires forall i :: 0 <= i < |arts| ==> thin[i].deps == KeptRequires(arts[i].pkg.deps, ArtifactNames(arts))
    ensures Sorter.DistinctNames(thin)
    ensures Sorter.RequiresOf(thin) == TransactionRequires(arts)
  {
    hide Named, KeptRequires, TransactionRequires, ArtifactNames;
    var all, reqs := Sorter.ByName(thin), TransactionRequires(arts);
    forall n | n in all ensures n in reqs && all[n].deps == reqs[n] {
      var i :| 0 <= i < |thin| && thin[i] == all[n];
      TransactionRequiresAt(arts, i);
    }
    forall n | n in reqs ensures n in all {
      var i := NameIndex(arts, n);
      assert thin[i] in thin;
    }
    assert all.Keys == reqs.Keys;
  }

  lemma SortedNames(arts: seq<Artifact>, thin: seq<PackageThin>, sorted: seq<PackageThin>)
    requires |thin| == |arts| && forall i :: 0 <= i < |arts| ==> thin[i].name == arts[i].pkg.name
    requires multiset(sorted) == multiset(thin) && Sorter.DistinctNames(sorted)
    ensures NoRepeats(Sorter.Names(sorted))
    ensures forall n :: n in Sorter.Names(sorted) <==> n in ArtifactNames(arts)
  {
    forall p ensures p in sorted <==> p in thin {
      assert p in sorted <==> p in multiset(sorted);
      assert p in thin <==> p in multiset(thin);
    }
    forall n ensures n in Sorter.Names(sorted) <==> n in ArtifactNames(arts) {
      if n in Sorter.Names(sorted) {
        var k :| 0 <= k < |sorted| && Sorter.Names(sorted)[k] == n;
        assert sorted[k] in thin;
        var i :| 0 <= i < |thin| && thin[i] == sorted[k];
        assert arts[i] in arts;
      }
      if n in ArtifactNames(arts) {
        var a :| a in arts && a.pkg.name == n;
        var i :| 0 <= i < |arts| && arts[i] == a;
        assert thin[i] in sorted;
        var k :| 0 <= k < |sorted| && sorted[k] == thin[i];
        assert Sorter.Names(sorted)[k] == n;
      }
    }
  }

  lemma NoAdditions(p2i: seq<Artifact>, p2u: seq<Artifact>)
    ensures AddedInOrder(p2i, p2u, [], [])
  {
  }

  lemma NextAddition(p2i: seq<Artifact>, p2u: seq<Artifact>, names: seq<string>, k: nat, added: seq<Operation>)
    requires k < |names| && AddedInOrder(p2i, p2u, names[..k], added)
    requires Named(p2i, names[k]) != [] || Named(p2u, names[k]) != []
    ensures AddedInOrder(p2i, p2u, names[..k + 1], added + [AdditionOf(p2i, p2u, names[k])])
    ensures AdditionOf(p2i, p2u, names[k]) ==
              if Named(p2i, names[k]) != [] then Operation(AddPackage, Named(p2i, names[k])[0])
              else Operation(UpdatePackage, Named(p2u, names[k])[0])
  {
    hide Named;
    assert names[..k + 1] == names[..k] + [names[k]];
  }

  /** The additions in the order of the sorted thin packages. */
  method ToOperations(p2i: seq<Artifact>, p2u: seq<Artifact>, sorted: seq<PackageThin>) returns (added: seq<Operation>)
    requires forall n :: n in Sorter.Names(sorted) ==> n in ArtifactNames(p2i + p2u)
    ensures AddedInOrder(p2i, p2u, Sorter.Names(sorted), added)
  {
    hide Named, AddedInOrder, ArtifactNames, AdditionOf;
    ghost var names := Sorter.Names(sorted);
    added := [];
    NoAdditions(p2i, p2u);
    var p2imap := ToMap(p2i);
    var p2umap := ToMap(p2u);
    for k := 0 to |sorted|
      invariant AddedInOrder(p2i, p2u, names[..k], added)
    {
      var name := sorted[k].name;
      assert names[k] == name && names[k] in names;
      EitherPack(p2i, p2u, name);
      NextAddition(p2i, p2u, names, k, added);
      if name in p2imap {
        added := added + [Operation(AddPackage, p2imap[name][0])];
      } else {
        added := added + [Operation(UpdatePackage, p2umap[name][0])];
      }
    }
    assert names[..|sorted|] == names;
  }

  ghost function NamesIn(arts: seq<Artifact>): seq<string> {
    seq(|arts|, i requires 0 <= i < |arts| => arts[i].pkg.name)
  }

  ghost function AddedNamesOf(ops: seq<Operation>): seq<string> {
    seq(|ops|, i requires 0 <= i < |ops| => ops[i].Name())
  }

  /** Of several packages the additions come in an order of the sorter, whether or not their requires are cyclic. */
  ghost predicate InSorterOrder(arts: seq<Artifact>, added: seq<Operation>) {
    |arts| > 1 ==>
      exists reqs :: Sorter.SortedFrom(NamesIn(arts), TransactionRequires(arts), reqs, AddedNamesOf(added), true)
  }

  lemma SorterOrder(arts: seq<Artifact>, thin: seq<PackageThin>, sorted: seq<PackageThin>, added: seq<Operation>,
                    reqs: Requires)
    requires |thin| == |arts| && forall i :: 0 <= i < |arts| ==> thin[i].name == arts[i].pkg.name
    requires |added| == |sorted| && forall k :: 0 <= k < |added| ==> added[k].Name() == Sorter.Names(sorted)[k]
    requires Sorter.SortedFrom(Sorter.Names(thin), TransactionRequires(arts), reqs, Sorter.Names(sorted), true)
    ensures InSorterOrder(arts, added)
  {
    hide TransactionRequires, Sorter.SortedFrom;
    assert Sorter.Names(thin) == NamesIn(arts) && Sorter.Names(sorted) == AddedNamesOf(added);
  }

  /** Sort the packages to install and to update; this never fails. */
  method SortAdditions(p2i: seq<Artifact>, p2u: seq<Artifact>) returns (added: seq<Operation>)
    requires DistinctArtifacts(p2i + p2u)
    ensures DistinctNames(added)
    ensures forall op :: op in added <==> op in Requested(p2i, p2u)
    ensures Acyclic(EdgesOf(TransactionRequires(p2i + p2u))) ==> DependenciesAddedFirst(added, added)
    ensures InSorterOrder(p2i + p2u, added)
  {
    hide Requested, Sorter.Justified, Sorter.DependenciesFirst, Sorter.SortedFrom, Sorter.RequiresOf, Sorter.Names,
      Sorter.Closed, Sorter.ByName, Thinned, Acyclic, DependenciesAddedFirst, Named, KeptRequires, ArtifactNames,
      TransactionRequires, EdgesOf, AddedInOrder, DistinctArtifacts;
    var merged := p2i + p2u;
    if |merged| == 1 {
      if |p2i| > 0 {
        added := [Operation(AddPackage, merged[0])];
      } else {
        added := [Operation(UpdatePackage, merged[0])];
      }
      SingleAddition(p2i, p2u, added);
    } else if |merged| > 1 {
      var mergedMap := ToMap(merged);
      MapKeys(merged, mergedMap);
      var thin := CreateThinPkgsPlist(merged, mergedMap);
      ThinTransaction(merged, thin);
      TransactionClosed(merged);
      var ok, sorted := Sorter.SortPkgsThinArr(thin);
      if !ok {
        // The thin packages only require each other, so the sort does not fail.
        assert false;
      }
      SortedNames(merged, thin, sorted);
      added := ToOperations(p2i, p2u, sorted);
      AddedIsRequested(p2i, p2u, Sorter.Names(sorted), added);
      SorterOrder(merged, thin, sorted, added, Sorter.RequiresOf(thin));
      RequestedAdds(p2i, p2u);
      if Acyclic(EdgesOf(TransactionRequires(merged))) {
        AddedDependencies(p2i, p2u, Sorter.Names(sorted), added);
      }
    } else {
      added := [];
      NothingRequested(p2i, p2u);
    }
  }

  lemma MapKeys(arts: seq<Artifact>, m: map<string, seq<Artifact>>)
    requires forall n :: n in m <==> Named(arts, n) != []
    ensures m.Keys == ArtifactNames(arts)
  {
    forall n ensures n in m <==> n in ArtifactNames(arts) {
      NamesAreNamed(arts, n);
    }
  }

  lemma EitherPack(p2i: seq<Artifact>, p2u: seq<Artifact>, name: string)
    requires name in ArtifactNames(p2i + p2u)
    ensures Named(p2i, name) != [] || Named(p2u, name) != []
  {
    var a :| a in p2i + p2u && a.pkg.name == name;
    assert a in Named(p2i, name) || a in Named(p2u, name);
  }

  lemma RequestedAdds(p2i: seq<Artifact>, p2u: seq<Artifact>)
    ensures forall op :: op in Requested(p2i, p2u) ==> !op.Removes()
  {
    forall k | 0 <= k < |p2i| + |p2u| ensures !Requested(p2i, p2u)[k].Removes() {
      assert k < |p2i| || Requested(p2i, p2u)[|p2i| + (k - |p2i|)].action == UpdatePackage;
    }
  }

  lemma NothingRequested(p2i: seq<Artifact>, p2u: seq<Artifact>)
    requires |p2i + p2u| == 0
    ensures Requested(p2i, p2u) == [] && DependenciesAddedFirst([], [])
  {
  }

  lemma SingleAddition(p2i: seq<Artifact>, p2u: seq<Artifact>, added: seq<Operation>)
    requires |p2i + p2u| == 1
    requires added == [Operation(if |p2i| > 0 then AddPackage else UpdatePackage, (p2i + p2u)[0])]
    ensures forall op :: op in added <==> op in Requested(p2i, p2u)
    ensures Acyclic(EdgesOf(TransactionRequires(p2i + p2u))) ==> DependenciesAddedFirst(added, added)
  {
    var arts := p2i + p2u;
    assert Requested(p2i, p2u) == added;
    if d :| d in arts[0].pkg.deps && d.name == arts[0].pkg.name {
      NamedOne(arts, arts[0]);
      var n := arts[0].pkg.name;
      assert n in ArtifactNames(arts) && n in TransactionRequires(arts)[n];
      assert ClosedWalk(EdgesOf(TransactionRequires(arts)), [n, n]);
    }
  }

  lemma AddedNames(p2i: seq<Artifact>, p2u: seq<Artifact>, added: seq<Operation>, n: string)
    requires forall op :: op in added <==> op in Requested(p2i, p2u)
    ensures HasName(added, n) <==> n in ArtifactNames(p2i + p2u)
  {
    if HasName(added, n) {
      var k :| 0 <= k < |added| && added[k].Name() == n;
      assert added[k] in Requested(p2i, p2u);
      var i :| 0 <= i < |p2i| + |p2u| && Requested(p2i, p2u)[i] == added[k];
      assert (p2i + p2u)[i] in p2i + p2u && (p2i + p2u)[i].pkg.name == n by {
        if i >= |p2i| {
          assert Requested(p2i, p2u)[|p2i| + (i - |p2i|)] == Operation(UpdatePackage, p2u[i - |p2i|]);
        }
      }
    }
    if n in ArtifactNames(p2i + p2u) {
      var i := NameIndex(p2i + p2u, n);
      assert Requested(p2i, p2u)[i].Name() == n by {
        if i >= |p2i| {
          assert Requested(p2i, p2u)[|p2i| + (i - |p2i|)] == Operation(UpdatePackage, p2u[i - |p2i|]);
        }
      }
      assert Requested(p2i, p2u)[i] in added;
    }
  }

  /** The removes of packages that are not added again, in the order of the pack. */
  method NewRemoves(p2r: seq<Artifact>, mergedMap: map<string, seq<Artifact>>, ghost added: seq<Operation>)
    returns (head: seq<Operation>)
    requires forall n :: n in mergedMap <==> HasName(added, n)
    ensures head == HeadRemoves(p2r, added)
  {
    hide HasName;
    head := [];
    for i := 0 to |p2r|
      invariant head == HeadRemoves(p2r[..i], added)
    {
      assert p2r[..i + 1][..i] == p2r[..i];
      if p2r[i].pkg.name !in mergedMap {
        head := head + [Operation(RemovePackage, p2r[i])];
      }
    }
    assert p2r[..|p2r|] == p2r;
  }

  /** The lowest position above rmOps of an operation whose package rejects p, or -1: the scan goes down and
      the last conflict it meets wins. */
  method ScanConflicts(g: Gentoo, ans: seq<Operation>, idxOps: nat, rmOps: nat, p: Package) returns (idxConflict: int)
    requires idxOps == |ans| && rmOps <= |ans|
    ensures -1 <= idxConflict < |ans|
    ensures idxConflict == -1 <==> forall i :: rmOps < i < |ans| ==> Admit(g, ans[i].art.pkg, p) != Rejected
    ensures idxConflict != -1 ==>
              && rmOps < idxConflict && Admit(g, ans[idxConflict].art.pkg, p) == Rejected
              && forall i :: rmOps < i < idxConflict ==> Admit(g, ans[i].art.pkg, p) != Rejected
  {
    idxConflict := -1;
    var idx: int := idxOps - 1;
    while idx > rmOps
      invariant rmOps - 1 <= idx < |ans|
      invariant idxConflict == -1 || (rmOps < idxConflict < |ans| && idx < idxConflict)
      invariant idxConflict != -1 ==> Admit(g, ans[idxConflict].art.pkg, p) == Rejected
      invariant forall i :: idx < i < (if idxConflict < 0 then |ans| else idxConflict) && rmOps < i
                  ==> Admit(g, ans[i].art.pkg, p) != Rejected
    {
      if Admit(g, ans[idx].art.pkg, p) == Rejected {
        idxConflict := idx;
      }
      idx := idx - 1;
    }
  }

  /** Place each remove of a package that is added again among the additions. */
  method InterleaveRemoves(g: Gentoo, p2r: seq<Artifact>, p2rmap: map<string, seq<Artifact>>,
                           head: seq<Operation>, tmpOps: seq<Operation>) returns (ans: seq<Operation>)
    requires forall n :: n in p2rmap <==> Named(p2r, n) != []
    requires forall n :: n in p2rmap ==> p2rmap[n] == Named(p2r, n)
    ensures ans == Interleave(g, p2r, head, tmpOps)
  {
    hide Named, FirstConflict, Admit;
    ans := head;
    var idxOps := |ans|;
    var rmOps := |ans|;
    for tidx := 0 to |tmpOps|
      invariant idxOps == |ans| && rmOps == |head| <= |ans|
      invariant ans == Interleave(g, p2r, head, tmpOps[..tidx])
    {
      var op := tmpOps[tidx];
      assert tmpOps[..tidx + 1][..tidx] == tmpOps[..tidx];
      ghost var before := ans;
      if op.Name() in p2rmap {
        var remove := Operation(RemovePackage, p2rmap[op.Name()][0]);
        var idxConflict := ScanConflicts(g, ans, idxOps, rmOps, op.art.pkg);
        assert RemovePosition(g, ans, rmOps, op.art.pkg) == if idxConflict < 0 then |ans| else idxConflict;
        if idxConflict == 0 {
          // The scan stops above rmOps, so position 0 is never a conflict.
          assert false;
        } else if idxConflict < 0 {
          ans := ans + [remove, op];
          assert ans == Insert(before, |before|, remove) + [op];
        } else {
          ans := ans[..idxConflict] + [remove] + ans[idxConflict..] + [op];
        }
        idxOps := idxOps + 1;
      } else {
        ans := ans + [op];
      }
      idxOps := idxOps + 1;
      assert ans == Step(g, p2r, |head|, before, op);
    }
    assert tmpOps[..|tmpOps|] == tmpOps;
  }

  method RemovesOnly(p2r: seq<Artifact>, p2rmap: map<string, seq<Artifact>>) returns (ans: seq<Operation>)
    requires forall n :: n in p2rmap <==> Named(p2r, n) != []
    requires forall n :: n in p2rmap ==> p2rmap[n] == Named(p2r, n)
    ensures ans == OnlyRemoves(p2r)
  {
    ans := [];
    for i := 0 to |p2r|
      invariant |ans| == i && forall k :: 0 <= k < i ==> ans[k] == OnlyRemoves(p2r)[k]
    {
      assert p2r[i] in Named(p2r, p2r[i].pkg.name);
      ans := ans + [Operation(RemovePackage, p2rmap[p2r[i].pkg.name][0])];
    }
  }

  /** OrderOperations.  It never fails; the plan it returns is that of the sorted additions. */
  method OrderOperations(g: Gentoo, p2i: seq<Artifact>, p2u: seq<Artifact>, p2r: seq<Artifact>)
    returns (ops: seq<Operation>, ghost added: seq<Operation>)
    requires DistinctArtifacts(p2i + p2u)
    ensures DistinctNames(added)
    ensures forall op :: op in added <==> op in Requested(p2i, p2u)
    ensures Acyclic(EdgesOf(TransactionRequires(p2i + p2u))) ==> DependenciesAddedFirst(added, added)
    ensures InSorterOrder(p2i + p2u, added)
    ensures ops == Plan(g, added, p2r)
    ensures RemovedOnce(p2r, Requested(p2i, p2u)) ==>
              && RemoveThenAdd(ops) && RemovedLate(g, ops)
              && Performs(ops, Requested(p2i, p2u), p2r)
              && (Acyclic(EdgesOf(TransactionRequires(p2i + p2u))) ==> DependenciesAddedFirst(ops, Requested(p2i, p2u)))
  {
    hide RemovedOnce, RemoveThenAdd, RemovedLate, Performs, Requested, Acyclic, DependenciesAddedFirst, DistinctNames,
      Named, ArtifactNames, HasName, Interleave, HeadRemoves, TransactionRequires, EdgesOf, OnlyRemoves, InSorterOrder;
    var mergedMap := ToMap(p2i + p2u);
    MapKeys(p2i + p2u, mergedMap);
    var tmpOps := SortAdditions(p2i, p2u);
    added := tmpOps;
    if |p2r| > 0 {
      var p2rmap := ToMap(p2r);
      if |tmpOps| == 0 {
        ops := RemovesOnly(p2r, p2rmap);
      } else {
        forall n ensures n in mergedMap <==> HasName(added, n) {
          AddedNames(p2i, p2u, added, n);
        }
        var newRemoves := NewRemoves(p2r, mergedMap, added);
        ops := InterleaveRemoves(g, p2r, p2rmap, newRemoves, tmpOps);
      }
    } else {
      ops := tmpOps;
    }
    RequestedAdds(p2i, p2u);
    PlanOfRequested(g, Requested(p2i, p2u), added, p2r);
  }

  /** The plan of the sorted additions, in terms of the requested ones. */
  lemma PlanOfRequested(g: Gentoo, requested: seq<Operation>, added: seq<Operation>, p2r: seq<Artifact>)
    requires DistinctNames(added) && forall op :: op in added <==> op in requested
    requires RemovedOnce(p2r, requested) ==> forall op :: op in requested ==> !op.Removes()
    ensures RemovedOnce(p2r, requested) ==>
              && RemoveThenAdd(Plan(g, added, p2r)) && RemovedLate(g, Plan(g, added, p2r))
              && Performs(Plan(g, added, p2r), requested, p2r)
              && (DependenciesAddedFirst(added, added) ==> DependenciesAddedFirst(Plan(g, added, p2r), requested))
  {
    hide Plan, RemoveThenAdd, RemovedLate;
    forall n ensures HasName(added, n) <==> HasName(requested, n) {
      SameNames(added, requested, n);
      SameNames(requested, added, n);
    }
    if RemovedOnce(p2r, requested) {
      PlanPerforms(g, added, p2r);
      PlanRemovesLate(g, added, p2r);
      if DependenciesAddedFirst(added, added) {
        PlanKeepsDependenciesFirst(g, added, p2r);
      }
    }
  }

  lemma SameNames(a: seq<Operation>, b: seq<Operation>, n: string)
    requires forall op :: op in a ==> op in b
    ensures HasName(a, n) ==> HasName(b, n)
  {
    if HasName(a, n) {
      var i :| 0 <= i < |a| && a[i].Name() == n;
      assert a[i] in b;
      var j :| 0 <= j < |b| && b[j] == a[i];
    }
  }
}
