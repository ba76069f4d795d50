/** Packages, artefacts, and the test whether one package admits another. */
module Packages {

  /** A package name with a version or, in a require or conflict, with a version selector. */
  datatype Atom = Atom(name: string, version: string)

  datatype Package = Package(name: string, version: string, deps: seq<Atom>, conflicts: seq<Atom>, provs: seq<Atom>) {
    function ToAtom(): Atom {
      Atom(name, version)
    }
  }

  datatype Artifact = Artifact(pkg: Package, files: seq<string>)

  function ArtifactNames(arts: seq<Artifact>): set<string> {
    set a | a in arts :: a.pkg.name
  }

  datatype Verdict = Admitted | Rejected | Failed

  /** The version library: which atoms it can parse, and its verdict on a selector and a version. */
  datatype Gentoo = Gentoo(parses: Atom -> bool, verdict: (Atom, Atom) -> Verdict)

  /** The atoms of a that the selector r speaks about: a itself, or else what a provides. */
  function Targets(r: Atom, a: Package): seq<Atom> {
    if r.name == a.name then [a.ToAtom()] else ProvidesNamed(a.provs, r.name)
  }

  function ProvidesNamed(provs: seq<Atom>, name: string): (named: seq<Atom>)
    ensures forall t :: t in named <==> t in provs && t.name == name
  {
    if provs == [] then []
    else
      var rest := ProvidesNamed(provs[1..], name);
      if provs[0].name == name then [provs[0]] + rest else rest
  }

  /** Compare the selector with each target until the verdict is not the wanted one. */
  function CheckTargets(g: Gentoo, r: Atom, targets: seq<Atom>, wanted: Verdict): Verdict {
    if targets == [] then wanted
    else if !g.parses(r) || !g.parses(targets[0]) then Failed
    else
      var v := g.verdict(r, targets[0]);
      if v == wanted then CheckTargets(g, r, targets[1..], wanted) else v
  }

  function CheckSelectors(g: Gentoo, selectors: seq<Atom>, a: Package, wanted: Verdict): Verdict {
    if selectors == [] then wanted
    else
      var v := CheckTargets(g, selectors[0], Targets(selectors[0], a), wanted);
      if v == wanted then CheckSelectors(g, selectors[1..], a, wanted) else v
  }

  /** Does p admit a?  Its requires must accept a, its conflicts must not. */
  function Admit(g: Gentoo, p: Package, a: Package): Verdict {
    if p.deps == [] && p.conflicts == [] then Admitted
    else if !g.parses(a.ToAtom()) then Failed
    else
      match CheckSelectors(g, p.deps, a, Admitted)
      case Failed => Failed
      case Rejected => Rejected
      case Admitted =>
        match CheckSelectors(g, p.conflicts, a, Rejected)
        case Failed => Failed
        case Rejected => Admitted
        case Admitted => Rejected
  }

  ghost predicate TargetVerdicts(g: Gentoo, r: Atom, targets: seq<Atom>, wanted: Verdict) {
    forall t :: t in targets ==> g.parses(r) && g.parses(t) && g.verdict(r, t) == wanted
  }

  /** The verdict on one comparison: an atom that does not parse makes it fail. */
  ghost function Compare(g: Gentoo, r: Atom, t: Atom): Verdict {
    if g.parses(r) && g.parses(t) then g.verdict(r, t) else Failed
  }

  /** The selector gets the wanted verdict on the version of a, if it names a, and else on all that a provides under
      its name. */
  ghost predicate SelectorVerdicts(g: Gentoo, r: Atom, a: Package, wanted: Verdict) {
    if r.name == a.name then Compare(g, r, Atom(a.name, a.version)) == wanted
    else forall t :: t in a.provs && t.name == r.name ==> Compare(g, r, t) == wanted
  }

  /** Every selector gets the wanted verdict on everything it speaks about. */
  ghost predicate AllVerdicts(g: Gentoo, selectors: seq<Atom>, a: Package, wanted: Verdict) {
    forall r :: r in selectors ==> SelectorVerdicts(g, r, a, wanted)
  }

  lemma {:induction false} NamedVerdicts(g: Gentoo, r: Atom, a: Package, wanted: Verdict)
    requires wanted != Failed
    ensures TargetVerdicts(g, r, Targets(r, a), wanted) <==> SelectorVerdicts(g, r, a, wanted)
  {
    if r.name == a.name {
      assert a.ToAtom() in Targets(r, a);
    }
  }

  lemma {:induction false} CheckTargetsMeaning(g: Gentoo, r: Atom, targets: seq<Atom>, wanted: Verdict)
    requires wanted != Failed
    ensures CheckTargets(g, r, targets, wanted) == wanted <==> TargetVerdicts(g, r, targets, wanted)
  {
    if targets != [] {
      assert forall t :: t in targets <==> t == targets[0] || t in targets[1..];
      CheckTargetsMeaning(g, r, targets[1..], wanted);
    }
  }

  lemma {:induction false} CheckSelectorsMeaning(g: Gentoo, selectors: seq<Atom>, a: Package, wanted: Verdict)
    requires wanted != Failed
    ensures CheckSelectors(g, selectors, a, wanted) == wanted <==> AllVerdicts(g, selectors, a, wanted)
  {
    if selectors != [] {
      assert forall r :: r in selectors <==> r == selectors[0] || r in selectors[1..];
      CheckTargetsMeaning(g, selectors[0], Targets(selectors[0], a), wanted);
      NamedVerdicts(g, selectors[0], a, wanted);
      CheckSelectorsMeaning(g, selectors[1..], a, wanted);
    }
  }

  /** The first comparison of the selector with the version of a, or with what a provides under its name, that does
      not give the wanted verdict gives v. */
  ghost predicate SelectorStops(g: Gentoo, r: Atom, a: Package, wanted: Verdict, v: Verdict) {
    if r.name == a.name then Compare(g, r, Atom(a.name, a.version)) == v else ProvideStops(g, r, a.provs, wanted, v)
  }

  ghost predicate ProvideStops(g: Gentoo, r: Atom, provs: seq<Atom>, wanted: Verdict, v: Verdict) {
    exists i :: StopsAt(g, r, provs, wanted, v, i)
  }

  ghost predicate StopsAt(g: Gentoo, r: Atom, provs: seq<Atom>, wanted: Verdict, v: Verdict, i: nat) {
    && i < |provs| && provs[i].name == r.name && Compare(g, r, provs[i]) == v
    && forall j :: 0 <= j < i && provs[j].name == r.name ==> Compare(g, r, provs[j]) == wanted
  }

  lemma ProvideStopsLater(g: Gentoo, r: Atom, provs: seq<Atom>, wanted: Verdict, v: Verdict)
    requires provs != [] && (provs[0].name != r.name || Compare(g, r, provs[0]) == wanted) && v != wanted
    ensures ProvideStops(g, r, provs, wanted, v) <==> ProvideStops(g, r, provs[1..], wanted, v)
  {
    hide Compare;
    var rest := provs[1..];
    if i: nat :| StopsAt(g, r, rest, wanted, v, i) {
      assert StopsAt(g, r, provs, wanted, v, i + 1);
    }
    if i: nat :| StopsAt(g, r, provs, wanted, v, i) {
      forall j | 0 <= j < i - 1 && rest[j].name == r.name ensures Compare(g, r, rest[j]) == wanted {
        assert rest[j] == provs[j + 1];
      }
      assert StopsAt(g, r, rest, wanted, v, i - 1);
    }
  }

  lemma ProvideStopsNow(g: Gentoo, r: Atom, provs: seq<Atom>, wanted: Verdict, v: Verdict)
    requires provs != [] && provs[0].name == r.name && Compare(g, r, provs[0]) != wanted
    ensures ProvideStops(g, r, provs, wanted, v) <==> Compare(g, r, provs[0]) == v
  {
    hide Compare;
    if Compare(g, r, provs[0]) == v {
      assert StopsAt(g, r, provs, wanted, v, 0);
    }
  }

  lemma {:induction false} NamedStops(g: Gentoo, r: Atom, provs: seq<Atom>, wanted: Verdict, v: Verdict)
    requires wanted != Failed && v != wanted
    ensures CheckTargets(g, r, ProvidesNamed(provs, r.name), wanted) == v <==> ProvideStops(g, r, provs, wanted, v)
  {
    if provs != [] {
      hide ProvideStops;
      if provs[0].name == r.name {
        assert ProvidesNamed(provs, r.name)[1..] == ProvidesNamed(provs[1..], r.name);
      }
      if provs[0].name != r.name || Compare(g, r, provs[0]) == wanted {
        NamedStops(g, r, provs[1..], wanted, v);
        ProvideStopsLater(g, r, provs, wanted, v);
      } else {
        ProvideStopsNow(g, r, provs, wanted, v);
      }
    }
  }

  lemma CheckTargetsStops(g: Gentoo, r: Atom, a: Package, wanted: Verdict, v: Verdict)
    requires wanted != Failed && v != wanted
    ensures CheckTargets(g, r, Targets(r, a), wanted) == v <==> SelectorStops(g, r, a, wanted, v)
  {
    if r.name == a.name {
      assert Targets(r, a)[1..] == [];
    } else {
      NamedStops(g, r, a.provs, wanted, v);
    }
  }

  /** The first selector that does not give the wanted verdict on all it speaks about stops with v. */
  ghost predicate StopsWith(g: Gentoo, selectors: seq<Atom>, a: Package, wanted: Verdict, v: Verdict) {
    exists i :: 0 <= i < |selectors| && SelectorStops(g, selectors[i], a, wanted, v)
                && AllVerdicts(g, selectors[..i], a, wanted)
  }

  lemma StopsLater(g: Gentoo, selectors: seq<Atom>, a: Package, wanted: Verdict, v: Verdict)
    requires selectors != [] && v != wanted && SelectorVerdicts(g, selectors[0], a, wanted)
    requires !SelectorStops(g, selectors[0], a, wanted, v)
    ensures StopsWith(g, selectors, a, wanted, v) <==> StopsWith(g, selectors[1..], a, wanted, v)
  {
    hide SelectorVerdicts, SelectorStops;
    var rest := selectors[1..];
    forall i | 0 <= i < |rest|
      ensures AllVerdicts(g, selectors[..i + 1], a, wanted) <==> AllVerdicts(g, rest[..i], a, wanted)
      ensures selectors[i + 1] == rest[i]
    {
      assert selectors[..i + 1] == [selectors[0]] + rest[..i];
    }
    if StopsWith(g, selectors, a, wanted, v) {
      var i :| 0 <= i < |selectors| && SelectorStops(g, selectors[i], a, wanted, v)
            && AllVerdicts(g, selectors[..i], a, wanted);
      assert rest[i - 1] == selectors[i];
    }
  }

  lemma StopsNow(g: Gentoo, selectors: seq<Atom>, a: Package, wanted: Verdict, v: Verdict)
    requires selectors != [] && !SelectorVerdicts(g, selectors[0], a, wanted)
    ensures StopsWith(g, selectors, a, wanted, v) <==> SelectorStops(g, selectors[0], a, wanted, v)
  {
    hide SelectorVerdicts, SelectorStops;
    assert selectors[..0] == [];
    forall i | 0 < i < |selectors| ensures !AllVerdicts(g, selectors[..i], a, wanted) {
      assert selectors[0] in selectors[..i];
    }
  }

  lemma {:induction false} CheckSelectorsStops(g: Gentoo, selectors: seq<Atom>, a: Package, wanted: Verdict, v: Verdict)
    requires wanted != Failed && v != wanted
    ensures CheckSelectors(g, selectors, a, wanted) == v <==> StopsWith(g, selectors, a, wanted, v)
  {
    if selectors != [] {
      hide SelectorVerdicts, SelectorStops, CheckTargets, StopsWith, TargetVerdicts;
      CheckTargetsMeaning(g, selectors[0], Targets(selectors[0], a), wanted);
      CheckTargetsStops(g, selectors[0], a, wanted, v);
      NamedVerdicts(g, selectors[0], a, wanted);
      if SelectorVerdicts(g, selectors[0], a, wanted) {
        CheckSelectorsStops(g, selectors[1..], a, wanted, v);
        StopsLater(g, selectors, a, wanted, v);
      } else {
        StopsNow(g, selectors, a, wanted, v);
      }
    }
  }

  /** When exactly a package is admitted, is rejected, and cannot be decided: its requires are compared in order
      until one does not accept, then its conflicts until one does. */
  lemma AdmitMeaning(g: Gentoo, p: Package, a: Package)
    ensures Admit(g, p, a) == Admitted <==>
              || (p.deps == [] && p.conflicts == [])
              || (g.parses(a.ToAtom()) && AllVerdicts(g, p.deps, a, Admitted) &&
                  AllVerdicts(g, p.conflicts, a, Rejected))
    ensures Admit(g, p, a) == Rejected <==>
              && !(p.deps == [] && p.conflicts == []) && g.parses(a.ToAtom())
              && (|| StopsWith(g, p.deps, a, Admitted, Rejected)
                  || (AllVerdicts(g, p.deps, a, Admitted) && StopsWith(g, p.conflicts, a, Rejected, Admitted)))
    ensures Admit(g, p, a) == Failed <==>
              && !(p.deps == [] && p.conflicts == [])
              && (|| !g.parses(a.ToAtom())
                  || StopsWith(g, p.deps, a, Admitted, Failed)
                  || (AllVerdicts(g, p.deps, a, Admitted) && StopsWith(g, p.conflicts, a, Rejected, Failed)))
  {
    hide AllVerdicts, StopsWith;
    CheckSelectorsMeaning(g, p.deps, a, Admitted);
    CheckSelectorsMeaning(g, p.conflicts, a, Rejected);
    CheckSelectorsStops(g, p.deps, a, Admitted, Rejected);
    CheckSelectorsStops(g, p.deps, a, Admitted, Failed);
    CheckSelectorsStops(g, p.conflicts, a, Rejected, Admitted);
    CheckSelectorsStops(g, p.conflicts, a, Rejected, Failed);
  }
}
