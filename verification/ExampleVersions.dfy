/** Versions of one digit, a version library for them, and the sorters of the examples. */
module ExampleVersions {
  import opened Wrappers
  import opened Packages
  import opened Resolver
  import BuildVersion
  import VersionSort

  /** Versions 1, 2 and later ones. */
  function Age(version: string): int {
    if version == "1" then 1 else if version == "2" then 2 else 3
  }

  predicate Leq(a: string, b: string) {
    Age(a) <= Age(b)
  }

  function Insert<T>(x: T, s: seq<T>, age: T -> int): (r: seq<T>)
    requires forall i, j :: 0 <= i < j < |s| ==> age(s[j]) <= age(s[i])
    ensures multiset(r) == multiset(s) + multiset{x}
    ensures forall i, j :: 0 <= i < j < |r| ==> age(r[j]) <= age(r[i])
    ensures |r| > 0 && (r[0] == x || (|s| > 0 && r[0] == s[0]))
  {
    if s == [] || age(s[0]) <= age(x) then [x] + s
    else
      assert s == [s[0]] + s[1..];
      [s[0]] + Insert(x, s[1..], age)
  }

  /** Later versions first. */
  function Rank<T>(s: seq<T>, age: T -> int): (ranked: seq<T>)
    ensures multiset(ranked) == multiset(s)
    ensures forall i, j :: 0 <= i < j < |ranked| ==> age(ranked[j]) <= age(ranked[i])
  {
    if s == [] then []
    else
      assert s == [s[0]] + s[1..];
      Insert(s[0], Rank(s[1..], age), age)
  }

  function RankArtifacts(s: seq<Artifact>): seq<Artifact> {
    Rank(s, (a: Artifact) => Age(a.pkg.version))
  }

  function RankParsed(g: seq<VersionSort.Parsed>): seq<VersionSort.Parsed> {
    Rank(g, (p: VersionSort.Parsed) => Age(p.Printed().version))
  }

  function Parse(a: Atom): Option<VersionSort.Parsed> {
    Some(VersionSort.Parsed(a.name, BuildVersion.GentooPackage(a.version, "", "")))
  }

  const Lib := VersionSort.Library((a: Atom) => Parse(a), (g: seq<VersionSort.Parsed>) => RankParsed(g))

  /** The library prints every version as it was, and sorts by age. */
  lemma Sorts(env: Env)
    requires forall s :: env.sortVersions(s) == VersionSort.SortByVersion(Lib, s)
    ensures VersionSort.SortsWith(env, Lib) && VersionSort.PoolRereads(env, Lib)
    ensures VersionSort.LatestFirst(Lib, Leq)
  {
    hide VersionSort.SortByVersion, Rank;
    forall p | p in env.pool ensures Lib.Rereads(p.ToAtom()) {
      assert p.version + "" == p.version;
    }
  }

  lemma RankTwo(p: VersionSort.Parsed, q: VersionSort.Parsed)
    requires Age(q.Printed().version) < Age(p.Printed().version)
    ensures RankParsed([p, q]) == [p, q]
  {
    hide Rank;
    var r := RankParsed([p, q]);
    assert |r| == |multiset(r)| == |multiset([p, q])| == 2;
    assert r[0] in multiset(r) && r[1] in multiset(r);
    assert q in multiset(r) && p in multiset(r);
    assert r[0] in [p, q] && r[1] in [p, q] && q in r && p in r;
  }

  lemma PickTwo(a: Artifact, b: Artifact, p: VersionSort.Parsed, q: VersionSort.Parsed)
    requires p.Printed() == a.pkg.ToAtom() && q.Printed() == b.pkg.ToAtom() && p.Printed() != q.Printed()
    ensures VersionSort.Pick([a, b], [p, q]) == [a, b]
  {
    var arts := [a, b];
    assert arts[1..] == [b] && [p, q][..1] == [p] && [p][..0] == [];
    assert VersionSort.FirstOf([b], b.pkg.ToAtom()) == Some(b);
    assert VersionSort.FirstOf(arts, b.pkg.ToAtom()) == Some(b);
    assert VersionSort.Pick(arts, []) == [];
    assert VersionSort.Pick(arts, [p]) == [a];
  }

  /** Two versions in the right order stay as they are. */
  lemma TwoSorted(a: Artifact, b: Artifact)
    requires a.pkg.name == b.pkg.name && Age(b.pkg.version) < Age(a.pkg.version)
    ensures VersionSort.SortByVersion(Lib, [a, b]) == Some([a, b])
  {
    hide VersionSort.Pick, Rank, RankParsed, Age;
    var arts, p, q := [a, b], Parse(a.pkg.ToAtom()).value, Parse(b.pkg.ToAtom()).value;
    assert a.pkg.version + "" == a.pkg.version && b.pkg.version + "" == b.pkg.version;
    assert Lib.parse(a.pkg.ToAtom()) == Some(p);
    assert Lib.parse(b.pkg.ToAtom()) == Some(q);
    assert arts[..|arts| - 1] == [a] && [a][..|[a]| - 1] == [];
    assert [] + [p] == [p] && [p] + [q] == [p, q];
    assert VersionSort.ParseAll(Lib, []) == Some([]);
    assert VersionSort.ParseAll(Lib, [a]) == Some([p]);
    assert VersionSort.ParseAll(Lib, arts) == Some([p, q]);
    RankTwo(p, q);
    PickTwo(a, b, p, q);
  }
}
