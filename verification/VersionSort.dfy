/** The sorter of the versions of one package: it sorts what the version library makes of them, and then looks up an
    artefact for each by what the library prints. */
module VersionSort {
  import opened Wrappers
  import opened Packages
  import opened Resolver
  import BuildVersion

  /** A parsed name with its version. */
  datatype Parsed = Parsed(name: string, gp: BuildVersion.GentooPackage) {
    function Printed(): Atom {
      Atom(name, if gp.build == "" then gp.version + gp.suffix else gp.WithBuild(gp.build))
    }
  }

  /** What the version library parses, and how it sorts what it has parsed. */
  datatype Library = Library(parse: Atom -> Option<Parsed>, latestFirst: seq<Parsed> -> seq<Parsed>) {
    ghost predicate Valid() {
      forall g: seq<Parsed> :: multiset(latestFirst(g)) == multiset(g)
    }

    /** The library prints the version as it was before. */
    predicate Rereads(a: Atom) {
      parse(a).Some? && parse(a).value.Printed() == a
    }
  }

  /** A version comes back as it was if it is the version part, the suffix, and a plus sign with the build part unless
      that is empty. */
  lemma RereadsMeaning(lib: Library, a: Atom)
    ensures lib.Rereads(a) <==>
              && lib.parse(a).Some? && lib.parse(a).value.name == a.name
              && var gp := lib.parse(a).value.gp;
                 a.version == gp.version + gp.suffix + if gp.build == "" then "" else "+" + gp.build
  {
    var gp := if lib.parse(a).Some? then lib.parse(a).value.gp else BuildVersion.GentooPackage("", "", "");
    assert gp.version + gp.suffix + "+" + gp.build == gp.version + gp.suffix + ("+" + gp.build);
    assert gp.version + gp.suffix + "" == gp.version + gp.suffix;
  }

  /** So does a version that has been bumped, if the library reads it back into its parts. */
  lemma BumpedRereads(lib: Library, name: string, gp: BuildVersion.GentooPackage)
    requires lib.parse(Atom(name, gp.version + gp.suffix + "+" + BuildVersion.Bump(gp.build))) ==
             Some(Parsed(name, gp.(build := BuildVersion.Bump(gp.build))))
    ensures lib.Rereads(Atom(name, gp.version + gp.suffix + "+" + BuildVersion.Bump(gp.build)))
  {
    hide BuildVersion.Classify, BuildVersion.Increment;
    var bumped := BuildVersion.Bump(gp.build);
    assert bumped != "";
  }

  function ParseAll(lib: Library, arts: seq<Artifact>): Option<seq<Parsed>> {
    if arts == [] then Some([])
    else
      var last := |arts| - 1;
      var init := ParseAll(lib, arts[..last]);
      var p := lib.parse(arts[last].pkg.ToAtom());
      if init.None? || p.None? then None else Some(init.value + [p.value])
  }

  /** The first artefact of the version. */
  function FirstOf(arts: seq<Artifact>, a: Atom): Option<Artifact> {
    if arts == [] then None
    else if arts[0].pkg.ToAtom() == a then Some(arts[0])
    else FirstOf(arts[1..], a)
  }

  /** For each entry the first artefact of the version that it prints, if there is one. */
  function Pick(arts: seq<Artifact>, g: seq<Parsed>): seq<Artifact> {
    if g == [] then []
    else
      var init := Pick(arts, g[..|g| - 1]);
      match FirstOf(arts, g[|g| - 1].Printed())
      case None => init
      case Some(a) => init + [a]
  }

  function SortByVersion(lib: Library, arts: seq<Artifact>): Option<seq<Artifact>> {
    match ParseAll(lib, arts)
    case None => None
    case Some(g) => Some(Pick(arts, lib.latestFirst(g)))
  }

  method ParseEach(lib: Library, arts: seq<Artifact>) returns (r: Option<seq<Parsed>>)
    ensures r == ParseAll(lib, arts)
  {
    var glist := [];
    for i := 0 to |arts|
      invariant ParseAll(lib, arts[..i]) == Some(glist)
    {
      assert arts[..i + 1][..i] == arts[..i];
      var p := lib.parse(arts[i].pkg.ToAtom());
      if p.None? {
        ParseFails(lib, arts, i);
        return None;
      }
      glist := glist + [p.value];
    }
    assert arts[..|arts|] == arts;
    r := Some(glist);
  }

  /** The first artefact of the version, if any, at the end of those picked so far. */
  method AddFirst(arts: seq<Artifact>, pstr: Atom, picked: seq<Artifact>) returns (ans: seq<Artifact>)
    ensures ans == match FirstOf(arts, pstr) case None => picked case Some(a) => picked + [a]
  {
    assert arts[0..] == arts;
    for j := 0 to |arts|
      invariant FirstOf(arts, pstr) == FirstOf(arts[j..], pstr)
    {
      assert arts[j..][1..] == arts[j + 1..];
      if arts[j].pkg.ToAtom() == pstr {
        return picked + [arts[j]];
      }
    }
    return picked;
  }

  /** The sort, as the lists of two artefacts and more go through it. */
  method SortVersions(lib: Library, arts: seq<Artifact>) returns (r: Option<seq<Artifact>>)
    ensures r == SortByVersion(lib, arts)
  {
    var parsed := ParseEach(lib, arts);
    if parsed.None? {
      return None;
    }
    var glist := lib.latestFirst(parsed.value);
    var ans := [];
    for idx := 0 to |glist|
      invariant ans == Pick(arts, glist[..idx])
    {
      assert glist[..idx + 1][..idx] == glist[..idx];
      ans := AddFirst(arts, glist[idx].Printed(), ans);
    }
    assert glist[..|glist|] == glist;
    r := Some(ans);
  }

  lemma {:induction false} ParseFails(lib: Library, arts: seq<Artifact>, i: nat)
    requires i < |arts| && lib.parse(arts[i].pkg.ToAtom()).None?
    ensures ParseAll(lib, arts).None?
    decreases |arts|
  {
    if i < |arts| - 1 {
      ParseFails(lib, arts[..|arts| - 1], i);
    }
  }

  // ---------- what the sort keeps ----------

  lemma {:induction false} ParsedAt(lib: Library, arts: seq<Artifact>)
    requires ParseAll(lib, arts).Some?
    ensures var g := ParseAll(lib, arts).value;
      |g| == |arts| && forall i :: 0 <= i < |arts| ==> lib.parse(arts[i].pkg.ToAtom()) == Some(g[i])
  {
    if arts != [] {
      ParsedAt(lib, arts[..|arts| - 1]);
    }
  }

  lemma {:induction false} FirstIsFound(arts: seq<Artifact>, a: Atom)
    ensures var f := FirstOf(arts, a);
      && (f.Some? ==> f.value in arts && f.value.pkg.ToAtom() == a)
      && (f.None? ==> forall b :: b in arts ==> b.pkg.ToAtom() != a)
  {
    if arts != [] && arts[0].pkg.ToAtom() != a {
      FirstIsFound(arts[1..], a);
      assert arts == [arts[0]] + arts[1..];
    }
  }

  /** What is picked is from the list, and it is of each version that is printed and listed. */
  lemma {:induction false} Picked(arts: seq<Artifact>, g: seq<Parsed>)
    ensures forall b :: b in Pick(arts, g) ==> b in arts && FirstOf(arts, b.pkg.ToAtom()) == Some(b)
    ensures forall a, p :: a in arts && p in g && p.Printed() == a.pkg.ToAtom() ==>
              exists b :: b in Pick(arts, g) && b.pkg.ToAtom() == a.pkg.ToAtom()
    ensures forall b :: b in Pick(arts, g) ==> exists p :: p in g && p.Printed() == b.pkg.ToAtom()
  {
    if g != [] {
      var init, last := g[..|g| - 1], g[|g| - 1];
      assert g == init + [last];
      Picked(arts, init);
      FirstIsFound(arts, last.Printed());
    }
  }

  lemma SortedEntries(lib: Library, g: seq<Parsed>)
    requires lib.Valid()
    ensures forall p :: p in lib.latestFirst(g) <==> p in g
  {
    forall p ensures p in lib.latestFirst(g) <==> p in g {
      assert p in lib.latestFirst(g) <==> p in multiset(lib.latestFirst(g));
      assert p in g <==> p in multiset(g);
    }
  }

  /** Some artefact of the list is printed as this version. */
  ghost predicate PrintedBySome(lib: Library, arts: seq<Artifact>, a: Atom) {
    exists b :: b in arts && lib.parse(b.pkg.ToAtom()).Some? && lib.parse(b.pkg.ToAtom()).value.Printed() == a
  }

  /** The sort keeps every version exactly if each is what the library prints for some artefact of the list. */
  lemma SortKeepsExactly(lib: Library, arts: seq<Artifact>)
    requires lib.Valid() && SortByVersion(lib, arts).Some?
    ensures forall b :: b in SortByVersion(lib, arts).value ==> b in arts
    ensures KeepsVersions(arts, SortByVersion(lib, arts).value) <==>
            forall a :: a in arts ==> PrintedBySome(lib, arts, a.pkg.ToAtom())
  {
    var g := ParseAll(lib, arts).value;
    ParsedAt(lib, arts);
    SortedEntries(lib, g);
    Picked(arts, lib.latestFirst(g));
    forall a | a in arts
      ensures PrintedBySome(lib, arts, a.pkg.ToAtom()) <==> exists p :: p in g && p.Printed() == a.pkg.ToAtom()
    {
      if p :| p in g && p.Printed() == a.pkg.ToAtom() {
        var i :| 0 <= i < |g| && g[i] == p;
        assert arts[i] in arts;
      }
      if PrintedBySome(lib, arts, a.pkg.ToAtom()) {
        var b :| b in arts && lib.parse(b.pkg.ToAtom()).Some?
              && lib.parse(b.pkg.ToAtom()).value.Printed() == a.pkg.ToAtom();
        var i :| 0 <= i < |arts| && arts[i] == b;
        assert g[i] in g;
      }
    }
  }

  lemma {:induction false} AllParse(lib: Library, arts: seq<Artifact>)
    requires forall a :: a in arts ==> lib.parse(a.pkg.ToAtom()).Some?
    ensures ParseAll(lib, arts).Some?
  {
    if arts != [] {
      AllParse(lib, arts[..|arts| - 1]);
      assert arts[|arts| - 1] in arts;
    }
  }

  ghost function Versions(arts: seq<Artifact>): seq<Atom> {
    seq(|arts|, i requires 0 <= i < |arts| => arts[i].pkg.ToAtom())
  }

  ghost function PrintedAll(g: seq<Parsed>): seq<Atom> {
    seq(|g|, i requires 0 <= i < |g| => g[i].Printed())
  }

  lemma PrintedConcat(g: seq<Parsed>, h: seq<Parsed>)
    ensures PrintedAll(g + h) == PrintedAll(g) + PrintedAll(h)
  {
  }

  lemma VersionsAppend(arts: seq<Artifact>, a: Artifact)
    ensures Versions(arts + [a]) == Versions(arts) + [a.pkg.ToAtom()]
  {
  }

  /** When each entry prints a version of the list, the picks are of the versions printed, one by one. */
  lemma {:induction false} PickedVersions(arts: seq<Artifact>, g: seq<Parsed>)
    requires forall p :: p in g ==> FirstOf(arts, p.Printed()).Some?
    ensures Versions(Pick(arts, g)) == PrintedAll(g)
  {
    if g != [] {
      hide Versions, PrintedAll, Parsed.Printed, FirstOf;
      var init, last := g[..|g| - 1], g[|g| - 1];
      assert g == init + [last] && last in g;
      PickedVersions(arts, init);
      FirstIsFound(arts, last.Printed());
      PrintedConcat(init, [last]);
      OnePrinted(last);
      VersionsAppend(Pick(arts, init), FirstOf(arts, last.Printed()).value);
    }
  }

  lemma OnePrinted(p: Parsed)
    ensures PrintedAll([p]) == [p.Printed()]
  {
  }

  lemma OneLess(init: seq<Parsed>, before: seq<Parsed>, after: seq<Parsed>, x: Parsed)
    requires multiset(init + [x]) == multiset(before + [x] + after)
    ensures multiset(init) == multiset(before + after)
  {
    forall y ensures multiset(init)[y] == multiset(before + after)[y] {
      assert multiset(init + [x])[y] == multiset(init)[y] + multiset{x}[y];
      assert multiset(before + [x] + after)[y] == multiset(before)[y] + multiset{x}[y] + multiset(after)[y];
    }
  }

  lemma {:induction false} PrintedPermuted(g: seq<Parsed>, h: seq<Parsed>)
    requires multiset(g) == multiset(h)
    ensures multiset(PrintedAll(g)) == multiset(PrintedAll(h))
    decreases |g|
  {
    hide PrintedAll;
    if g == [] {
      assert |multiset(h)| == 0;
      assert h == g;
    } else {
      var x, init := g[|g| - 1], g[..|g| - 1];
      assert g == init + [x];
      assert x in multiset(h);
      var k :| 0 <= k < |h| && h[k] == x;
      var before, after := h[..k], h[k + 1..];
      assert h == before + [x] + after;
      OneLess(init, before, after, x);
      PrintedPermuted(init, before + after);
      PrintedConcat(init, [x]);
      PrintedConcat(before, after);
      PrintedConcat(before + [x], after);
      PrintedConcat(before, [x]);
    }
  }

  lemma ParsedPrints(lib: Library, arts: seq<Artifact>)
    requires forall a :: a in arts ==> lib.Rereads(a.pkg.ToAtom())
    ensures ParseAll(lib, arts).Some? && PrintedAll(ParseAll(lib, arts).value) == Versions(arts)
  {
    AllParse(lib, arts);
    ParsedAt(lib, arts);
    var g := ParseAll(lib, arts).value;
    forall i | 0 <= i < |arts| ensures g[i].Printed() == arts[i].pkg.ToAtom() {
      assert arts[i] in arts;
    }
  }

  lemma PrintedAreListed(arts: seq<Artifact>, g: seq<Parsed>)
    requires PrintedAll(g) == Versions(arts)
    ensures forall p :: p in g ==> FirstOf(arts, p.Printed()).Some?
  {
    forall p | p in g ensures FirstOf(arts, p.Printed()).Some? {
      var i :| 0 <= i < |g| && g[i] == p;
      assert PrintedAll(g)[i] == p.Printed() && |g| == |arts|;
      assert Versions(arts)[i] == arts[i].pkg.ToAtom() && arts[i] in arts;
      FirstIsFound(arts, p.Printed());
    }
  }

  /** A list of versions that the library prints as they are is sorted, without loss: each version comes as often as
      before, though always in the build that is listed first. */
  lemma RereadIsKept(lib: Library, arts: seq<Artifact>)
    requires lib.Valid() && forall a :: a in arts ==> lib.Rereads(a.pkg.ToAtom())
    ensures SortByVersion(lib, arts).Some?
    ensures var t := SortByVersion(lib, arts).value;
      && multiset(Versions(t)) == multiset(Versions(arts))
      && forall b :: b in t ==> FirstOf(arts, b.pkg.ToAtom()) == Some(b)
  {
    hide ParseAll, Pick, FirstOf, Versions, PrintedAll, Library.Rereads;
    ParsedPrints(lib, arts);
    var g := ParseAll(lib, arts).value;
    var h := lib.latestFirst(g);
    SortedEntries(lib, g);
    PrintedAreListed(arts, g);
    Picked(arts, h);
    PickedVersions(arts, h);
    PrintedPermuted(g, h);
  }

  /** Of two builds of one version the second is lost. */
  lemma BuildIsLost(lib: Library, a: Artifact, b: Artifact)
    requires lib.Valid() && lib.Rereads(a.pkg.ToAtom()) && a != b && a.pkg.ToAtom() == b.pkg.ToAtom()
    ensures SortByVersion(lib, [a, b]) == Some([a, a])
  {
    var arts := [a, b];
    RereadIsKept(lib, arts);
    var t := SortByVersion(lib, arts).value;
    assert |t| == 2 by {
      assert |multiset(Versions(t))| == |multiset(Versions(arts))|;
    }
    assert FirstOf(arts, a.pkg.ToAtom()) == Some(a);
    forall b | b in t ensures b == a {
      FirstIsFound(arts, b.pkg.ToAtom());
    }
    assert t[0] in t && t[1] in t && t == [a, a];
  }

  // ---------- the sorter of the resolver ----------

  /** The environment sorts with this library. */
  ghost predicate SortsWith(env: Env, lib: Library) {
    lib.Valid() && forall s :: env.sortVersions(s) == SortByVersion(lib, s)
  }

  ghost predicate PoolRereads(env: Env, lib: Library) {
    forall p :: p in env.pool ==> lib.Rereads(p.ToAtom())
  }

  /** Then sorting works and keeps all versions exactly if the library prints every version that is offered as it is. */
  lemma LibrarySorts(env: Env, lib: Library)
    requires SortsWith(env, lib)
    ensures SortingSucceeds(env) && SortingKeeps(env) <==> PoolRereads(env, lib)
    ensures forall s :: env.sortVersions(s).Some? ==> forall a :: a in env.sortVersions(s).value ==> a in s
  {
    hide SortByVersion, Library.Rereads;
    forall s, a | env.sortVersions(s).Some? && a in env.sortVersions(s).value ensures a in s {
      SortKeepsExactly(lib, s);
    }
    if PoolRereads(env, lib) {
      forall s | OneNamed(env, s)
        ensures env.sortVersions(s).Some? && KeepsVersions(s, env.sortVersions(s).value)
      {
        RereadKeeps(lib, s);
      }
    }
    if SortingSucceeds(env) && SortingKeeps(env) {
      forall p | p in env.pool ensures lib.Rereads(p.ToAtom()) {
        var s := [Artifact(p, []), Artifact(p, [])];
        assert OneNamed(env, s) && s[0] in s;
        KeptRereads(lib, s, p);
      }
    }
  }

  lemma RereadKeeps(lib: Library, arts: seq<Artifact>)
    requires lib.Valid() && forall a :: a in arts ==> lib.Rereads(a.pkg.ToAtom())
    ensures SortByVersion(lib, arts).Some? && KeepsVersions(arts, SortByVersion(lib, arts).value)
  {
    RereadIsKept(lib, arts);
    SortKeepsExactly(lib, arts);
    forall a | a in arts ensures PrintedBySome(lib, arts, a.pkg.ToAtom()) {
      assert lib.Rereads(a.pkg.ToAtom());
    }
  }

  lemma KeptRereads(lib: Library, arts: seq<Artifact>, p: Package)
    requires lib.Valid() && arts == [Artifact(p, []), Artifact(p, [])]
    requires SortByVersion(lib, arts).Some? && KeepsVersions(arts, SortByVersion(lib, arts).value)
    ensures lib.Rereads(p.ToAtom())
  {
    hide KeepsVersions, SortByVersion;
    SortKeepsExactly(lib, arts);
    assert arts[0] in arts && arts[0].pkg == p;
    assert PrintedBySome(lib, arts, p.ToAtom());
  }

  // ---------- the order ----------

  /** The library puts later versions of a package first. */
  ghost predicate LatestFirst(lib: Library, leq: (string, string) -> bool) {
    forall g, i, j :: 0 <= i < j < |lib.latestFirst(g)| && OneParsed(g) ==>
      leq(lib.latestFirst(g)[j].Printed().version, lib.latestFirst(g)[i].Printed().version)
  }

  ghost predicate OneParsed(g: seq<Parsed>) {
    forall p, q :: p in g && q in g ==> p.name == q.name
  }

  /** So does the sort. */
  lemma SortDescends(env: Env, lib: Library, leq: (string, string) -> bool, s: seq<Artifact>)
    requires SortsWith(env, lib) && PoolRereads(env, lib) && LatestFirst(lib, leq) && OneNamed(env, s)
    ensures env.sortVersions(s).Some?
    ensures var t := env.sortVersions(s).value;
      forall i, j :: 0 <= i < j < |t| ==> leq(t[j].pkg.version, t[i].pkg.version)
  {
    AllParse(lib, s) by {
      assert forall a :: a in s ==> lib.Rereads(a.pkg.ToAtom());
    }
    var g := ParseAll(lib, s).value;
    var h := lib.latestFirst(g);
    ParsedAt(lib, s);
    SortedEntries(lib, g);
    forall i | 0 <= i < |g| ensures g[i].Printed() == s[i].pkg.ToAtom() {
      assert s[i] in s && lib.Rereads(s[i].pkg.ToAtom());
    }
    forall p | p in h ensures FirstOf(s, p.Printed()).Some? {
      var i :| 0 <= i < |g| && g[i] == p;
      FirstIsFound(s, p.Printed());
    }
    PickedVersions(s, h);
    assert OneParsed(g) by {
      forall i | 0 <= i < |g| ensures g[i].name == s[i].pkg.name {
        assert g[i].Printed().name == g[i].name;
      }
    }
    var t := env.sortVersions(s).value;
    forall i, j | 0 <= i < j < |t| ensures leq(t[j].pkg.version, t[i].pkg.version) {
      assert Versions(t)[i] == h[i].Printed() && Versions(t)[j] == h[j].Printed();
    }
  }
}
