/** The thin packages that the dependency sorter works on.  A package is known by its name
    ("category/name"); its requires are the names of other packages. */
module ThinPackages {
  import opened Wrappers
  import opened Digraph

  class PackageThin {
    const name: string
    var deps: seq<string>  // the Requires field

    constructor (name: string, deps: seq<string>)
      ensures this.name == name && this.deps == deps
    {
      this.name := name;
      this.deps := deps;
    }

    /** Does this package require m? */
    method RequirePackage(m: PackageThin) returns (found: bool)
      ensures found <==> m.name in deps
    {
      for i := 0 to |deps|
        invariant m.name !in deps[..i]
      {
        if deps[i] == m.name {
          return true;
        }
      }
      return false;
    }

    /** Drop every require that names a package of the stack. */
    method BreakCyclesOnRequires(stack: seq<string>)
      modifies this
      ensures deps == Without(old(deps), stack)
    {
      var kept := [];
      for i := 0 to |deps|
        invariant deps == old(deps)
        invariant kept == Without(deps[..i], stack)
      {
        assert deps[..i + 1] == deps[..i] + [deps[i]];
        if deps[i] !in stack {
          kept := kept + [deps[i]];
        }
      }
      assert deps[..|deps|] == deps;
      deps := kept;
    }
  }

  /** The elements of s that do not occur in drop, in their order. */
  ghost function Without(s: seq<string>, drop: seq<string>): (r: seq<string>)
    ensures forall x :: x in r <==> x in s && x !in drop
  {
    if s == [] then []
    else
      var init := Without(s[..|s| - 1], drop);
      var last := s[|s| - 1];
      assert s == s[..|s| - 1] + [last];
      if last in drop then init else init + [last]
  }

  /** Each element stays where it does not occur in drop, however often, and the order is kept. */
  lemma {:induction false} WithoutInOrder(s: seq<string>, drop: seq<string>) returns (at: seq<nat>)
    ensures KeepsInOrder(s, x => x !in drop, x => x, Without(s, drop), at)
  {
    at := [];
    if s != [] {
      var n: nat := |s| - 1;
      at := WithoutInOrder(s[..n], drop);
      KeepsNext(s, x => x !in drop, x => x, Without(s[..n], drop), at);
      if (x => x !in drop)(s[n]) {
        at := at + [n];
      }
    }
  }

  /** Requires by package name. */
  type Requires = map<string, seq<string>>

  /** The map is keyed by package name. */
  ghost predicate Keyed(queue: map<string, PackageThin>) {
    forall k :: k in queue ==> queue[k].name == k
  }

  ghost function Snapshot(queue: map<string, PackageThin>): (reqs: Requires)
    reads queue.Values
    ensures reqs.Keys == queue.Keys
  {
    map k | k in queue :: queue[k].deps
  }

  /** The requires relation restricted to the packages of the map. */
  ghost function EdgesOf(reqs: Requires): (g: Edges)
    ensures forall a, b :: (a, b) in g <==> a in reqs && b in reqs && b in reqs[a]
  {
    set a, b | a in reqs && b in reqs[a] && b in reqs :: (a, b)
  }

  /** Every require names a package of the map or an injected one. */
  ghost predicate QueueClosed(reqs: Requires, injected: set<string>) {
    forall k, r :: k in reqs && r in reqs[k] ==> r in reqs || r in injected
  }

  /** What breaking cycles may do: the requires of each package only shrink, and only requires
      that name a package of the map itself are lost. */
  ghost predicate Thinned(before: Requires, after: Requires) {
    && before.Keys == after.Keys
    && (forall k, r :: k in after && r in after[k] ==> r in before[k])
    && (forall k, r :: k in before && r in before[k] && r !in before ==> r in after[k])
  }

  lemma ThinnedKeepsClosed(before: Requires, after: Requires, injected: set<string>)
    requires Thinned(before, after)
    ensures QueueClosed(before, injected) <==> QueueClosed(after, injected)
    ensures EdgesOf(after) <= EdgesOf(before)
  {
  }

  lemma ThinnedTransitive(a: Requires, b: Requires, c: Requires)
    requires Thinned(a, b) && Thinned(b, c)
    ensures Thinned(a, c)
  {
  }
}
