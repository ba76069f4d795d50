/** Requires that are met only by a name under analysis, and candidates that are left over when that name fails. */
module Leftovers {
  import opened Wrappers
  import opened Packages
  import opened Digraph
  import opened Resolver

  /** Which name leads to which, in the repositories. */
  ghost function Leading(env: Env, universe: set<string>): (g: Edges)
    ensures forall a, b :: (a, b) in g <==> a in universe && b in universe && Leads(env, a, b)
  {
    set a, b | a in universe && b in universe && Leads(env, a, b) :: (a, b)
  }

  /** All requires of the accepted version are installed, or a listed provider brings something admitted for them, or
      they are candidates. */
  ghost predicate ReallyMet(env: Env, v: View, k: string)
    requires k in v.accepted
  {
    forall r :: r in v.accepted[k].pkg.deps ==> Satisfied(env, v, v.candidates.Keys, v.accepted[k].pkg, r)
  }

  /** A require that leads to the stack closes a cycle, since the stack leads back to k. */
  lemma StackClosesCycle(env: Env, universe: set<string>, stack: seq<string>, k: string, n: string)
    requires Chain(env, stack + [k]) && n in stack && Leads(env, k, n)
    requires forall p :: p in env.pool ==> p.name in universe
    ensures OnCycle(Leading(env, universe), k)
  {
    var g := Leading(env, universe);
    var i :| 0 <= i < |stack| && stack[i] == n;
    var names := stack + [k];
    var w := [k] + names[i..];
    forall j | 0 <= j < |names| - 1 ensures names[j] in universe {
      assert Leads(env, names[j], names[j + 1]);
    }
    forall j | 0 <= j < |w| - 1 ensures (w[j], w[j + 1]) in g {
      if j > 0 {
        assert w[j] == names[i + j - 1] && w[j + 1] == names[i + j];
        assert Leads(env, names[i + j - 1], names[i + j]);
      }
    }
    assert ClosedWalk(g, w) && w[0] == k;
  }

  /** In every run, whatever failed: the requires of an accepted version are really met if its name lies on no cycle of
      requires in the repositories. */
  lemma MetOffCycle(env: Env, universe: set<string>, v: View, k: string)
    requires Valid(env, universe, v) && k in v.accepted && !OnCycle(Leading(env, universe), k)
    ensures ReallyMet(env, v, k)
  {
    hide OnCycle, Admit, ProvidedFor, Chain, IsInConflict, AdmittedByAll, Offers, Leads;
    AcceptedFacts(env, universe, v, k);
    AcceptedChain(env, universe, v, k);
    var p, stack := v.accepted[k].pkg, v.stacks[k];
    forall r | r in p.deps ensures Satisfied(env, v, v.candidates.Keys, p, r) {
      assert Satisfied(env, v, Done(v, stack), p, r);
      RequireClosesCycle(env, universe, stack, k, p, r);
    }
  }

  lemma RequireClosesCycle(env: Env, universe: set<string>, stack: seq<string>, k: string, p: Package, r: Atom)
    requires Chain(env, stack + [k]) && p in env.pool && p.name == k && r in p.deps
    requires forall p :: p in env.pool ==> p.name in universe
    ensures forall n :: n in stack && (n == r.name || FoundFor(env, r, n)) ==> OnCycle(Leading(env, universe), k)
  {
    hide OnCycle, Chain;
    forall n | n in stack && (n == r.name || FoundFor(env, r, n)) ensures OnCycle(Leading(env, universe), k) {
      assert Leads(env, k, n);
      StackClosesCycle(env, universe, stack, k, n);
    }
  }

  /** Over repositories without such cycles this is so for every accepted version. */
  lemma AcyclicIsMet(env: Env, universe: set<string>, v: View)
    requires Valid(env, universe, v) && Acyclic(Leading(env, universe))
    ensures forall k :: k in v.accepted ==> ReallyMet(env, v, k)
  {
    forall k | k in v.accepted ensures ReallyMet(env, v, k) {
      MetOffCycle(env, universe, v, k);
    }
  }
}
