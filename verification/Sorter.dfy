/** The dependency sorter: a worklist over the packages to install, with the cycle detector as a fallback. */
module Sorter {
  import opened Wrappers
  import opened Digraph
  import opened ThinPackages
  import opened CycleDetector

  ghost predicate DistinctNames(arr: seq<PackageThin>) {
    forall i, j :: 0 <= i < j < |arr| ==> arr[i].name != arr[j].name
  }

  ghost function Names(arr: seq<PackageThin>): (names: seq<string>)
    ensures |names| == |arr| && forall i :: 0 <= i < |arr| ==> names[i] == arr[i].name
  {
    seq(|arr|, i requires 0 <= i < |arr| => arr[i].name)
  }

  ghost function ByName(arr: seq<PackageThin>): (all: map<string, PackageThin>)
    requires DistinctNames(arr)
    ensures Keyed(all) && forall k :: k in all ==> all[k] in arr
    ensures forall p :: p in arr ==> p.name in all && all[p.name] == p
  {
    map p | p in arr :: p.name := p
  }

  ghost function RequiresOf(arr: seq<PackageThin>): Requires
    requires DistinctNames(arr)
    reads arr
  {
    Snapshot(ByName(arr))
  }

  /** Every require names one of the packages. */
  ghost predicate Closed(reqs: Requires) {
    QueueClosed(reqs, {})
  }

  ghost predicate Ready(deps: seq<string>, injected: set<string>) {
    forall r :: r in deps ==> r in injected
  }

  ghost predicate NoneReady(reqs: Requires, injected: set<string>) {
    forall k :: k in reqs ==> !Ready(reqs[k], injected)
  }

  /** How many requires, in order, are met before the first one that is not. */
  ghost function Met(deps: seq<string>, before: set<string>): (n: nat)
    ensures n <= |deps| && forall k :: 0 <= k < n ==> deps[k] in before
    ensures n < |deps| ==> deps[n] !in before
  {
    if deps == [] || deps[0] !in before then 0 else 1 + Met(deps[1..], before)
  }

  /** The first require of p that is not met by the packages before it, if there is one, is a
      package that required p in turn. */
  ghost predicate Admissible(reqs0: Requires, deps: seq<string>, p: string, before: set<string>) {
    var n := Met(deps, before);
    n < |deps| ==> deps[n] in reqs0 && p in reqs0[deps[n]]
  }

  ghost function Elements(s: seq<string>): set<string> {
    set x | x in s
  }

  ghost predicate Justified(reqs0: Requires, reqs: Requires, order: seq<string>) {
    forall i :: 0 <= i < |order| ==>
      order[i] in reqs && Admissible(reqs0, reqs[order[i]], order[i], Elements(order[..i]))
  }

  /** Every package comes after all its requires. */
  ghost predicate DependenciesFirst(reqs: Requires, order: seq<string>) {
    forall i, r :: 0 <= i < |order| && order[i] in reqs && r in reqs[order[i]] ==> r in order[..i]
  }

  /** The state of the worklist: what is in the answer, and what is queued. */
  ghost predicate Worklist(reqs0: Requires, reqs: Requires, order: seq<string>, injected: set<string>,
                           queued: set<string>) {
    && NoRepeats(order)
    && injected == Elements(order)
    && injected !! queued
    && injected + queued <= reqs.Keys
    && Justified(reqs0, reqs, order)
    && Thinned(reqs0, reqs)
  }

  lemma Inject(reqs0: Requires, reqs: Requires, order: seq<string>, injected: set<string>, queued: set<string>,
               p: string)
    requires Worklist(reqs0, reqs, order, injected, queued) && p !in injected && p in reqs
    requires Admissible(reqs0, reqs[p], p, injected)
    ensures Worklist(reqs0, reqs, order + [p], injected + {p}, queued - {p})
  {
    var order' := order + [p];
    forall i | 0 <= i < |order'|
      ensures order'[i] in reqs && Admissible(reqs0, reqs[order'[i]], order'[i], Elements(order'[..i]))
    {
      if i < |order| {
        assert order'[..i] == order[..i] && order'[i] == order[i];
      } else {
        assert order'[..i] == order;
      }
    }
  }

  /** In an acyclic graph no two packages require each other, so a justified order that holds
      every package puts dependencies first, and every require names a package. */
  lemma {:induction false} JustifiedAcyclicOrder(reqs: Requires, order: seq<string>)
    requires Justified(reqs, reqs, order) && Acyclic(EdgesOf(reqs)) && Elements(order) == reqs.Keys
    ensures DependenciesFirst(reqs, order) && Closed(reqs)
  {
    forall i, r | 0 <= i < |order| && r in reqs[order[i]] ensures r in order[..i] {
      var p := order[i];
      var n := Met(reqs[p], Elements(order[..i]));
      if n < |reqs[p]| {
        assert ClosedWalk(EdgesOf(reqs), [p, reqs[p][n], p]);
        assert false;
      }
    }
    forall k, r | k in reqs && r in reqs[k] ensures r in reqs {
      assert k in Elements(order);
      var i :| 0 <= i < |order| && order[i] == k;
      assert r in order[..i] && r in Elements(order);
    }
  }

  /** The requires of p are injected up to the first one that is not, if any; with breakPairs that
      one may be a queued package that requires p. */
  ghost predicate Injectable(queue: Requires, deps: seq<string>, p: string, injected: set<string>, breakPairs: bool) {
    var n := Met(deps, injected);
    n < |deps| ==> breakPairs && deps[n] in queue && p in queue[deps[n]]
  }

  /** The first require of p that is not injected is queued, and requires p. */
  ghost predicate BreaksPair(p: PackageThin, queue: map<string, PackageThin>, injected: set<string>)
    reads p, queue.Values
  {
    exists n :: 0 <= n < |p.deps| && p.deps[n] !in injected && p.deps[n] in queue
                && p.name in queue[p.deps[n]].deps && forall k :: 0 <= k < n ==> p.deps[k] in injected
  }

  method IsInjectable(p: PackageThin, queue: map<string, PackageThin>, injected: set<string>, breakPairs: bool)
    returns (ok: bool)
    ensures ok <==> Injectable(Snapshot(queue), p.deps, p.name, injected, breakPairs)
    ensures Ready(p.deps, injected) ==> ok
    ensures ok <==> (forall r :: r in p.deps ==> r in injected) || (breakPairs && BreaksPair(p, queue, injected))
  {
    for i := 0 to |p.deps|
      invariant forall k :: 0 <= k < i ==> p.deps[k] in injected
    {
      var r := p.deps[i];
      if r !in injected {
        // Check if there are dependency cycles.
        if breakPairs && r in queue {
          ok := queue[r].RequirePackage(p);
        } else {
          ok := false;
        }
        return;
      }
    }
    return true;
  }

  /** The local state of the sorter: the answer so far, the names in it, and the queue. */
  datatype Work = Work(ans: seq<PackageThin>, injected: set<string>, queue: map<string, PackageThin>) {
    function Inject(p: PackageThin): Work {
      Work(ans + [p], injected + {p.name}, queue)
    }

    function Enqueue(p: PackageThin): Work {
      this.(queue := queue[p.name := p])
    }

    function DeleteAll(removed: set<string>): Work {
      this.(queue := queue - removed)
    }

    /** Every package of the state is the one that all has under its name. */
    ghost predicate Known(all: map<string, PackageThin>) {
      && (forall k :: k in queue ==> k in all && queue[k] == all[k])
      && (forall p :: p in ans ==> p.name in all && all[p.name] == p)
    }

    ghost predicate Valid(all: map<string, PackageThin>, reqs0: Requires, reqs: Requires) {
      && Keyed(all) && reqs.Keys == all.Keys
      && Known(all)
      && Worklist(reqs0, reqs, Names(ans), injected, queue.Keys)
    }
  }

  lemma NamesAppend(ans: seq<PackageThin>, p: PackageThin)
    ensures Names(ans + [p]) == Names(ans) + [p.name]
  {
  }

  lemma InjectQueued(reqs0: Requires, reqs: Requires, queue: Requires, order: seq<string>, injected: set<string>,
                     queued: set<string>, p: string, breakPairs: bool)
    requires Worklist(reqs0, reqs, order, injected, queued) && p in queued
    requires forall k :: k in queue ==> k in reqs && queue[k] == reqs[k]
    requires Injectable(queue, reqs[p], p, injected, breakPairs)
    ensures Worklist(reqs0, reqs, order + [p], injected + {p}, queued - {p})
  {
    assert Admissible(reqs0, reqs[p], p, injected) by {
      var n := Met(reqs[p], injected);
      if n < |reqs[p]| {
        var r := reqs[p][n];
        assert r in reqs && p in reqs[r];
        assert r in reqs0 && p in reqs0[r];
      }
    }
    Inject(reqs0, reqs, order, injected, queued, p);
  }

  /** From position `from` on, each package of the queue was injectable when its turn came. */
  ghost predicate Turns(queue: Requires, order: seq<string>, from: nat, breakPairs: bool) {
    forall i :: from <= i < |order| ==>
      order[i] in queue && Injectable(queue, queue[order[i]], order[i], Elements(order[..i]), breakPairs)
  }

  lemma TurnsAppend(queue: Requires, order: seq<string>, from: nat, breakPairs: bool, p: string)
    requires Turns(queue, order, from, breakPairs) && p in queue
    requires Injectable(queue, queue[p], p, Elements(order), breakPairs)
    ensures Turns(queue, order + [p], from, breakPairs)
  {
    hide Injectable;
    var order' := order + [p];
    forall i | from <= i < |order'|
      ensures order'[i] in queue && Injectable(queue, queue[order'[i]], order'[i], Elements(order'[..i]), breakPairs)
    {
      if i < |order| {
        assert order'[..i] == order[..i] && order'[i] == order[i];
      } else {
        assert order'[..i] == order;
      }
    }
  }

  /** A pass over the queue of w0 in progress: removed was injected so far, giving w, and rest is
      still to be looked at.  Nothing is deleted from the queue yet. */
  ghost predicate Pass(all: map<string, PackageThin>, reqs0: Requires, reqs: Requires, w0: Work, w: Work,
                       removed: set<string>, rest: set<string>, breakPairs: bool) {
    && Keyed(all) && reqs.Keys == all.Keys && w.Known(all) && w.queue == w0.queue
    && rest <= w.queue.Keys && removed <= w.queue.Keys && removed !! rest
    && w.injected == w0.injected + removed
    && Worklist(reqs0, reqs, Names(w.ans), w.injected, w.queue.Keys - removed)
    && w0.ans <= w.ans && Turns(Part(reqs, w0.queue.Keys), Names(w.ans), |w0.ans|, breakPairs)
    && (forall k :: k in w.queue && k !in rest && k !in removed ==> !Ready(reqs[k], w0.injected))
    && (removed == {} ==> w == w0 && NoneTaken(reqs, w.queue.Keys, w0.injected, rest, breakPairs))
  }

  /** Of the queue only what is still to be looked at may be injectable. */
  ghost predicate NoneTaken(reqs: Requires, queued: set<string>, injected: set<string>, rest: set<string>,
                            breakPairs: bool)
    requires queued <= reqs.Keys
  {
    forall k :: k in queued && k !in rest ==> !Injectable(Part(reqs, queued), reqs[k], k, injected, breakPairs)
  }

  lemma PassStart(all: map<string, PackageThin>, reqs0: Requires, reqs: Requires, w: Work, breakPairs: bool)
    requires w.Valid(all, reqs0, reqs)
    ensures Pass(all, reqs0, reqs, w, w, {}, w.queue.Keys, breakPairs)
  {
    assert w.queue.Keys - {} == w.queue.Keys;
  }

  lemma PassInject(all: map<string, PackageThin>, reqs0: Requires, reqs: Requires, w0: Work, w: Work,
                   removed: set<string>, rest: set<string>, k: string, breakPairs: bool)
    requires Pass(all, reqs0, reqs, w0, w, removed, rest, breakPairs) && k in rest
    requires Injectable(Part(reqs, w.queue.Keys), reqs[k], k, w.injected, breakPairs)
    ensures Pass(all, reqs0, reqs, w0, w.Inject(w.queue[k]), removed + {k}, rest - {k}, breakPairs)
  {
    hide Injectable, Turns, NoneTaken, Worklist, Ready;
    var q := w.queue.Keys;
    InjectQueued(reqs0, reqs, Part(reqs, q), Names(w.ans), w.injected, q - removed, k, breakPairs);
    WorklistInjected(reqs0, reqs, Names(w.ans), w.injected, q - removed);
    TurnsAppend(Part(reqs, q), Names(w.ans), |w0.ans|, breakPairs, k);
    NamesAppend(w.ans, w.queue[k]);
    assert q - removed - {k} == q - (removed + {k});
    assert w0.injected + removed + {k} == w0.injected + (removed + {k});
  }

  lemma WorklistInjected(reqs0: Requires, reqs: Requires, order: seq<string>, injected: set<string>,
                         queued: set<string>)
    requires Worklist(reqs0, reqs, order, injected, queued)
    ensures injected == Elements(order)
  {
  }

  lemma PassSkip(all: map<string, PackageThin>, reqs0: Requires, reqs: Requires, w0: Work, w: Work,
                 removed: set<string>, rest: set<string>, k: string, breakPairs: bool)
    requires Pass(all, reqs0, reqs, w0, w, removed, rest, breakPairs) && k in rest && !Ready(reqs[k], w.injected)
    requires !Injectable(Part(reqs, w.queue.Keys), reqs[k], k, w.injected, breakPairs)
    ensures Pass(all, reqs0, reqs, w0, w, removed, rest - {k}, breakPairs)
  {
    hide Injectable, Turns, Worklist;
  }

  /** What a whole pass does: w1 extends w0 by packages that were injectable in their turn, all that were ready among
      them; and it is w0 only if nothing was injectable. */
  ghost predicate Swept(all: map<string, PackageThin>, reqs0: Requires, reqs: Requires, w0: Work, w1: Work,
                        breakPairs: bool) {
    && w1.Valid(all, reqs0, reqs)
    && w1.queue.Keys <= w0.queue.Keys
    && w1.injected + w1.queue.Keys == w0.injected + w0.queue.Keys
    && (w1 != w0 ==> |w1.queue| < |w0.queue|)
    && w0.ans <= w1.ans && Turns(Part(reqs, w0.queue.Keys), Names(w1.ans), |w0.ans|, breakPairs)
    && NoneReady(Part(reqs, w1.queue.Keys), w0.injected)
    && (w1 == w0 ==> w0.queue.Keys <= reqs.Keys && NoneTaken(reqs, w0.queue.Keys, w0.injected, {}, breakPairs))
  }

  lemma PassEnd(all: map<string, PackageThin>, reqs0: Requires, reqs: Requires, w0: Work, w: Work, removed: set<string>,
                breakPairs: bool)
    requires Pass(all, reqs0, reqs, w0, w, removed, {}, breakPairs)
    ensures Swept(all, reqs0, reqs, w0, w.DeleteAll(removed), breakPairs)
  {
    hide Worklist, Ready, Keyed, NoneReady, Turns, NoneTaken;
    LeftNotReady(reqs, w.queue.Keys, w0.injected, removed);
    assert w.DeleteAll(removed).queue.Keys == w.queue.Keys - removed;
    if removed == {} {
      assert w0.queue - {} == w0.queue;
      assert w0.queue.Keys - {} == w0.queue.Keys;
      assert w.DeleteAll({}) == w0;
    } else {
      MovedKeys(w0.injected, w0.queue.Keys, removed);
      FewerKeys(w0.queue.Keys, removed);
    }
  }

  lemma LeftNotReady(reqs: Requires, queued: set<string>, injected: set<string>, removed: set<string>)
    requires queued <= reqs.Keys && forall k :: k in queued && k !in removed ==> !Ready(reqs[k], injected)
    ensures NoneReady(Part(reqs, queued - removed), injected)
  {
    hide Ready;
  }

  lemma MovedKeys(injected: set<string>, queued: set<string>, removed: set<string>)
    requires removed <= queued
    ensures injected + removed + (queued - removed) == injected + queued
  {
  }

  lemma FewerKeys(keys: set<string>, removed: set<string>)
    requires removed <= keys && removed != {}
    ensures |keys - removed| < |keys|
  {
    assert keys == (keys - removed) + removed;
  }

  ghost function Part(reqs: Requires, queued: set<string>): Requires {
    map k | k in queued && k in reqs :: reqs[k]
  }

  lemma PartOfSnapshot(all: map<string, PackageThin>, queue: map<string, PackageThin>)
    requires forall k :: k in queue ==> k in all && queue[k] == all[k]
    ensures Snapshot(queue) == Part(Snapshot(all), queue.Keys)
  {
  }

  /** One pass over the queue, in any order.  What becomes injectable is injected at once and is deleted
      from the queue only after the pass. */
  method Sweep(w0: Work, breakPairs: bool, ghost all: map<string, PackageThin>, ghost reqs0: Requires)
    returns (w: Work)
    requires w0.Valid(all, reqs0, Snapshot(all))
    ensures Swept(all, reqs0, Snapshot(all), w0, w, breakPairs)
  {
    hide Worklist, Injectable, Ready, Swept, Work.DeleteAll, Work.Inject, Turns, NoneTaken;
    ghost var reqs := Snapshot(all);
    w := w0;
    var pkgs2remove := {};
    var rest := w.queue.Keys;
    PassStart(all, reqs0, reqs, w, breakPairs);
    while rest != {}
      invariant Pass(all, reqs0, reqs, w0, w, pkgs2remove, rest, breakPairs)
    {
      var k :| k in rest;
      var p := w.queue[k];
      PartOfSnapshot(all, w.queue);
      var ok := IsInjectable(p, w.queue, w.injected, breakPairs);
      if ok {
        PassInject(all, reqs0, reqs, w0, w, pkgs2remove, rest, k, breakPairs);
        w := w.Inject(p);
        pkgs2remove := pkgs2remove + {k};
      } else {
        PassSkip(all, reqs0, reqs, w0, w, pkgs2remove, rest, k, breakPairs);
      }
      rest := rest - {k};
    }
    PassEnd(all, reqs0, reqs, w0, w, pkgs2remove, breakPairs);
    w := w.DeleteAll(pkgs2remove);
  }

  /** The first pass over the input in progress: the first n packages are injected or queued. */
  ghost predicate FirstPassing(arr: seq<PackageThin>, n: nat, all: map<string, PackageThin>, reqs: Requires, w: Work) {
    && DistinctNames(arr) && all == ByName(arr) && n <= |arr|
    && w.Valid(all, reqs, reqs)
    && w.injected + w.queue.Keys == Elements(Names(arr[..n]))
  }

  lemma FirstPassStart(arr: seq<PackageThin>, reqs: Requires)
    requires DistinctNames(arr) && reqs.Keys == ByName(arr).Keys
    ensures FirstPassing(arr, 0, ByName(arr), reqs, Work([], {}, map[]))
  {
    assert Names(arr[..0]) == [] && Names([]) == [];
    assert Worklist(reqs, reqs, [], {}, {});
  }

  lemma NextInput(arr: seq<PackageThin>, n: nat)
    requires DistinctNames(arr) && n < |arr|
    ensures Elements(Names(arr[..n + 1])) == Elements(Names(arr[..n])) + {arr[n].name}
    ensures arr[n].name !in Elements(Names(arr[..n]))
    ensures arr[n].name in ByName(arr) && ByName(arr)[arr[n].name] == arr[n]
  {
    assert arr[..n + 1] == arr[..n] + [arr[n]];
    NamesAppend(arr[..n], arr[n]);
    assert arr[n] in arr;
  }

  lemma FirstPassInject(arr: seq<PackageThin>, n: nat, all: map<string, PackageThin>, reqs: Requires, w: Work,
                        deps: seq<string>)
    requires FirstPassing(arr, n, all, reqs, w) && n < |arr|
    requires arr[n].name in reqs ==> deps == reqs[arr[n].name]
    requires Ready(deps, w.injected)
    ensures FirstPassing(arr, n + 1, all, reqs, w.Inject(arr[n]))
  {
    NextInput(arr, n);
    ReadyIsAdmissible(reqs, deps, arr[n].name, w.injected);
    Inject(reqs, reqs, Names(w.ans), w.injected, w.queue.Keys, arr[n].name);
    NamesAppend(w.ans, arr[n]);
    assert w.queue.Keys - {arr[n].name} == w.queue.Keys;
  }

  lemma ReadyIsAdmissible(reqs0: Requires, deps: seq<string>, p: string, before: set<string>)
    requires Ready(deps, before)
    ensures Admissible(reqs0, deps, p, before)
  {
  }

  lemma FirstPassEnqueue(arr: seq<PackageThin>, n: nat, all: map<string, PackageThin>, reqs: Requires, w: Work)
    requires FirstPassing(arr, n, all, reqs, w) && n < |arr|
    ensures FirstPassing(arr, n + 1, all, reqs, w.Enqueue(arr[n]))
  {
    NextInput(arr, n);
    assert w.Enqueue(arr[n]).queue.Keys == w.queue.Keys + {arr[n].name};
  }

  lemma FirstPassSwept(arr: seq<PackageThin>, n: nat, all: map<string, PackageThin>, reqs: Requires, w: Work, w1: Work)
    requires FirstPassing(arr, n, all, reqs, w) && Swept(all, reqs, reqs, w, w1, false)
    ensures FirstPassing(arr, n, all, reqs, w1)
  {
    hide Worklist, Turns, NoneTaken, NoneReady;
  }

  // ---------- what the first pass takes ----------

  /** All requires of the input at i come before it, and so do theirs, and so on. */
  ghost predicate Preceded(names: seq<string>, reqs: Requires, i: nat)
    requires i < |names|
    decreases i
  {
    forall r :: names[i] in reqs && r in reqs[names[i]] ==>
      exists j :: 0 <= j < i && names[j] == r && Preceded(names, reqs, j)
  }

  /** The input at l, the last of the inputs in the answer, stands before position m; whatever of the first n inputs is
      not in the answer lacks a require among those before m. */
  ghost predicate LastTaken(names: seq<string>, n: nat, reqs: Requires, order: seq<string>, m: nat, l: nat)
    requires n <= |names|
  {
    && m <= |order|
    && (if m == 0 then order == []
        else l < n && order[m - 1] == names[l] && forall x :: x in order ==> x in names[..l + 1])
    && forall k :: k in names[..n] && k !in order && k in reqs ==> exists r :: r in reqs[k] && r !in order[..m]
  }

  /** The answer of the first pass after n inputs: every package comes after all its requires; each input that is
      preceded by all it needs is there; and so is all that was ready when the last of them was taken. */
  ghost predicate Prompt(names: seq<string>, n: nat, reqs: Requires, order: seq<string>) {
    && n <= |names|
    && DependenciesFirst(reqs, order)
    && (forall i :: 0 <= i < n && Preceded(names, reqs, i) ==> names[i] in order)
    && exists m: nat, l: nat :: LastTaken(names, n, reqs, order, m, l)
  }

  lemma NothingTaken(names: seq<string>, reqs: Requires)
    ensures Prompt(names, 0, reqs, [])
  {
    assert LastTaken(names, 0, reqs, [], 0, 0);
  }

  lemma PrecededIsReady(names: seq<string>, n: nat, reqs: Requires, order: seq<string>)
    requires n < |names| && Prompt(names, n, reqs, order) && names[n] in reqs && Preceded(names, reqs, n)
    ensures Ready(reqs[names[n]], Elements(order))
  {
    forall r | r in reqs[names[n]] ensures r in order {
      var j :| 0 <= j < n && names[j] == r && Preceded(names, reqs, j);
    }
  }

  /** The next input is not ready, and is queued. */
  lemma PromptEnqueue(names: seq<string>, n: nat, reqs: Requires, order: seq<string>)
    requires n < |names| && Prompt(names, n, reqs, order) && names[n] in reqs
    requires !Ready(reqs[names[n]], Elements(order))
    ensures Prompt(names, n + 1, reqs, order)
  {
    hide Preceded, DependenciesFirst;
    if Preceded(names, reqs, n) {
      PrecededIsReady(names, n, reqs, order);
    }
    var m: nat, l: nat :| LastTaken(names, n, reqs, order, m, l);
    assert names[..n + 1] == names[..n] + [names[n]];
    var r :| r in reqs[names[n]] && r !in order;
    assert r !in order[..m];
    assert LastTaken(names, n + 1, reqs, order, m, l);
  }

  /** Of a pass without broken pairs every package comes after all its requires. */
  lemma TurnsAreReady(reqs: Requires, queued: set<string>, order: seq<string>, from: nat)
    requires Turns(Part(reqs, queued), order, from, false) && from <= |order| && DependenciesFirst(reqs, order[..from])
    ensures DependenciesFirst(reqs, order)
  {
    forall i, r | 0 <= i < |order| && order[i] in reqs && r in reqs[order[i]] ensures r in order[..i] {
      if i < from {
        assert order[..from][i] == order[i] && order[..from][..i] == order[..i];
      } else {
        assert Injectable(Part(reqs, queued), reqs[order[i]], order[i], Elements(order[..i]), false);
        assert r in Elements(order[..i]);
      }
    }
  }

  /** The next input is ready and taken, and then all that are ready with it. */
  lemma PromptInject(names: seq<string>, n: nat, reqs: Requires, order: seq<string>, queued: set<string>,
                     order': seq<string>, queued': set<string>)
    requires n < |names| && Prompt(names, n, reqs, order) && names[n] in reqs
    requires Ready(reqs[names[n]], Elements(order)) && order + [names[n]] <= order'
    requires Turns(Part(reqs, queued), order', |order| + 1, false)
    requires NoneReady(Part(reqs, queued'), Elements(order + [names[n]]))
    requires Elements(order') + queued' == Elements(names[..n + 1])
    ensures Prompt(names, n + 1, reqs, order')
  {
    hide Preceded, Turns;
    var taken := order + [names[n]];
    TakenIsReady(reqs, order, names[n]);
    assert order'[..|order| + 1] == taken;
    TurnsAreReady(reqs, queued, order', |order| + 1);
    assert order' == taken + order'[|taken|..];
    assert names[n] in taken && names[n] in order';
    assert LastTaken(names, n + 1, reqs, order', |order| + 1, n) by {
      NoneLeftReady(names[..n + 1], reqs, order', queued', taken);
    }
  }

  lemma TakenIsReady(reqs: Requires, order: seq<string>, p: string)
    requires DependenciesFirst(reqs, order) && p in reqs && Ready(reqs[p], Elements(order))
    ensures DependenciesFirst(reqs, order + [p])
  {
    var order' := order + [p];
    forall i, r | 0 <= i < |order'| && order'[i] in reqs && r in reqs[order'[i]] ensures r in order'[..i] {
      assert order'[..i] == order[..i];
    }
  }

  lemma NoneLeftReady(names: seq<string>, reqs: Requires, order: seq<string>, queued: set<string>, taken: seq<string>)
    requires Elements(order) + queued == Elements(names) && NoneReady(Part(reqs, queued), Elements(taken))
    ensures forall x :: x in order ==> x in names
    ensures forall k :: k in names && k !in order && k in reqs ==> exists r :: r in reqs[k] && r !in taken
  {
    forall x | x in order ensures x in names {
      assert x in Elements(order);
    }
    forall k | k in names && k !in order && k in reqs ensures exists r :: r in reqs[k] && r !in taken {
      assert k in Elements(names) && k in Part(reqs, queued);
    }
  }

  lemma FirstPassValid(arr: seq<PackageThin>, n: nat, all: map<string, PackageThin>, reqs: Requires, w: Work)
    requires FirstPassing(arr, n, all, reqs, w)
    ensures w.Valid(all, reqs, reqs)
    ensures n < |arr| ==> arr[n].name in all && all[arr[n].name] == arr[n]
    ensures n == |arr| ==> w.injected + w.queue.Keys == all.Keys
  {
    if n < |arr| {
      NextInput(arr, n);
    } else {
      assert arr[..n] == arr;
      InputNames(arr);
    }
  }

  lemma InputNames(arr: seq<PackageThin>)
    requires DistinctNames(arr)
    ensures Elements(Names(arr)) == ByName(arr).Keys
  {
    forall k ensures k in Elements(Names(arr)) <==> k in ByName(arr) {
      if k in Elements(Names(arr)) {
        var i :| 0 <= i < |arr| && Names(arr)[i] == k;
        assert arr[i] in arr;
      }
      if k in ByName(arr) {
        var i :| 0 <= i < |arr| && arr[i] == ByName(arr)[k];
        assert Names(arr)[i] == k;
      }
    }
  }

  method AllInjected(p: PackageThin, injected: set<string>) returns (ok: bool)
    ensures ok <==> Ready(p.deps, injected)
    ensures ok <==> forall r :: r in p.deps ==> r in injected
  {
    for i := 0 to |p.deps|
      invariant forall k :: 0 <= k < i ==> p.deps[k] in injected
    {
      if p.deps[i] !in injected {
        return false;
      }
    }
    return true;
  }

  lemma InputReady(arr: seq<PackageThin>, n: nat, all: map<string, PackageThin>, reqs: Requires, w: Work)
    requires FirstPassing(arr, n, all, reqs, w) && n < |arr|
    ensures arr[n].name in reqs && Names(arr)[n] == arr[n].name && w.injected == Elements(Names(w.ans))
    ensures Names(arr)[..n + 1] == Names(arr[..n + 1])
  {
    NextInput(arr, n);
  }

  lemma AfterSweep(arr: seq<PackageThin>, n: nat, all: map<string, PackageThin>, reqs: Requires, w: Work, w1: Work)
    requires FirstPassing(arr, n, all, reqs, w) && n < |arr|
    requires FirstPassing(arr, n + 1, all, reqs, w.Inject(arr[n]))
    requires Prompt(Names(arr), n, reqs, Names(w.ans)) && Ready(reqs[arr[n].name], w.injected)
    requires Swept(all, reqs, reqs, w.Inject(arr[n]), w1, false)
    ensures FirstPassing(arr, n + 1, all, reqs, w1) && Prompt(Names(arr), n + 1, reqs, Names(w1.ans))
  {
    hide Worklist, Turns, NoneTaken, NoneReady, Ready, Prompt, Part, FirstPassing, Swept, Work.Inject, Work.Valid,
      Names;
    SweptAfter(all, reqs, w, arr[n], w1);
    InputReady(arr, n, all, reqs, w);
    FirstPassSwept(arr, n + 1, all, reqs, w.Inject(arr[n]), w1);
    InjectedNames(arr, n + 1, all, reqs, w1);
    InjectedNames(arr, n + 1, all, reqs, w.Inject(arr[n]));
    PromptInject(Names(arr), n, reqs, Names(w.ans), w.queue.Keys, Names(w1.ans), w1.queue.Keys);
  }

  lemma SweptAfter(all: map<string, PackageThin>, reqs: Requires, w: Work, p: PackageThin, w1: Work)
    requires Swept(all, reqs, reqs, w.Inject(p), w1, false)
    ensures Names(w.ans) + [p.name] <= Names(w1.ans)
    ensures Names(w.Inject(p).ans) == Names(w.ans) + [p.name]
    ensures Turns(Part(reqs, w.queue.Keys), Names(w1.ans), |w.ans| + 1, false)
    ensures NoneReady(Part(reqs, w1.queue.Keys), w.Inject(p).injected)
  {
    hide Turns, NoneTaken, NoneReady, Part, Worklist;
    NamesAppend(w.ans, p);
    var ans := w.ans + [p];
    assert w1.ans[..|ans|] == ans;
    assert Names(w1.ans)[..|ans|] == Names(ans);
  }

  lemma EnqueueKeepsAnswer(w: Work, p: PackageThin)
    ensures w.Enqueue(p).ans == w.ans
  {
  }

  lemma InjectedNames(arr: seq<PackageThin>, n: nat, all: map<string, PackageThin>, reqs: Requires, w: Work)
    requires FirstPassing(arr, n, all, reqs, w)
    ensures w.injected == Elements(Names(w.ans))
    ensures n <= |arr| && w.injected + w.queue.Keys == Elements(Names(arr[..n]))
  {
  }

  method FirstPass(arr: seq<PackageThin>) returns (w: Work)
    requires DistinctNames(arr)
    ensures FirstPassing(arr, |arr|, ByName(arr), RequiresOf(arr), w)
    ensures Prompt(Names(arr), |arr|, RequiresOf(arr), Names(w.ans))
  {
    hide FirstPassing, Work.Valid, Swept, Ready, ByName, Work.Inject, Work.Enqueue, Prompt;
    ghost var all, reqs := ByName(arr), RequiresOf(arr);
    w := Work([], {}, map[]);
    FirstPassStart(arr, reqs);
    NothingTaken(Names(arr), reqs);
    assert Names([]) == [];
    for i := 0 to |arr|
      invariant FirstPassing(arr, i, all, reqs, w)
      invariant Prompt(Names(arr), i, reqs, Names(w.ans))
    {
      FirstPassValid(arr, i, all, reqs, w);
      InputReady(arr, i, all, reqs, w);
      var allReqOk := AllInjected(arr[i], w.injected);
      if allReqOk {
        ghost var w0 := w;
        FirstPassInject(arr, i, all, reqs, w, arr[i].deps);
        w := w.Inject(arr[i]);
        // Check if the elements in queue could be injected.
        FirstPassValid(arr, i + 1, all, reqs, w);
        w := Sweep(w, false, all, reqs);
        AfterSweep(arr, i, all, reqs, w0, w);
      } else {
        FirstPassEnqueue(arr, i, all, reqs, w);
        PromptEnqueue(Names(arr), i, reqs, Names(w.ans));
        EnqueueKeepsAnswer(w, arr[i]);
        w := w.Enqueue(arr[i]);
      }
    }
  }

  // ---------- how the rest of the queue is drained ----------

  /** The requires of all packages that are not among the first `at` of the order. */
  ghost function Rest(reqs: Requires, order: seq<string>, at: nat): Requires
    requires at <= |order|
  {
    Part(reqs, reqs.Keys - Elements(order[..at]))
  }

  /** The loop can take none of the queue: each package has a first require that is not injected, and that is not a
      queued package which requires it in turn. */
  ghost predicate Stuck(queue: Requires, injected: set<string>) {
    forall k :: k in queue ==> exists n :: 0 <= n < |queue[k]| && Stops(queue, injected, k, n)
  }

  ghost predicate Stops(queue: Requires, injected: set<string>, k: string, n: nat)
    requires k in queue && n < |queue[k]|
  {
    && (forall j :: 0 <= j < n ==> queue[k][j] in injected) && queue[k][n] !in injected
    && !(queue[k][n] in queue && k in queue[queue[k][n]])
  }

  lemma NoneTakenIsStuck(reqs: Requires, queued: set<string>, injected: set<string>)
    requires queued <= reqs.Keys && NoneTaken(reqs, queued, injected, {}, true)
    ensures Stuck(Part(reqs, queued), injected)
  {
    var q := Part(reqs, queued);
    forall k | k in q ensures exists n :: 0 <= n < |q[k]| && Stops(q, injected, k, n) {
      assert !Injectable(q, reqs[k], k, injected, true);
      assert Stops(q, injected, k, Met(q[k], injected));
    }
  }

  /** The detector, from these roots, succeeds on the queue and leaves it so. */
  ghost predicate DetectedFrom(roots: seq<string>, queue: Requires, injected: set<string>, queue': Requires) {
    Enumerates(roots, queue.Keys) && (true, queue') == Detect(roots, queue, injected)
  }

  /** At this point of the order nothing could be taken, and the detector broke the requires of the rest; after it
      every package comes after all that it still requires. */
  ghost predicate Broken(reqs0: Requires, reqs: Requires, order: seq<string>, at: nat) {
    && at <= |order|
    && Stuck(Rest(reqs0, order, at), Elements(order[..at]))
    && (exists roots ::
          DetectedFrom(roots, Rest(reqs0, order, at), Elements(order[..at]), Part(reqs, Rest(reqs0, order, at).Keys)))
    && (forall k :: k in reqs0 && k in order[..at] ==> k in reqs && reqs[k] == reqs0[k])
    && forall i, r :: at <= i < |order| && order[i] in reqs && r in reqs[order[i]] ==> r in order[..i]
  }

  /** The order goes on from the start; no require is dropped unless the detector has run. */
  ghost predicate Course(reqs0: Requires, reqs: Requires, start: seq<string>, order: seq<string>, executed: bool,
                         at: nat) {
    && start <= order
    && if executed then |start| <= at && Broken(reqs0, reqs, order, at) else reqs == reqs0
  }

  /** The sort has come this far when nothing can be taken, and some package left requires one that is no input. */
  ghost predicate Fails(reqs0: Requires, start: seq<string>, order: seq<string>) {
    && start <= order && Justified(reqs0, reqs0, order)
    && Stuck(Rest(reqs0, order, |order|), Elements(order))
    && exists k, r :: k in Rest(reqs0, order, |order|) && r in reqs0[k] && r !in reqs0
  }

  /** On an acyclic queue no pair is broken. */
  lemma SettledTurns(reqs: Requires, queued: set<string>, injected: set<string>, order: seq<string>, from: nat)
    requires Settled(Part(reqs, queued), injected) && Turns(Part(reqs, queued), order, from, true)
    ensures forall i, r :: from <= i < |order| && order[i] in reqs && r in reqs[order[i]] ==> r in order[..i]
  {
    var q := Part(reqs, queued);
    forall i, r | from <= i < |order| && order[i] in reqs && r in reqs[order[i]] ensures r in order[..i] {
      var p := order[i];
      var n := Met(q[p], Elements(order[..i]));
      assert Injectable(q, q[p], p, Elements(order[..i]), true);
      if n < |q[p]| {
        assert ClosedWalk(EdgesOf(q), [p, q[p][n], p]);
      }
      assert n == |q[p]|;
      assert r in Elements(order[..i]);
    }
  }

  lemma CourseSwept(reqs0: Requires, reqs: Requires, start: seq<string>, order: seq<string>, order': seq<string>,
                    executed: bool, at: nat, queued: set<string>, injected: set<string>)
    requires Course(reqs0, reqs, start, order, executed, at) && order <= order'
    requires executed ==> Settled(Part(reqs, queued), injected)
    requires Turns(Part(reqs, queued), order', |order|, true)
    ensures Course(reqs0, reqs, start, order', executed, at)
  {
    hide Turns, Settled, Stuck, DetectedFrom;
    if executed {
      SettledTurns(reqs, queued, injected, order', |order|);
      assert order'[..at] == order[..at];
      forall i, r | at <= i < |order'| && order'[i] in reqs && r in reqs[order'[i]] ensures r in order'[..i] {
        if i < |order| {
          assert order'[i] == order[i] && order'[..i] == order[..i];
        }
      }
    }
  }

  lemma CourseBroken(reqs0: Requires, start: seq<string>, order: seq<string>, queued: set<string>, q': Requires,
                     roots: seq<string>)
    requires start <= order && queued == reqs0.Keys - Elements(order)
    requires Stuck(Part(reqs0, queued), Elements(order))
    requires DetectedFrom(roots, Part(reqs0, queued), Elements(order), q')
    ensures Course(reqs0, reqs0 + q', start, order, true, |order|)
  {
    hide Stuck, DetectedFrom;
    assert order[..|order|] == order;
    DetectedKeys(roots, Part(reqs0, queued), Elements(order), q');
    assert Part(reqs0 + q', queued) == q';
    assert Part(reqs0, queued).Keys == queued;
    forall k | k in reqs0 && k in order ensures k !in q' {
      assert k in Elements(order);
    }
  }

  lemma DetectedKeys(roots: seq<string>, queue: Requires, injected: set<string>, queue': Requires)
    requires DetectedFrom(roots, queue, injected, queue')
    ensures queue'.Keys == queue.Keys
  {
  }

  lemma MissingFails(reqs0: Requires, start: seq<string>, order: seq<string>, queued: set<string>)
    requires start <= order && queued == reqs0.Keys - Elements(order) && Justified(reqs0, reqs0, order)
    requires Stuck(Part(reqs0, queued), Elements(order)) && !QueueClosed(Part(reqs0, queued), Elements(order))
    ensures Fails(reqs0, start, order)
  {
    hide Stuck, Justified;
    assert order[..|order|] == order;
    var q := Part(reqs0, queued);
    var k, r :| k in q && r in q[k] && !(r in q || r in Elements(order));
    assert k in Rest(reqs0, order, |order|) && r !in reqs0;
  }

  /** The loop that drains the queue: executed says that the cycle detector has run, stalled that the
      last pass injected nothing. */
  ghost predicate Draining(all: map<string, PackageThin>, reqs0: Requires, reqs: Requires, w: Work, executed: bool,
                           stalled: bool) {
    && w.Valid(all, reqs0, reqs)
    && w.injected + w.queue.Keys == all.Keys
    && (stalled ==> NoneTaken(reqs, w.queue.Keys, w.injected, {}, true))
    && (executed ==> Settled(Part(reqs, w.queue.Keys), w.injected) && !stalled)
    && (Acyclic(EdgesOf(reqs0)) ==> reqs == reqs0)
    && (!executed ==> reqs == reqs0)
  }

  lemma NoneTakenNotReady(reqs: Requires, queued: set<string>, injected: set<string>)
    requires queued <= reqs.Keys && NoneTaken(reqs, queued, injected, {}, true)
    ensures NoneReady(Part(reqs, queued), injected)
  {
    forall k | k in Part(reqs, queued) ensures !Ready(reqs[k], injected) {
      assert !Injectable(Part(reqs, queued), reqs[k], k, injected, true);
    }
  }

  /** The queue is acyclic, and every require in it is available. */
  ghost predicate Settled(q: Requires, injected: set<string>) {
    Acyclic(EdgesOf(q)) && QueueClosed(q, injected)
  }

  /** A nonempty, closed and acyclic queue has a package that can be injected. */
  lemma {:induction false} SettledHasReady(reqs: Requires, injected: set<string>)
    requires Settled(reqs, injected) && reqs != map[]
    ensures !NoneReady(reqs, injected)
  {
    assert reqs.Keys != {};
    var k := Sink(EdgesOf(reqs), reqs.Keys);
    forall r | r in reqs[k] ensures r in injected {
      assert (k, r) !in EdgesOf(reqs) || r !in reqs;
    }
    assert Ready(reqs[k], injected);
  }

  lemma SettledPart(reqs: Requires, queued: set<string>, injected: set<string>, queued': set<string>,
                    injected': set<string>)
    requires Settled(Part(reqs, queued), injected) && queued' <= queued <= reqs.Keys
    requires injected' + queued' == injected + queued
    ensures Settled(Part(reqs, queued'), injected')
  {
    var q, q' := Part(reqs, queued), Part(reqs, queued');
    assert q.Keys == queued && q'.Keys == queued';
    FewerEdgesAcyclic(EdgesOf(q), EdgesOf(q'));
    forall k, r | k in q' && r in q'[k] ensures r in q' || r in injected' {
      assert r in q[k];
      assert r in injected + queued;
    }
  }

  lemma ValidKeys(all: map<string, PackageThin>, reqs0: Requires, reqs: Requires, w: Work)
    requires w.Valid(all, reqs0, reqs)
    ensures w.queue.Keys <= reqs.Keys && Part(reqs, w.queue.Keys).Keys == w.queue.Keys
    ensures Thinned(reqs0, reqs)
  {
  }

  /** After the detector has run every pass makes progress. */
  lemma AfterPass(all: map<string, PackageThin>, reqs0: Requires, reqs: Requires, w: Work, executed: bool,
                  stalled: bool, w1: Work)
    requires Draining(all, reqs0, reqs, w, executed, stalled) && w.queue != map[]
    requires Swept(all, reqs0, reqs, w, w1, true)
    ensures Draining(all, reqs0, reqs, w1, executed, w1 == w)
    ensures executed ==> |w1.queue| < |w.queue|
    ensures |w1.queue| <= |w.queue| && (|w1.queue| == |w.queue| ==> w1 == w)
  {
    hide Worklist, Acyclic, QueueClosed, Settled, NoneReady, Work.Known, Keyed;
    if executed {
      ValidKeys(all, reqs0, reqs, w);
      SettledPart(reqs, w.queue.Keys, w.injected, w1.queue.Keys, w1.injected);
      SettledHasReady(Part(reqs, w.queue.Keys), w.injected);
      assert w1 != w;
    }
  }

  lemma PartOfGraph(reqs: Requires, injected: set<string>, queued: set<string>)
    requires injected + queued == reqs.Keys
    ensures Part(reqs, queued).Keys == queued && EdgesOf(Part(reqs, queued)) <= EdgesOf(reqs)
    ensures Closed(reqs) ==> QueueClosed(Part(reqs, queued), injected)
  {
    var q := Part(reqs, queued);
    assert q.Keys == queued;
    if Closed(reqs) {
      forall k, r | k in q && r in q[k] ensures r in q || r in injected {
        assert r in reqs;
      }
    }
  }

  /** A queue with nothing ready: not closed if the graph is acyclic, closed if the whole input is. */
  lemma StalledQueue(reqs0: Requires, reqs: Requires, injected: set<string>, queued: set<string>)
    requires Thinned(reqs0, reqs) && injected + queued == reqs.Keys && queued != {}
    requires NoneReady(Part(reqs, queued), injected)
    ensures Acyclic(EdgesOf(reqs0)) ==> !QueueClosed(Part(reqs, queued), injected)
    ensures Closed(reqs0) ==> QueueClosed(Part(reqs, queued), injected)
  {
    hide Thinned, NoneReady, Acyclic, EdgesOf, Part, QueueClosed;
    ThinnedKeepsClosed(reqs0, reqs, {});
    PartOfGraph(reqs, injected, queued);
    var q := Part(reqs, queued);
    if Acyclic(EdgesOf(reqs0)) && QueueClosed(q, injected) {
      FewerEdgesAcyclic(EdgesOf(reqs0), EdgesOf(q));
      SettledHasReady(q, injected);
      assert false;
    }
  }

  lemma ThinnedPart(reqs0: Requires, reqs: Requires, queued: set<string>, q': Requires)
    requires Thinned(reqs0, reqs) && queued <= reqs.Keys && Thinned(Part(reqs, queued), q')
    ensures Thinned(reqs0, reqs + q') && Part(reqs + q', queued) == q' && (reqs + q').Keys == reqs.Keys
  {
    assert Part(reqs, queued).Keys == queued;
    assert Thinned(reqs, reqs + q');
    ThinnedTransitive(reqs0, reqs, reqs + q');
  }

  lemma WorklistThinned(reqs0: Requires, reqs: Requires, order: seq<string>, injected: set<string>, queued: set<string>,
                        q': Requires)
    requires Worklist(reqs0, reqs, order, injected, queued) && Thinned(Part(reqs, queued), q')
    ensures Worklist(reqs0, reqs + q', order, injected, queued)
  {
    ThinnedPart(reqs0, reqs, queued, q');
    forall i | 0 <= i < |order| ensures order[i] !in q' {
      assert order[i] in injected;
    }
  }

  /** What the detector does to a stalled queue: it fails only when some require is not available, and
      on an acyclic graph a stall means just that. */
  lemma {:induction false} AfterDetector(all: map<string, PackageThin>, reqs0: Requires, reqs: Requires, w: Work,
                                         q': Requires, ok: bool)
    requires Draining(all, reqs0, reqs, w, false, true) && w.queue != map[]
    requires Thinned(Part(reqs, w.queue.Keys), q')
    requires ok <==> QueueClosed(Part(reqs, w.queue.Keys), w.injected)
    requires ok ==> Acyclic(EdgesOf(q'))
    ensures Thinned(reqs0, reqs + q')
    ensures ok ==> Draining(all, reqs0, reqs + q', w, true, false)
    ensures Closed(reqs0) ==> ok
  {
    hide Worklist, Thinned, NoneReady, QueueClosed, Acyclic, Part, EdgesOf, Work.Known, Keyed, NoneTaken;
    var q := Part(reqs, w.queue.Keys);
    ValidKeys(all, reqs0, reqs, w);
    NoneTakenNotReady(reqs, w.queue.Keys, w.injected);
    StalledQueue(reqs0, reqs, w.injected, w.queue.Keys);
    ThinnedPart(reqs0, reqs, w.queue.Keys, q');
    ThinnedKeepsClosed(q, q', w.injected);
    if ok {
      WorklistThinned(reqs0, reqs, Names(w.ans), w.injected, w.queue.Keys, q');
    }
  }

  lemma DrainStart(all: map<string, PackageThin>, reqs0: Requires, w: Work)
    requires w.Valid(all, reqs0, reqs0) && w.injected + w.queue.Keys == all.Keys
    ensures Draining(all, reqs0, reqs0, w, false, false)
    ensures Thinned(reqs0, reqs0)
  {
  }

  lemma DrainFacts(all: map<string, PackageThin>, reqs0: Requires, reqs: Requires, w: Work, executed: bool,
                   stalled: bool)
    requires Draining(all, reqs0, reqs, w, executed, stalled)
    ensures w.Valid(all, reqs0, reqs) && Thinned(reqs0, reqs) && Keyed(all) && Keyed(w.queue)
    ensures forall k :: k in w.queue ==> k in all && w.queue[k] == all[k]
    ensures executed ==> !stalled
  {
  }

  /** On a stalled queue the loop is stuck; the detector either breaks it or misses a require. */
  lemma StalledCourse(all: map<string, PackageThin>, reqs0: Requires, reqs: Requires, w: Work, start: seq<string>)
    requires Draining(all, reqs0, reqs, w, false, true) && start <= Names(w.ans)
    ensures reqs == reqs0 && w.injected == Elements(Names(w.ans))
    ensures w.queue.Keys == reqs0.Keys - Elements(Names(w.ans)) && Justified(reqs0, reqs0, Names(w.ans))
    ensures Stuck(Part(reqs0, w.queue.Keys), w.injected)
    ensures !QueueClosed(Part(reqs0, w.queue.Keys), w.injected) ==> Fails(reqs0, start, Names(w.ans))
  {
    hide Stuck, QueueClosed, NoneTaken, Justified, Thinned, Fails;
    NoneTakenIsStuck(reqs, w.queue.Keys, w.injected);
    if !QueueClosed(Part(reqs0, w.queue.Keys), w.injected) {
      MissingFails(reqs0, start, Names(w.ans), w.queue.Keys);
    }
  }

  /** Run the detector on a stalled queue. */
  method BreakCycles(w: Work, ghost all: map<string, PackageThin>, ghost reqs0: Requires, ghost start: seq<string>)
    returns (ok: bool)
    requires Draining(all, reqs0, Snapshot(all), w, false, true) && w.queue != map[] && start <= Names(w.ans)
    modifies all.Values
    ensures Thinned(reqs0, Snapshot(all))
    ensures ok ==> Draining(all, reqs0, Snapshot(all), w, true, false)
    ensures ok ==> Course(reqs0, Snapshot(all), start, Names(w.ans), true, |w.ans|)
    ensures !ok ==> Fails(reqs0, start, Names(w.ans))
    ensures Closed(reqs0) ==> ok
  {
    hide Draining, Thinned, Closed, QueueClosed, Acyclic, Work.Valid, Stuck, Fails, Course, Detect, Justified;
    ghost var reqs := Snapshot(all);
    DrainFacts(all, reqs0, reqs, w, false, true);
    PartOfSnapshot(all, w.queue);
    StalledCourse(all, reqs0, reqs, w, start);
    ok := DepCycleDetector(w.queue, w.injected);
    assert Snapshot(all) == reqs + Snapshot(w.queue);
    AfterDetector(all, reqs0, reqs, w, Snapshot(w.queue), ok);
    if ok {
      ghost var roots :| Enumerates(roots, w.queue.Keys)
                      && (ok, Snapshot(w.queue)) == Detect(roots, Part(reqs, w.queue.Keys), w.injected);
      CourseBroken(reqs0, start, Names(w.ans), w.queue.Keys, Snapshot(w.queue), roots);
    }
  }

  lemma CourseAfterPass(all: map<string, PackageThin>, reqs0: Requires, reqs: Requires, w: Work, w1: Work,
                        start: seq<string>, executed: bool, stalled: bool, at: nat)
    requires Draining(all, reqs0, reqs, w, executed, stalled) && Swept(all, reqs0, reqs, w, w1, true)
    requires Course(reqs0, reqs, start, Names(w.ans), executed, at)
    ensures Course(reqs0, reqs, start, Names(w1.ans), executed, at)
  {
    hide Worklist, Turns, Course, Settled, NoneTaken, NoneReady, Part, Work.Known, Keyed, Acyclic;
    assert w1.ans[..|w.ans|] == w.ans;
    assert Names(w1.ans)[..|w.ans|] == Names(w.ans);
    CourseSwept(reqs0, reqs, start, Names(w.ans), Names(w1.ans), executed, at, w.queue.Keys, w.injected);
  }

  lemma CourseStart(reqs0: Requires, start: seq<string>)
    ensures Course(reqs0, reqs0, start, start, false, 0)
  {
  }

  /** What the loop ends in: an order that goes on from the start, or the point where it fails. */
  ghost predicate Ends(reqs0: Requires, reqs: Requires, start: seq<string>, order: seq<string>, ok: bool) {
    if ok then reqs == reqs0 || exists at: nat :: |start| <= at && Broken(reqs0, reqs, order, at)
    else exists stuck :: Fails(reqs0, start, stuck)
  }

  lemma CourseEnds(reqs0: Requires, reqs: Requires, start: seq<string>, order: seq<string>, executed: bool, at: nat)
    requires Course(reqs0, reqs, start, order, executed, at)
    ensures start <= order && Ends(reqs0, reqs, start, order, true)
  {
    hide Broken;
  }

  /** Sort what the first pass has left in the queue. */
  method DrainQueue(w0: Work, ghost all: map<string, PackageThin>) returns (ok: bool, w: Work)
    requires w0.Valid(all, Snapshot(all), Snapshot(all))
    requires w0.injected + w0.queue.Keys == all.Keys
    modifies all.Values
    ensures Thinned(old(Snapshot(all)), Snapshot(all))
    ensures Closed(old(Snapshot(all))) ==> ok
    ensures Ends(old(Snapshot(all)), Snapshot(all), Names(w0.ans), Names(w.ans), ok)
    ensures ok ==> Names(w0.ans) <= Names(w.ans)
    ensures ok ==> w.queue == map[] && exists executed, stalled ::
              Draining(all, old(Snapshot(all)), Snapshot(all), w, executed, stalled)
  {
    hide Draining, Swept, Thinned, Closed, QueueClosed, Acyclic, Work.Valid, Course, Fails, Broken;
    ghost var reqs0, start := Snapshot(all), Names(w0.ans);
    ghost var at: nat := 0;
    w := w0;
    var counter, lastQueueSize, executed := 0, 0, false;
    DrainStart(all, reqs0, w);
    CourseStart(reqs0, start);
    while |w.queue| > 0
      invariant Draining(all, reqs0, Snapshot(all), w, executed, |w.queue| == lastQueueSize && w.queue != map[])
      invariant Thinned(reqs0, Snapshot(all))
      invariant Course(reqs0, Snapshot(all), start, Names(w.ans), executed, at)
      invariant 0 <= counter <= 4
      decreases |w.queue|, !executed, if |w.queue| == lastQueueSize then 5 - counter else 6
    {
      ghost var stalled := |w.queue| == lastQueueSize;
      DrainFacts(all, reqs0, Snapshot(all), w, executed, stalled);
      CourseEnds(reqs0, Snapshot(all), start, Names(w.ans), executed, at);
      if |w.queue| == lastQueueSize {
        if counter > 3 {
          // Once the detector has run no pass stalls, so this guard against a second run never fires.
          if executed {
            assert false;
          }
          executed := true;
          at := |w.ans|;
          ok := BreakCycles(w, all, reqs0, start);
          if !ok {
            return;
          }
          stalled := false;
        } else {
          counter := counter + 1;
        }
      } else {
        lastQueueSize := |w.queue|;
        counter := 0;
      }
      DrainFacts(all, reqs0, Snapshot(all), w, executed, stalled);
      ghost var w1 := w;
      w := Sweep(w, true, all, reqs0);
      CourseAfterPass(all, reqs0, Snapshot(all), w1, w, start, executed, stalled, at);
      AfterPass(all, reqs0, Snapshot(all), w1, executed, stalled, w);
    }
    CourseEnds(reqs0, Snapshot(all), start, Names(w.ans), executed, at);
    ok := true;
  }

  lemma Drained(all: map<string, PackageThin>, reqs0: Requires, reqs: Requires, w: Work, executed: bool, stalled: bool)
    requires Draining(all, reqs0, reqs, w, executed, stalled) && w.queue == map[]
    ensures Worklist(reqs0, reqs, Names(w.ans), all.Keys, {}) && w.Known(all)
    ensures Acyclic(EdgesOf(reqs0)) ==> reqs == reqs0
  {
    assert w.queue.Keys == {};
    assert w.injected + {} == w.injected;
  }

  lemma MultisetOfDistinct(s: seq<PackageThin>, x: PackageThin)
    requires NoRepeats(s)
    ensures multiset(s)[x] == if x in s then 1 else 0
  {
    if s != [] {
      assert s == s[..|s| - 1] + [s[|s| - 1]];
      MultisetOfDistinct(s[..|s| - 1], x);
    }
  }

  lemma SameDistinctElements(s: seq<PackageThin>, t: seq<PackageThin>)
    requires NoRepeats(s) && NoRepeats(t) && forall x :: x in s <==> x in t
    ensures multiset(s) == multiset(t)
  {
    forall x: PackageThin ensures multiset(s)[x] == multiset(t)[x] {
      MultisetOfDistinct(s, x);
      MultisetOfDistinct(t, x);
    }
  }

  /** An answer that holds every name once is a permutation of the input. */
  lemma {:induction false} AnswerIsPermutation(arr: seq<PackageThin>, reqs0: Requires, reqs: Requires, w: Work)
    requires DistinctNames(arr) && w.Known(ByName(arr))
    requires Worklist(reqs0, reqs, Names(w.ans), ByName(arr).Keys, {})
    ensures multiset(w.ans) == multiset(arr) && DistinctNames(w.ans)
  {
    assert forall i, j :: 0 <= i < j < |w.ans| ==> Names(w.ans)[i] != Names(w.ans)[j];
    forall x ensures x in w.ans <==> x in arr {
      if x in arr {
        assert x.name in Elements(Names(w.ans));
        var i :| 0 <= i < |w.ans| && Names(w.ans)[i] == x.name;
        assert w.ans[i] in w.ans;
      }
    }
    SameDistinctElements(w.ans, arr);
  }

  /** The course of the whole sort over the names of the input: the order goes on from a prompt answer of the first
      pass, and ends as the loop does. */
  ghost predicate SortedFrom(names: seq<string>, reqs0: Requires, reqs: Requires, order: seq<string>, ok: bool) {
    exists start :: Prompt(names, |names|, reqs0, start) && Ends(reqs0, reqs, start, order, ok)
                    && (ok ==> start <= order)
  }

  /** sortPkgsThinArr.  On a closed input the sort always succeeds, however cyclic the requires are. */
  method SortPkgsThinArr(arr: seq<PackageThin>) returns (ok: bool, sorted: seq<PackageThin>)
    requires DistinctNames(arr)
    modifies arr
    ensures Thinned(old(RequiresOf(arr)), RequiresOf(arr))
    ensures ok ==> multiset(sorted) == multiset(arr) && DistinctNames(sorted)
    ensures ok ==> Justified(old(RequiresOf(arr)), RequiresOf(arr), Names(sorted))
    ensures SortedFrom(Names(arr), old(RequiresOf(arr)), RequiresOf(arr), Names(sorted), ok)
    ensures Closed(old(RequiresOf(arr))) ==> ok
    ensures Acyclic(EdgesOf(old(RequiresOf(arr)))) ==>
              && (ok <==> Closed(old(RequiresOf(arr))))
              && (ok ==> RequiresOf(arr) == old(RequiresOf(arr)) && DependenciesFirst(RequiresOf(arr), Names(sorted)))
  {
    hide Worklist, Thinned, Closed, QueueClosed, Acyclic, Justified, DependenciesFirst, FirstPassing, Draining, Prompt,
      Ends;
    ghost var all, reqs0 := ByName(arr), RequiresOf(arr);
    var w := FirstPass(arr);
    FirstPassValid(arr, |arr|, all, reqs0, w);
    ghost var start := Names(w.ans);
    if |w.queue| == 0 {
      DrainStart(all, reqs0, w);
      CourseStart(reqs0, start);
      CourseEnds(reqs0, reqs0, start, start, false, 0);
      ok := true;
    } else {
      ok, w := DrainQueue(w, all);
    }
    sorted := w.ans;
    assert Prompt(Names(arr), |Names(arr)|, reqs0, start);
    if ok {
      ghost var executed, stalled :| Draining(all, reqs0, Snapshot(all), w, executed, stalled);
      Drained(all, reqs0, Snapshot(all), w, executed, stalled);
      AnswerIsPermutation(arr, reqs0, Snapshot(all), w);
      SortedFacts(reqs0, Snapshot(all), Names(sorted), all.Keys);
    }
  }

  lemma SortedFacts(reqs0: Requires, reqs: Requires, order: seq<string>, names: set<string>)
    requires Worklist(reqs0, reqs, order, names, {}) && names == reqs.Keys
    ensures Justified(reqs0, reqs, order)
    ensures reqs == reqs0 && Acyclic(EdgesOf(reqs0)) ==> DependenciesFirst(reqs, order) && Closed(reqs0)
  {
    if reqs == reqs0 && Acyclic(EdgesOf(reqs0)) {
      JustifiedAcyclicOrder(reqs, order);
    }
  }
}
