/** OrderOperations: the list of operations of a transaction.  Removes of packages that are not added again
    come first; the other removes are placed between the additions, whose order is the sorter's. */
module Planner {
  import opened Packages

  datatype Action = AddPackage | UpdatePackage | RemovePackage

  datatype Operation = Operation(action: Action, art: Artifact) {
    predicate Removes() {
      action == RemovePackage
    }

    function Name(): string {
      art.pkg.name
    }
  }

  /** The artefacts of the pack with the given name, in order: an entry of the pack's map. */
  function Named(arts: seq<Artifact>, name: string): (named: seq<Artifact>)
    ensures forall a :: a in named <==> a in arts && a.pkg.name == name
  {
    if arts == [] then []
    else
      var init := Named(arts[..|arts| - 1], name);
      var last := arts[|arts| - 1];
      assert arts == arts[..|arts| - 1] + [last];
      if last.pkg.name == name then init + [last] else init
  }

  predicate HasName(ops: seq<Operation>, name: string) {
    exists i :: 0 <= i < |ops| && ops[i].Name() == name
  }

  /** The removes of packages that no operation of added puts back. */
  function HeadRemoves(p2r: seq<Artifact>, added: seq<Operation>): (head: seq<Operation>)
    ensures forall op :: op in head <==> op.Removes() && op.art in p2r && !HasName(added, op.Name())
  {
    if p2r == [] then []
    else
      var init := HeadRemoves(p2r[..|p2r| - 1], added);
      var last := p2r[|p2r| - 1];
      assert p2r == p2r[..|p2r| - 1] + [last];
      if HasName(added, last.pkg.name) then init else init + [Operation(RemovePackage, last)]
  }

  /** The first operation from position `from` on whose package rejects p. */
  function FirstConflict(g: Gentoo, ops: seq<Operation>, from: nat, p: Package): (c: nat)
    requires from <= |ops|
    ensures from <= c <= |ops|
    ensures forall i :: from <= i < c ==> Admit(g, ops[i].art.pkg, p) != Rejected
    ensures c < |ops| ==> Admit(g, ops[c].art.pkg, p) == Rejected
    decreases |ops| - from
  {
    if from == |ops| || Admit(g, ops[from].art.pkg, p) == Rejected then from else FirstConflict(g, ops, from + 1, p)
  }

  function Insert(ops: seq<Operation>, c: nat, op: Operation): seq<Operation>
    requires c <= |ops|
  {
    ops[..c] + [op] + ops[c..]
  }

  /** Where the remove that goes with an addition of p is placed: before the first conflict, but never
      among the first rmOps + 1 operations unless it is the last. */
  function RemovePosition(g: Gentoo, ops: seq<Operation>, rmOps: nat, p: Package): (c: nat)
    ensures c <= |ops|
  {
    if rmOps < |ops| then FirstConflict(g, ops, rmOps + 1, p) else |ops|
  }

  function Step(g: Gentoo, p2r: seq<Artifact>, rmOps: nat, ops: seq<Operation>, op: Operation): seq<Operation> {
    var rs := Named(p2r, op.Name());
    if rs == [] then ops + [op]
    else Insert(ops, RemovePosition(g, ops, rmOps, op.art.pkg), Operation(RemovePackage, rs[0])) + [op]
  }

  function Interleave(g: Gentoo, p2r: seq<Artifact>, head: seq<Operation>, added: seq<Operation>): seq<Operation> {
    if added == [] then head
    else
      var n := |added| - 1;
      Step(g, p2r, |head|, Interleave(g, p2r, head, added[..n]), added[n])
  }

  /** Without additions: for each entry of the pack the first one of its name. */
  function OnlyRemoves(p2r: seq<Artifact>): seq<Operation> {
    seq(|p2r|, i requires 0 <= i < |p2r| =>
      assert p2r[i] in Named(p2r, p2r[i].pkg.name); Operation(RemovePackage, Named(p2r, p2r[i].pkg.name)[0]))
  }

  function Plan(g: Gentoo, added: seq<Operation>, p2r: seq<Artifact>): seq<Operation> {
    if p2r == [] then added
    else if added == [] then OnlyRemoves(p2r)
    else Interleave(g, p2r, HeadRemoves(p2r, added), added)
  }

  function Additions(ops: seq<Operation>): (adds: seq<Operation>)
    ensures forall op :: op in adds <==> op in ops && !op.Removes()
  {
    if ops == [] then []
    else
      var init := Additions(ops[..|ops| - 1]);
      var last := ops[|ops| - 1];
      assert ops == ops[..|ops| - 1] + [last];
      if last.Removes() then init else init + [last]
  }

  ghost predicate DistinctNames(ops: seq<Operation>) {
    forall i, j :: 0 <= i < j < |ops| ==> ops[i].Name() != ops[j].Name()
  }

  /** Two operations on the same name are a remove and, later, an addition. */
  ghost predicate RemoveThenAdd(ops: seq<Operation>) {
    forall i, j :: 0 <= i < j < |ops| && ops[i].Name() == ops[j].Name() ==> ops[i].Removes() && !ops[j].Removes()
  }

  /** What the packs must satisfy: no name is added twice, and a name that is not added again is
      removed once. */
  ghost predicate Orderable(added: seq<Operation>, p2r: seq<Artifact>) {
    && DistinctNames(added)
    && (forall op :: op in added ==> !op.Removes())
    && RemovedOnce(p2r, added)
  }

  /** A name that the pack lists twice is added again. */
  ghost predicate RemovedOnce(p2r: seq<Artifact>, added: seq<Operation>) {
    forall i, j :: 0 <= i < j < |p2r| && p2r[i].pkg.name == p2r[j].pkg.name ==> HasName(added, p2r[i].pkg.name)
  }

  /** Some operation removes the name. */
  ghost predicate RemovesName(ops: seq<Operation>, name: string) {
    exists op :: op in ops && op.Removes() && op.Name() == name
  }

  /** The operations are exactly the requested ones. */
  ghost predicate Performs(ops: seq<Operation>, added: seq<Operation>, p2r: seq<Artifact>) {
    && (forall op :: op in added <==> op in ops && !op.Removes())
    && (forall op :: op in ops && op.Removes() ==> op.art in p2r)
    && (forall a :: a in p2r ==> RemovesName(ops, a.pkg.name))
  }

  // ---------- the content of the plan ----------

  /** What holds of the interleaved list of head and added. */
  ghost predicate Interleaved(ops: seq<Operation>, p2r: seq<Artifact>, head: seq<Operation>, added: seq<Operation>) {
    && head <= ops
    && RemoveThenAdd(ops)
    && Additions(ops) == added
    && (forall op :: op in ops ==> op in head || HasName(added, op.Name()))
    && (forall op :: op in ops && op.Removes() ==> op.art in p2r)
    && (forall op :: op in added && Named(p2r, op.Name()) != [] ==>
          Operation(RemovePackage, Named(p2r, op.Name())[0]) in ops)
  }

  lemma {:induction false} AdditionsConcat(a: seq<Operation>, b: seq<Operation>)
    ensures Additions(a + b) == Additions(a) + Additions(b)
  {
    if b == [] {
      assert a + b == a;
    } else {
      var n := |b| - 1;
      AdditionsConcat(a, b[..n]);
      assert (a + b)[..|a + b| - 1] == a + b[..n];
    }
  }

  lemma AdditionsSnoc(ops: seq<Operation>, op: Operation)
    ensures Additions(ops + [op]) == if op.Removes() then Additions(ops) else Additions(ops) + [op]
  {
    assert (ops + [op])[..|ops|] == ops;
  }

  lemma AdditionsInsert(ops: seq<Operation>, c: nat, x: Operation)
    requires c <= |ops| && x.Removes()
    ensures Additions(Insert(ops, c, x)) == Additions(ops)
    ensures forall op :: op in Insert(ops, c, x) <==> op == x || op in ops
  {
    assert ops == ops[..c] + ops[c..];
    AdditionsConcat(ops[..c], ops[c..]);
    AdditionsConcat(ops[..c], [x]);
    AdditionsConcat(ops[..c] + [x], ops[c..]);
    assert Additions([x]) == [];
  }

  lemma InsertKeepsOrder(ops: seq<Operation>, c: nat, x: Operation)
    requires c <= |ops| && RemoveThenAdd(ops) && !HasName(ops, x.Name())
    ensures RemoveThenAdd(Insert(ops, c, x))
  {
    var ops' := Insert(ops, c, x);
    forall k | 0 <= k < |ops'| && k != c ensures ops'[k].Name() != x.Name() {
      assert ops'[k] == ops[if k < c then k else k - 1];
    }
    forall i, j | 0 <= i < j < |ops'| && ops'[i].Name() == ops'[j].Name()
      ensures ops'[i].Removes() && !ops'[j].Removes()
    {
      if i != c && j != c {
        var i', j' := if i < c then i else i - 1, if j < c then j else j - 1;
        assert ops'[i] == ops[i'] && ops'[j] == ops[j'];
      }
    }
  }

  lemma NameIsNew(ops: seq<Operation>, p2r: seq<Artifact>, head: seq<Operation>, added: seq<Operation>, name: string)
    requires Interleaved(ops, p2r, head, added) && !HasName(head, name) && !HasName(added, name)
    ensures !HasName(ops, name)
  {
    forall i | 0 <= i < |ops| ensures ops[i].Name() != name {
      assert ops[i] in ops;
      if ops[i] in head {
        var j :| 0 <= j < |head| && head[j] == ops[i];
      }
    }
  }

  lemma {:induction false} StepInterleaved(g: Gentoo, p2r: seq<Artifact>, head: seq<Operation>, added: seq<Operation>,
                                           ops: seq<Operation>, op: Operation)
    requires Interleaved(ops, p2r, head, added) && !op.Removes()
    requires !HasName(head, op.Name()) && !HasName(added, op.Name())
    ensures Interleaved(Step(g, p2r, |head|, ops, op), p2r, head, added + [op])
  {
    hide RemoveThenAdd, Additions, FirstConflict, HasName;
    NameIsNew(ops, p2r, head, added, op.Name());
    HasNameAppend(added, op);
    var rs := Named(p2r, op.Name());
    if rs == [] {
      AdditionsSnoc(ops, op);
      AppendNewName(ops, op);
    } else {
      var c, rm := RemovePosition(g, ops, |head|, op.art.pkg), Operation(RemovePackage, rs[0]);
      assert rs[0] in rs && rm.Name() == op.Name();
      var ops' := Insert(ops, c, rm);
      AdditionsInsert(ops, c, rm);
      AdditionsSnoc(ops', op);
      InsertKeepsOrder(ops, c, rm);
      assert head <= ops';
      AppendAfterRemove(ops, c, rm, op);
    }
  }

  lemma HasNameAppend(ops: seq<Operation>, op: Operation)
    ensures forall name :: HasName(ops + [op], name) <==> HasName(ops, name) || name == op.Name()
  {
    forall name ensures HasName(ops + [op], name) <==> HasName(ops, name) || name == op.Name() {
      if HasName(ops, name) {
        var i :| 0 <= i < |ops| && ops[i].Name() == name;
        assert (ops + [op])[i].Name() == name;
      }
      assert (ops + [op])[|ops|] == op;
    }
  }

  lemma AppendNewName(ops: seq<Operation>, op: Operation)
    requires RemoveThenAdd(ops) && !HasName(ops, op.Name())
    ensures RemoveThenAdd(ops + [op])
  {
    assert forall i :: 0 <= i < |ops| ==> ops[i].Name() != op.Name();
  }

  lemma AppendAfterRemove(ops: seq<Operation>, c: nat, rm: Operation, op: Operation)
    requires c <= |ops| && RemoveThenAdd(Insert(ops, c, rm)) && !HasName(ops, op.Name())
    requires rm.Removes() && !op.Removes()
    ensures RemoveThenAdd(Insert(ops, c, rm) + [op])
  {
    var ops' := Insert(ops, c, rm);
    forall i | 0 <= i < |ops'| && i != c ensures ops'[i].Name() != op.Name() {
      var i' := if i < c then i else i - 1;
      assert ops'[i] == ops[i'];
    }
  }

  lemma {:induction false} InterleaveIsInterleaved(g: Gentoo, p2r: seq<Artifact>, head: seq<Operation>,
                                                   added: seq<Operation>)
    requires DistinctNames(head) && DistinctNames(added)
    requires forall op :: op in head ==> op.Removes() && op.art in p2r && !HasName(added, op.Name())
    requires forall op :: op in added ==> !op.Removes()
    ensures Interleaved(Interleave(g, p2r, head, added), p2r, head, added)
  {
    if added == [] {
      HeadAdditions(head);
    } else {
      var n := |added| - 1;
      var init, op := added[..n], added[n];
      assert added == init + [op];
      HasNameAppend(init, op);
      assert !HasName(init, op.Name()) && op in added;
      assert HasName(added, op.Name());
      forall i | 0 <= i < |head| ensures head[i].Name() != op.Name() {
        assert head[i] in head;
      }
      InterleaveIsInterleaved(g, p2r, head, init);
      StepInterleaved(g, p2r, head, init, Interleave(g, p2r, head, init), op);
    }
  }

  lemma {:induction false} HeadAdditions(head: seq<Operation>)
    requires forall op :: op in head ==> op.Removes()
    ensures Additions(head) == []
  {
    if head != [] {
      HeadAdditions(head[..|head| - 1]);
    }
  }

  // ---------- removes before what they conflict with ----------

  /** The operation at q was placed before the addition at a: it is an addition, or it is the remove
      of one, that comes before a. */
  ghost predicate PlacedBefore(ops: seq<Operation>, q: nat, a: nat)
    requires q < a < |ops|
  {
    exists b :: q <= b < a && ops[b].Name() == ops[q].Name() && !ops[b].Removes()
  }

  /** The addition at a has a remove, and the operation at q, placed before it and not among the first
      rmOps + 1, has a package that rejects the new version. */
  ghost predicate ConflictAt(g: Gentoo, p2r: seq<Artifact>, rmOps: nat, ops: seq<Operation>, q: int, a: int) {
    && rmOps < q < a < |ops| && !ops[a].Removes() && Named(p2r, ops[a].Name()) != []
    && ops[q].Name() != ops[a].Name() && PlacedBefore(ops, q, a)
    && Admit(g, ops[q].art.pkg, ops[a].art.pkg) == Rejected
  }

  /** The remove that goes with an addition precedes every operation it must precede. */
  ghost predicate RemovedBeforeConflicts(g: Gentoo, p2r: seq<Artifact>, rmOps: nat, ops: seq<Operation>) {
    forall q, a :: ConflictAt(g, p2r, rmOps, ops, q, a)
      ==> Operation(RemovePackage, Named(p2r, ops[a].Name())[0]) in ops[..q]
  }

  /** A conflict after the insertion of a remove, whose addition is still to come, was one before. */
  lemma ConflictBefore(g: Gentoo, p2r: seq<Artifact>, rmOps: nat, ops: seq<Operation>, c: nat, rm: Operation, q: nat,
                       a: nat)
    requires rm.Removes() && !HasName(ops, rm.Name())
    requires c <= |ops| && (c == |ops| || rmOps < c)
    requires ConflictAt(g, p2r, rmOps, Insert(ops, c, rm), q, a)
    ensures q != c && a != c && ConflictAt(g, p2r, rmOps, ops, Before(c, q), Before(c, a))
    ensures Insert(ops, c, rm)[a] == ops[Before(c, a)]
  {
    hide Admit, Named;
    var ops' := Insert(ops, c, rm);
    var b :| q <= b < a && ops'[b].Name() == ops'[q].Name() && !ops'[b].Removes();
    assert ops'[b] == ops[Before(c, b)] && ops'[a] == ops[Before(c, a)];
    assert q != c;
    assert ops'[q] == ops[Before(c, q)];
    assert Before(c, q) <= Before(c, b) < Before(c, a);
  }

  lemma PrefixBefore(ops: seq<Operation>, c: nat, rm: Operation, q: nat, x: Operation)
    requires c <= |ops| && q <= |ops| && q != c && x in ops[..Before(c, q)]
    ensures x in Insert(ops, c, rm)[..q]
  {
    var i :| 0 <= i < Before(c, q) && ops[i] == x;
    assert Insert(ops, c, rm)[..q][if i < c then i else i + 1] == x;
  }

  /** Inserting a remove whose addition is still to come keeps what holds of the earlier additions. */
  lemma InsertKeepsConflicts(g: Gentoo, p2r: seq<Artifact>, rmOps: nat, ops: seq<Operation>, c: nat, rm: Operation)
    requires RemovedBeforeConflicts(g, p2r, rmOps, ops) && rm.Removes() && !HasName(ops, rm.Name())
    requires c <= |ops| && (c == |ops| || rmOps < c)
    ensures RemovedBeforeConflicts(g, p2r, rmOps, Insert(ops, c, rm))
  {
    hide Admit, Named;
    var ops' := Insert(ops, c, rm);
    forall q, a | ConflictAt(g, p2r, rmOps, ops', q, a)
      ensures Operation(RemovePackage, Named(p2r, ops'[a].Name())[0]) in ops'[..q]
    {
      ConflictBefore(g, p2r, rmOps, ops, c, rm, q, a);
      PrefixBefore(ops, c, rm, q, Operation(RemovePackage, Named(p2r, ops'[a].Name())[0]));
    }
  }

  /** The position before the insertion at c. */
  function Before(c: nat, i: nat): nat {
    if i <= c then i else i - 1
  }

  /** An addition appended after its remove was inserted at the place that the plan chooses. */
  lemma AppendAfterConflicts(g: Gentoo, p2r: seq<Artifact>, rmOps: nat, ops: seq<Operation>, c: nat, op: Operation)
    requires Named(p2r, op.Name()) != []
    requires rmOps <= |ops| && c == RemovePosition(g, ops, rmOps, op.art.pkg)
    requires RemovedBeforeConflicts(g, p2r, rmOps, Insert(ops, c, Operation(RemovePackage, Named(p2r, op.Name())[0])))
    ensures RemovedBeforeConflicts(g, p2r, rmOps,
                                   Insert(ops, c, Operation(RemovePackage, Named(p2r, op.Name())[0])) + [op])
  {
    hide Admit, Named, FirstConflict;
    var rm := Operation(RemovePackage, Named(p2r, op.Name())[0]);
    assert Named(p2r, op.Name())[0] in Named(p2r, op.Name());
    var ops1 := Insert(ops, c, rm);
    var ops' := ops1 + [op];
    forall q, a | ConflictAt(g, p2r, rmOps, ops', q, a)
      ensures Operation(RemovePackage, Named(p2r, ops'[a].Name())[0]) in ops'[..q]
    {
      assert ops'[..q] == ops1[..q];
      if a < |ops1| {
        assert ops'[a] == ops1[a] && ops'[q] == ops1[q] && PlacedBefore(ops1, q, a);
      } else {
        assert ops1[c] == rm && q != c;
        assert ops'[q] == ops[Before(c, q)];
        assert c < q;
        assert ops'[..q][c] == rm;
      }
    }
  }

  lemma {:induction false} InterleaveRemovesBeforeConflicts(g: Gentoo, p2r: seq<Artifact>, head: seq<Operation>,
                                                            added: seq<Operation>)
    requires DistinctNames(head) && DistinctNames(added)
    requires forall op :: op in head ==> op.Removes() && op.art in p2r && !HasName(added, op.Name())
    requires forall op :: op in added ==> !op.Removes()
    ensures RemovedBeforeConflicts(g, p2r, |head|, Interleave(g, p2r, head, added))
  {
    if added == [] {
      NoConflictsBefore(g, p2r, head);
    } else {
      hide Step, RemovedBeforeConflicts, Interleaved, Named;
      var n := |added| - 1;
      var init, op := added[..n], added[n];
      assert added == init + [op] && op in added;
      HasNameAppend(init, op);
      assert HasName(added, op.Name());
      forall i | 0 <= i < |head| ensures head[i].Name() != op.Name() {
        assert head[i] in head;
      }
      var ops := Interleave(g, p2r, head, init);
      InterleaveIsInterleaved(g, p2r, head, init);
      InterleaveRemovesBeforeConflicts(g, p2r, head, init);
      NameIsNew(ops, p2r, head, init, op.Name());
      ConflictsNextStep(g, p2r, |head|, ops, op);
    }
  }

  lemma NoConflictsBefore(g: Gentoo, p2r: seq<Artifact>, head: seq<Operation>)
    ensures RemovedBeforeConflicts(g, p2r, |head|, head)
  {
  }

  lemma ConflictsNextStep(g: Gentoo, p2r: seq<Artifact>, rmOps: nat, ops: seq<Operation>, op: Operation)
    requires RemovedBeforeConflicts(g, p2r, rmOps, ops) && rmOps <= |ops| && !HasName(ops, op.Name())
    ensures RemovedBeforeConflicts(g, p2r, rmOps, Step(g, p2r, rmOps, ops, op))
  {
    hide Admit, RemovedBeforeConflicts, HasName;
    var rs := Named(p2r, op.Name());
    if rs == [] {
      AppendKeepsConflicts(g, p2r, rmOps, ops, op);
    } else {
      var c := RemovePosition(g, ops, rmOps, op.art.pkg);
      assert rs[0] in rs;
      InsertKeepsConflicts(g, p2r, rmOps, ops, c, Operation(RemovePackage, rs[0]));
      AppendAfterConflicts(g, p2r, rmOps, ops, c, op);
    }
  }

  lemma AppendKeepsConflicts(g: Gentoo, p2r: seq<Artifact>, rmOps: nat, ops: seq<Operation>, op: Operation)
    requires RemovedBeforeConflicts(g, p2r, rmOps, ops) && Named(p2r, op.Name()) == []
    ensures RemovedBeforeConflicts(g, p2r, rmOps, ops + [op])
  {
    hide Admit, Named;
    var ops' := ops + [op];
    forall q, a | ConflictAt(g, p2r, rmOps, ops', q, a)
      ensures Operation(RemovePackage, Named(p2r, ops'[a].Name())[0]) in ops'[..q]
    {
      assert a < |ops| && ops'[a] == ops[a] && ops'[q] == ops[q] && PlacedBefore(ops, q, a);
      assert ops'[..q] == ops[..q];
    }
  }

  // ---------- removes no earlier than they must be ----------

  /** The operation at j is the remove that goes with an addition after a. */
  ghost predicate LaterRemove(ops: seq<Operation>, a: nat, j: nat)
    requires j < |ops|
  {
    ops[j].Removes() && exists b :: a < b < |ops| && !ops[b].Removes() && ops[b].Name() == ops[j].Name()
  }

  /** Between r and y stand only removes that go with later additions, and y is the addition at a, or rejects its new
      version. */
  ghost predicate StandsBefore(g: Gentoo, ops: seq<Operation>, r: nat, a: nat, y: nat) {
    && r < y <= a < |ops| && (forall j :: r < j < y ==> LaterRemove(ops, a, j))
    && (y == a || Admit(g, ops[y].art.pkg, ops[a].art.pkg) == Rejected)
  }

  /** The remove of an added name stands before its addition, or before an operation that rejects the new version, with
      nothing in between but removes that were placed later. */
  ghost predicate RemovedLate(g: Gentoo, ops: seq<Operation>) {
    forall r, a :: 0 <= r < a < |ops| && ops[r].Removes() && !ops[a].Removes() && ops[r].Name() == ops[a].Name()
      ==> exists y: nat :: StandsBefore(g, ops, r, a, y)
  }

  lemma AppendKeepsLate(g: Gentoo, ops: seq<Operation>, op: Operation)
    requires RemovedLate(g, ops) && !HasName(ops, op.Name())
    ensures RemovedLate(g, ops + [op])
  {
    hide Admit;
    var ops' := ops + [op];
    forall r, a | 0 <= r < a < |ops'| && ops'[r].Removes() && !ops'[a].Removes() && ops'[r].Name() == ops'[a].Name()
      ensures exists y: nat :: StandsBefore(g, ops', r, a, y)
    {
      assert ops'[r] == ops[r] && a < |ops|;
      var y: nat :| StandsBefore(g, ops, r, a, y);
      forall j | r < j < y ensures LaterRemove(ops', a, j) {
        assert LaterRemove(ops, a, j);
        var b :| a < b < |ops| && !ops[b].Removes() && ops[b].Name() == ops[j].Name();
        assert ops'[b] == ops[b];
      }
      assert StandsBefore(g, ops', r, a, y);
    }
  }

  /** The position after the insertion at c. */
  function After(c: nat, i: nat): nat {
    if i < c then i else i + 1
  }

  /** What stood before its addition still does, when a remove is inserted whose addition comes last. */
  lemma InsertKeepsLate(g: Gentoo, ops: seq<Operation>, c: nat, rm: Operation, op: Operation, r: nat, a: nat)
    requires RemovedLate(g, ops) && c <= |ops| && rm.Removes() && !op.Removes() && rm.Name() == op.Name()
    requires r < a < |ops| && ops[r].Removes() && !ops[a].Removes() && ops[r].Name() == ops[a].Name()
    ensures exists y: nat :: StandsBefore(g, Insert(ops, c, rm) + [op], After(c, r), After(c, a), y)
  {
    hide Admit;
    InsertShifts(ops, c, rm, op);
    StandsShifts(g, ops, Insert(ops, c, rm) + [op], c, r, a);
  }

  lemma StandsShifts(g: Gentoo, ops: seq<Operation>, ops': seq<Operation>, c: nat, r: nat, a: nat)
    requires RemovedLate(g, ops) && c <= |ops| && |ops'| == |ops| + 2
    requires forall i :: 0 <= i < |ops| ==> ops'[After(c, i)] == ops[i]
    requires ops'[c].Removes() && !ops'[|ops| + 1].Removes() && ops'[c].Name() == ops'[|ops| + 1].Name()
    requires r < a < |ops| && ops[r].Removes() && !ops[a].Removes() && ops[r].Name() == ops[a].Name()
    ensures exists y: nat :: StandsBefore(g, ops', After(c, r), After(c, a), y)
  {
    hide LaterRemove, Admit;
    var y: nat :| StandsBefore(g, ops, r, a, y);
    assert ops'[After(c, y)] == ops[y] && ops'[After(c, a)] == ops[a];
    forall j | After(c, r) < j < After(c, y) ensures LaterRemove(ops', After(c, a), j) {
      if j == c {
        LastIsLater(ops', After(c, a), c, |ops| + 1);
      } else {
        LaterShifts(ops, ops', c, a, if j < c then j else j - 1);
      }
    }
    assert StandsBefore(g, ops', After(c, r), After(c, a), After(c, y));
  }

  lemma InsertShifts(ops: seq<Operation>, c: nat, rm: Operation, op: Operation)
    requires c <= |ops|
    ensures var ops' := Insert(ops, c, rm) + [op];
      |ops'| == |ops| + 2 && ops'[c] == rm && ops'[|ops| + 1] == op
      && forall i :: 0 <= i < |ops| ==> ops'[After(c, i)] == ops[i]
  {
  }

  lemma LastIsLater(ops: seq<Operation>, a: nat, j: nat, b: nat)
    requires j < |ops| && a < b < |ops| && ops[j].Removes() && !ops[b].Removes() && ops[b].Name() == ops[j].Name()
    ensures LaterRemove(ops, a, j)
  {
  }

  lemma LaterShifts(ops: seq<Operation>, ops': seq<Operation>, c: nat, a: nat, j: nat)
    requires |ops| < |ops'| && forall i :: 0 <= i < |ops| ==> ops'[After(c, i)] == ops[i]
    requires j < |ops| && LaterRemove(ops, a, j)
    ensures LaterRemove(ops', After(c, a), After(c, j))
  {
    var b :| a < b < |ops| && !ops[b].Removes() && ops[b].Name() == ops[j].Name();
    assert ops'[After(c, b)] == ops[b] && ops'[After(c, j)] == ops[j];
  }

  /** A remove placed directly before its addition, or before a rejecting operation, is late enough. */
  lemma PlacedIsLate(g: Gentoo, ops: seq<Operation>, c: nat, rm: Operation, op: Operation)
    requires RemovedLate(g, ops) && c <= |ops| && rm.Removes() && !op.Removes() && rm.Name() == op.Name()
    requires !HasName(ops, op.Name())
    requires c < |ops| ==> Admit(g, ops[c].art.pkg, op.art.pkg) == Rejected
    ensures RemovedLate(g, Insert(ops, c, rm) + [op])
  {
    hide Admit;
    var ops' := Insert(ops, c, rm) + [op];
    forall i | 0 <= i < |ops'| && i != c && i < |ops| + 1 ensures ops'[i] == ops[if i < c then i else i - 1] {
    }
    forall r, a | 0 <= r < a < |ops'| && ops'[r].Removes() && !ops'[a].Removes() && ops'[r].Name() == ops'[a].Name()
      ensures exists y: nat :: StandsBefore(g, ops', r, a, y)
    {
      if a == |ops| + 1 {
        assert ops'[a] == op && r == c;
        assert c < |ops| ==> ops'[c + 1] == ops[c];
        assert StandsBefore(g, ops', r, a, c + 1);
      } else {
        assert ops'[c] == rm;
        var r0, a0 := if r < c then r else r - 1, if a < c then a else a - 1;
        assert a != c && ops'[a] == ops[a0];
        assert r != c && ops'[r] == ops[r0];
        InsertKeepsLate(g, ops, c, rm, op, r0, a0);
        assert After(c, r0) == r && After(c, a0) == a;
      }
    }
  }

  /** In the interleaved list no remove comes earlier than it must. */
  lemma {:induction false} InterleaveRemovesLate(g: Gentoo, p2r: seq<Artifact>, head: seq<Operation>,
                                                 added: seq<Operation>)
    requires DistinctNames(head) && DistinctNames(added)
    requires forall op :: op in head ==> op.Removes() && op.art in p2r && !HasName(added, op.Name())
    requires forall op :: op in added ==> !op.Removes()
    ensures RemovedLate(g, Interleave(g, p2r, head, added))
  {
    hide Interleaved, Named, Admit, FirstConflict;
    if added == [] {
      OnlyRemovesAreLate(g, head);
    } else {
      var n := |added| - 1;
      var init, op := added[..n], added[n];
      assert added == init + [op] && op in added;
      HasNameAppend(init, op);
      assert HasName(added, op.Name());
      forall i | 0 <= i < |head| ensures head[i].Name() != op.Name() {
        assert head[i] in head;
      }
      var ops := Interleave(g, p2r, head, init);
      InterleaveIsInterleaved(g, p2r, head, init);
      InterleaveRemovesLate(g, p2r, head, init);
      NameIsNew(ops, p2r, head, init, op.Name());
      StepIsLate(g, p2r, |head|, ops, op);
    }
  }

  lemma OnlyRemovesAreLate(g: Gentoo, head: seq<Operation>)
    requires forall op :: op in head ==> op.Removes()
    ensures RemovedLate(g, head)
  {
    forall i | 0 <= i < |head| ensures head[i].Removes() {
      assert head[i] in head;
    }
  }

  lemma StepIsLate(g: Gentoo, p2r: seq<Artifact>, rmOps: nat, ops: seq<Operation>, op: Operation)
    requires RemovedLate(g, ops) && !HasName(ops, op.Name()) && !op.Removes()
    ensures RemovedLate(g, Step(g, p2r, rmOps, ops, op))
  {
    hide Admit, RemovedLate, HasName;
    var rs := Named(p2r, op.Name());
    if rs == [] {
      AppendKeepsLate(g, ops, op);
    } else {
      assert rs[0] in rs;
      PlacedIsLate(g, ops, RemovePosition(g, ops, rmOps, op.art.pkg), Operation(RemovePackage, rs[0]), op);
    }
  }

  /** The whole plan: the remove of an added name is as late as the operations that reject the new version allow. */
  lemma PlanRemovesLate(g: Gentoo, added: seq<Operation>, p2r: seq<Artifact>)
    requires Orderable(added, p2r)
    ensures RemovedLate(g, Plan(g, added, p2r))
  {
    if p2r == [] {
      forall i | 0 <= i < |added| ensures !added[i].Removes() {
        assert added[i] in added;
      }
    } else if added == [] {
      assert forall i :: 0 <= i < |OnlyRemoves(p2r)| ==> OnlyRemoves(p2r)[i].Removes();
    } else {
      HeadRemovesDistinct(p2r, added);
      InterleaveRemovesLate(g, p2r, HeadRemoves(p2r, added), added);
    }
  }

  // ---------- the order of the pack ----------

  lemma {:induction false} NoneNamed(arts: seq<Artifact>, name: string)
    requires forall a :: a in arts ==> a.pkg.name != name
    ensures Named(arts, name) == []
  {
    if arts != [] {
      assert arts[|arts| - 1] in arts;
      NoneNamed(arts[..|arts| - 1], name);
    }
  }

  /** The first artefact of the name comes first. */
  lemma {:induction false} NamedFirst(arts: seq<Artifact>, name: string, i: nat)
    requires i < |arts| && arts[i].pkg.name == name && forall j :: 0 <= j < i ==> arts[j].pkg.name != name
    ensures Named(arts, name) != [] && Named(arts, name)[0] == arts[i]
    decreases |arts|
  {
    var init := arts[..|arts| - 1];
    if i < |init| {
      NamedFirst(init, name, i);
    } else {
      forall a | a in init ensures a.pkg.name != name {
        var j :| 0 <= j < |init| && init[j] == a;
      }
      NoneNamed(init, name);
    }
  }

  /** The head removes are in the order of the pack. */
  lemma {:induction false} HeadInPackOrder(p2r: seq<Artifact>, added: seq<Operation>) returns (at: seq<nat>)
    ensures |at| == |HeadRemoves(p2r, added)|
    ensures forall i :: 0 <= i < |at| ==> at[i] < |p2r| && HeadRemoves(p2r, added)[i].art == p2r[at[i]]
    ensures forall i, j :: 0 <= i < j < |at| ==> at[i] < at[j]
  {
    if p2r == [] {
      at := [];
    } else {
      var n := |p2r| - 1;
      at := HeadInPackOrder(p2r[..n], added);
      if !HasName(added, p2r[n].pkg.name) {
        at := at + [n];
      }
    }
  }

  // ---------- the whole plan ----------

  lemma HeadRemoveFrom(p2r: seq<Artifact>, n: nat, added: seq<Operation>, op: Operation)
    requires RemovedOnce(p2r, added) && n < |p2r| && op in HeadRemoves(p2r[..n], added)
    ensures op.Name() != p2r[n].pkg.name || HasName(added, op.Name())
  {
    var j :| 0 <= j < n && p2r[..n][j] == op.art;
    assert p2r[j] == op.art;
  }

  lemma {:induction false} HeadRemovesDistinct(p2r: seq<Artifact>, added: seq<Operation>)
    requires RemovedOnce(p2r, added)
    ensures DistinctNames(HeadRemoves(p2r, added))
  {
    if p2r != [] {
      var n := |p2r| - 1;
      HeadRemovesDistinct(p2r[..n], added);
      if !HasName(added, p2r[n].pkg.name) {
        var init := HeadRemoves(p2r[..n], added);
        forall i | 0 <= i < |init| ensures init[i].Name() != p2r[n].pkg.name {
          assert init[i] in init;
          HeadRemoveFrom(p2r, n, added, init[i]);
        }
      }
    }
  }

  lemma OnlyRemovesAt(p2r: seq<Artifact>, a: Artifact)
    requires a in p2r
    ensures Named(p2r, a.pkg.name) != [] && Named(p2r, a.pkg.name)[0] in p2r
    ensures Named(p2r, a.pkg.name)[0].pkg.name == a.pkg.name
    ensures Operation(RemovePackage, Named(p2r, a.pkg.name)[0]) in OnlyRemoves(p2r)
  {
    assert a in Named(p2r, a.pkg.name) && Named(p2r, a.pkg.name)[0] in Named(p2r, a.pkg.name);
    var i :| 0 <= i < |p2r| && p2r[i] == a;
    assert OnlyRemoves(p2r)[i] == Operation(RemovePackage, Named(p2r, a.pkg.name)[0]);
  }

  lemma OnlyRemovesOf(p2r: seq<Artifact>, op: Operation)
    requires op in OnlyRemoves(p2r)
    ensures Named(p2r, op.Name()) != [] && op.art == Named(p2r, op.Name())[0]
  {
    var i :| 0 <= i < |p2r| && OnlyRemoves(p2r)[i] == op;
    OnlyRemovesAt(p2r, p2r[i]);
  }

  /** Without additions every entry of the pack is removed exactly if no two entries share a name: of several versions
      of a package only the first is removed, once for each. */
  lemma OnlyRemovesAll(p2r: seq<Artifact>)
    ensures (forall a :: a in p2r ==> Operation(RemovePackage, a) in OnlyRemoves(p2r)) <==>
            forall a, b :: a in p2r && b in p2r && a.pkg.name == b.pkg.name ==> a == b
  {
    hide Named, OnlyRemoves;
    forall a | a in p2r
      ensures Operation(RemovePackage, a) in OnlyRemoves(p2r) <==>
                Named(p2r, a.pkg.name) != [] && a == Named(p2r, a.pkg.name)[0]
      ensures Named(p2r, a.pkg.name) != [] && Named(p2r, a.pkg.name)[0] in p2r
      ensures Named(p2r, a.pkg.name)[0].pkg.name == a.pkg.name
    {
      OnlyRemovesAt(p2r, a);
      if Operation(RemovePackage, a) in OnlyRemoves(p2r) {
        OnlyRemovesOf(p2r, Operation(RemovePackage, a));
      }
    }
  }

  lemma OnlyRemovesIsPack(p2r: seq<Artifact>)
    requires RemovedOnce(p2r, [])
    ensures OnlyRemoves(p2r) == seq(|p2r|, i requires 0 <= i < |p2r| => Operation(RemovePackage, p2r[i]))
  {
    forall i | 0 <= i < |p2r| ensures Named(p2r, p2r[i].pkg.name)[0] == p2r[i] {
      var a := Named(p2r, p2r[i].pkg.name)[0];
      assert p2r[i] in Named(p2r, p2r[i].pkg.name) && a in Named(p2r, p2r[i].pkg.name);
      var j :| 0 <= j < |p2r| && p2r[j] == a;
    }
  }

  lemma NoRemovesPlan(added: seq<Operation>)
    requires Orderable(added, [])
    ensures RemoveThenAdd(added) && Performs(added, added, []) && Additions(added) == added
  {
    NoRemovesAdditions(added);
  }

  lemma {:induction false} NoRemovesAdditions(added: seq<Operation>)
    requires forall op :: op in added ==> !op.Removes()
    ensures Additions(added) == added
  {
    if added != [] {
      NoRemovesAdditions(added[..|added| - 1]);
      assert added[|added| - 1] in added;
    }
  }

  lemma OnlyRemovesPlan(p2r: seq<Artifact>)
    requires Orderable([], p2r)
    ensures RemoveThenAdd(OnlyRemoves(p2r)) && Performs(OnlyRemoves(p2r), [], p2r) && Additions(OnlyRemoves(p2r)) == []
  {
    OnlyRemovesIsPack(p2r);
    var ops := OnlyRemoves(p2r);
    HeadAdditions(ops);
    forall a | a in p2r ensures Operation(RemovePackage, a) in ops {
      var i :| 0 <= i < |p2r| && p2r[i] == a;
      assert ops[i] == Operation(RemovePackage, a);
    }
  }

  lemma InterleavedPlan(g: Gentoo, added: seq<Operation>, p2r: seq<Artifact>)
    requires Orderable(added, p2r)
    ensures var head := HeadRemoves(p2r, added); var ops := Interleave(g, p2r, head, added);
      && head <= ops && RemoveThenAdd(ops) && Performs(ops, added, p2r) && Additions(ops) == added
      && RemovedBeforeConflicts(g, p2r, |head|, ops)
  {
    var head := HeadRemoves(p2r, added);
    var ops := Interleave(g, p2r, head, added);
    HeadRemovesDistinct(p2r, added);
    InterleaveIsInterleaved(g, p2r, head, added);
    InterleaveRemovesBeforeConflicts(g, p2r, head, added);
    InterleavedRemoves(p2r, added, ops);
  }

  lemma InterleavedRemoves(p2r: seq<Artifact>, added: seq<Operation>, ops: seq<Operation>)
    requires Interleaved(ops, p2r, HeadRemoves(p2r, added), added)
    ensures forall a :: a in p2r ==> RemovesName(ops, a.pkg.name)
  {
    hide RemoveThenAdd, Additions;
    forall a | a in p2r ensures RemovesName(ops, a.pkg.name) {
      if HasName(added, a.pkg.name) {
        var i :| 0 <= i < |added| && added[i].Name() == a.pkg.name;
        assert a in Named(p2r, a.pkg.name) && added[i] in added;
        assert Named(p2r, a.pkg.name)[0] in Named(p2r, a.pkg.name);
        assert Operation(RemovePackage, Named(p2r, a.pkg.name)[0]) in ops;
      } else {
        assert Operation(RemovePackage, a) in HeadRemoves(p2r, added);
      }
    }
  }

  /** The plan performs each requested operation exactly once, keeps the order of the additions, and
      removes the old version of a package before it adds the new one. */
  lemma PlanPerforms(g: Gentoo, added: seq<Operation>, p2r: seq<Artifact>)
    requires Orderable(added, p2r)
    ensures RemoveThenAdd(Plan(g, added, p2r))
    ensures Performs(Plan(g, added, p2r), added, p2r)
    ensures Additions(Plan(g, added, p2r)) == added
  {
    if p2r == [] {
      NoRemovesPlan(added);
    } else if added == [] {
      OnlyRemovesPlan(p2r);
    } else {
      InterleavedPlan(g, added, p2r);
    }
  }

  /** With additions, the removes of packages that are not added again are a prefix of the plan. */
  lemma {:induction false} HeadRemovesFirst(g: Gentoo, added: seq<Operation>, p2r: seq<Artifact>)
    requires Orderable(added, p2r) && added != []
    ensures HeadRemoves(p2r, added) <= Plan(g, added, p2r)
    ensures forall j :: |HeadRemoves(p2r, added)| <= j < |Plan(g, added, p2r)| ==>
              HasName(added, Plan(g, added, p2r)[j].Name())
  {
    hide RemoveThenAdd, Performs, RemovedBeforeConflicts, Interleave, HasName, FirstConflict, Named, Additions;
    var head, ops := HeadRemoves(p2r, added), Plan(g, added, p2r);
    if p2r == [] {
      forall j | 0 <= j < |ops| ensures HasName(added, ops[j].Name()) {
        NameOf(added, j);
      }
    } else {
      InterleavedPlan(g, added, p2r);
      HeadRemovesDistinct(p2r, added);
      InterleaveIsInterleaved(g, p2r, head, added);
      forall j | |head| <= j < |ops| ensures HasName(added, ops[j].Name()) {
        assert ops[j] in ops;
        BeyondHead(head, ops, j);
      }
    }
  }

  lemma NameOf(ops: seq<Operation>, j: nat)
    requires j < |ops|
    ensures HasName(ops, ops[j].Name())
  {
  }

  lemma BeyondHead(head: seq<Operation>, ops: seq<Operation>, j: nat)
    requires head <= ops && RemoveThenAdd(ops) && forall op :: op in head ==> op.Removes()
    requires |head| <= j < |ops|
    ensures ops[j] !in head
  {
    forall i | 0 <= i < |head| ensures head[i] != ops[j] {
      assert head[i] == ops[i] && head[i] in head;
    }
  }

  // ---------- the operation that the scan never looks at ----------

  /** The first operation after the head removes, placed before the addition at a that has a remove, rejects the
      new version. */
  ghost predicate ConflictAtFirst(g: Gentoo, p2r: seq<Artifact>, rmOps: nat, ops: seq<Operation>, a: int) {
    && rmOps < a < |ops| && !ops[a].Removes() && Named(p2r, ops[a].Name()) != []
    && ops[rmOps].Name() != ops[a].Name() && PlacedBefore(ops, rmOps, a)
    && Admit(g, ops[rmOps].art.pkg, ops[a].art.pkg) == Rejected
  }

  /** The remove that goes with an addition precedes every rejecting operation, the first one included. */
  ghost predicate RemovedBeforeAllConflicts(g: Gentoo, p2r: seq<Artifact>, rmOps: nat, ops: seq<Operation>) {
    && RemovedBeforeConflicts(g, p2r, rmOps, ops)
    && forall a :: ConflictAtFirst(g, p2r, rmOps, ops, a)
         ==> Operation(RemovePackage, Named(p2r, ops[a].Name())[0]) in ops[..rmOps]
  }

  /** The first operation after the head removes: the first addition, or its remove if it has one. */
  function FirstPlaced(p2r: seq<Artifact>, added: seq<Operation>): Operation
    requires added != []
  {
    var rs := Named(p2r, added[0].Name());
    if rs == [] then added[0] else Operation(RemovePackage, rs[0])
  }

  /** It rejects a later addition that has a remove. */
  ghost predicate FirstRejects(g: Gentoo, p2r: seq<Artifact>, added: seq<Operation>)
    requires added != []
  {
    exists t :: 1 <= t < |added| && Named(p2r, added[t].Name()) != []
                && Admit(g, FirstPlaced(p2r, added).art.pkg, added[t].art.pkg) == Rejected
  }

  lemma {:induction false} FirstStays(g: Gentoo, p2r: seq<Artifact>, head: seq<Operation>, added: seq<Operation>)
    requires added != []
    ensures var ops := Interleave(g, p2r, head, added);
      |head| < |ops| && ops[|head|] == FirstPlaced(p2r, added)
  {
    hide FirstConflict, Named;
    var n := |added| - 1;
    if n > 0 {
      FirstStays(g, p2r, head, added[..n]);
    } else {
      assert Interleave(g, p2r, head, added[..n]) == head;
    }
  }

  /** The additions of the list come in their order: the first of them is before every other. */
  lemma FirstAdditionFirst(ops: seq<Operation>, added: seq<Operation>, b: nat, a: nat)
    requires Additions(ops) == added && DistinctNames(added) && added != []
    requires a < |ops| && b < |ops| && ops[b] == added[0] && !ops[b].Removes() && !ops[a].Removes() &&
             ops[a].Name() != ops[b].Name()
    ensures b < a
  {
    AdditionsAt(ops, b);
    var before := Additions(ops[..b]);
    assert |before| == 0 by {
      assert added[|before|] == added[0];
    }
    forall i | 0 <= i < b ensures ops[i].Removes() {
      assert ops[..b][i] == ops[i];
      AdditionIn(ops[..b], i);
    }
  }

  lemma AdditionIn(ops: seq<Operation>, i: nat)
    requires i < |ops|
    ensures !ops[i].Removes() ==> ops[i] in Additions(ops)
  {
    if !ops[i].Removes() {
      AdditionsAt(ops, i);
    }
  }

  /** The list is the plan of the additions after the head, its first operation is the one placed first. */
  ghost predicate PlanAfterHead(ops: seq<Operation>, head: seq<Operation>, added: seq<Operation>, p2r: seq<Artifact>)
    requires added != []
  {
    && DistinctNames(added) && Additions(ops) == added && head <= ops
    && |head| < |ops| && ops[|head|] == FirstPlaced(p2r, added)
    && (forall op :: op in added ==> !op.Removes())
    && (forall op :: op in head ==> op.Removes())
  }

  lemma FirstPlacedName(p2r: seq<Artifact>, added: seq<Operation>)
    requires added != []
    ensures FirstPlaced(p2r, added).Name() == added[0].Name()
  {
    if Named(p2r, added[0].Name()) != [] {
      assert Named(p2r, added[0].Name())[0] in Named(p2r, added[0].Name());
    }
  }

  lemma FirstConflictFrom(g: Gentoo, added: seq<Operation>, p2r: seq<Artifact>, head: seq<Operation>,
                          ops: seq<Operation>)
    requires added != [] && PlanAfterHead(ops, head, added, p2r) && FirstRejects(g, p2r, added)
    ensures exists a :: ConflictAtFirst(g, p2r, |head|, ops, a)
  {
    hide Additions, Admit, Named, FirstPlaced;
    FirstPlacedName(p2r, added);
    var t :| 1 <= t < |added| && Named(p2r, added[t].Name()) != []
          && Admit(g, FirstPlaced(p2r, added).art.pkg, added[t].art.pkg) == Rejected;
    assert added[t] in Additions(ops) && added[0] in Additions(ops);
    var a :| 0 <= a < |ops| && ops[a] == added[t];
    var b :| 0 <= b < |ops| && ops[b] == added[0];
    FirstAdditionFirst(ops, added, b, a);
    forall i | 0 <= i < |head| ensures ops[i].Removes() {
      assert head[i] == ops[i] && head[i] in head;
    }
    assert PlacedBefore(ops, |head|, a);
    assert ConflictAtFirst(g, p2r, |head|, ops, a);
  }

  lemma FirstConflictOnly(g: Gentoo, added: seq<Operation>, p2r: seq<Artifact>, head: seq<Operation>,
                          ops: seq<Operation>, a: int)
    requires added != [] && PlanAfterHead(ops, head, added, p2r) && ConflictAtFirst(g, p2r, |head|, ops, a)
    ensures FirstRejects(g, p2r, added)
  {
    hide Additions, Admit, Named, FirstPlaced;
    FirstPlacedName(p2r, added);
    assert ops[a] in Additions(ops);
    var t :| 0 <= t < |added| && added[t] == ops[a];
    assert t != 0;
  }

  /** The scan starts above the first operation after the head removes.  So that operation can come before the
      remove of a version that it rejects: exactly when it rejects a later addition that has a remove. */
  lemma RemovesBeforeAllConflicts(g: Gentoo, added: seq<Operation>, p2r: seq<Artifact>)
    requires Orderable(added, p2r) && added != []
    ensures var head := HeadRemoves(p2r, added);
      RemovedBeforeAllConflicts(g, p2r, |head|, Interleave(g, p2r, head, added)) <==> !FirstRejects(g, p2r, added)
  {
    hide RemovedBeforeConflicts, RemovedBeforeAllConflicts, ConflictAtFirst, FirstRejects, FirstPlaced, Interleave,
      Orderable, RemoveThenAdd, Performs, Additions;
    var head := HeadRemoves(p2r, added);
    var ops := Interleave(g, p2r, head, added);
    InterleavedPlan(g, added, p2r);
    FirstStays(g, p2r, head, added);
    PlanFacts(g, added, p2r);
    assert PlanAfterHead(ops, head, added, p2r);
    if FirstRejects(g, p2r, added) {
      FirstConflictFrom(g, added, p2r, head, ops);
    }
    if a :| ConflictAtFirst(g, p2r, |head|, ops, a) {
      FirstConflictOnly(g, added, p2r, head, ops, a);
    }
    NoneAmongHead(g, p2r, added, ops);
  }

  /** The head removes are about other names, so they never hold the remove of an addition. */
  lemma NoneAmongHead(g: Gentoo, p2r: seq<Artifact>, added: seq<Operation>, ops: seq<Operation>)
    requires HeadRemoves(p2r, added) <= ops && forall op :: op in ops && !op.Removes() ==> op in added
    requires RemovedBeforeConflicts(g, p2r, |HeadRemoves(p2r, added)|, ops)
    ensures RemovedBeforeAllConflicts(g, p2r, |HeadRemoves(p2r, added)|, ops) <==>
            !exists a :: ConflictAtFirst(g, p2r, |HeadRemoves(p2r, added)|, ops, a)
  {
    hide Admit, PlacedBefore, RemovedBeforeConflicts;
    var rmOps := |HeadRemoves(p2r, added)|;
    forall a | ConflictAtFirst(g, p2r, rmOps, ops, a)
      ensures Operation(RemovePackage, Named(p2r, ops[a].Name())[0]) !in ops[..rmOps]
    {
      assert ops[a] in ops;
      NotAmongHead(g, p2r, added, ops, a);
    }
  }

  lemma PlanFacts(g: Gentoo, added: seq<Operation>, p2r: seq<Artifact>)
    requires Orderable(added, p2r)
    ensures var head := HeadRemoves(p2r, added); var ops := Interleave(g, p2r, head, added);
      && DistinctNames(added) && Interleaved(ops, p2r, head, added)
      && (forall op :: op in added ==> op in ops && !op.Removes()) && (forall op :: op in head ==> op.Removes())
      && (forall op :: op in ops && !op.Removes() ==> op in added)
  {
    HeadRemovesDistinct(p2r, added);
    InterleaveIsInterleaved(g, p2r, HeadRemoves(p2r, added), added);
    InterleavedPlan(g, added, p2r);
  }

  lemma NotAmongHead(g: Gentoo, p2r: seq<Artifact>, added: seq<Operation>, ops: seq<Operation>, a: int)
    requires var head := HeadRemoves(p2r, added);
      ConflictAtFirst(g, p2r, |head|, ops, a) && head <= ops && ops[a] in added
    ensures Operation(RemovePackage, Named(p2r, ops[a].Name())[0]) !in ops[..|HeadRemoves(p2r, added)|]
  {
    hide Admit;
    var head, n := HeadRemoves(p2r, added), ops[a].Name();
    var r := Named(p2r, n)[0];
    assert r in Named(p2r, n);
    var i :| 0 <= i < |added| && added[i] == ops[a];
    assert HasName(added, n) && ops[..|head|] == head;
  }

  /** The package a 1 conflicts with q 2.  The plan that adds a 1 and updates q 1 to q 2 adds a 1 first, then
      removes q 1. */
  lemma FirstRejectsExample(g: Gentoo)
    requires g.parses(Atom("q", "2")) && g.verdict(Atom("q", "2"), Atom("q", "2")) == Admitted
    ensures var a := Operation(AddPackage, Artifact(Package("a", "1", [], [Atom("q", "2")], []), []));
      var q := Operation(UpdatePackage, Artifact(Package("q", "2", [], [], []), []));
      var q1 := Artifact(Package("q", "1", [], [], []), []);
      && Orderable([a, q], [q1])
      && Admit(g, a.art.pkg, q.art.pkg) == Rejected
      && Plan(g, [a, q], [q1]) == [a, Operation(RemovePackage, q1), q]
  {
    var a := Operation(AddPackage, Artifact(Package("a", "1", [], [Atom("q", "2")], []), []));
    var q := Operation(UpdatePackage, Artifact(Package("q", "2", [], [], []), []));
    var q1 := Artifact(Package("q", "1", [], [], []), []);
    RejectedByConflict(g, a.art.pkg, Atom("q", "2"), q.art.pkg);
    hide Admit;
    assert [a, q][0].Name() == "a" && [a, q][1].Name() == "q";
    assert HasName([a, q], "q");
    TwoOperations(g, a, q, q1);
  }

  /** The plan of two additions, of which the second has a remove: the first is never looked at. */
  lemma TwoOperations(g: Gentoo, a: Operation, q: Operation, q1: Artifact)
    requires a.Name() != q.Name() && q1.pkg.name == q.Name()
    ensures Plan(g, [a, q], [q1]) == [a, Operation(RemovePackage, q1), q]
  {
    hide Admit;
    var added := [a, q];
    assert [q1][..0] == [];
    assert Named([q1], q.Name()) == [q1] && Named([q1], a.Name()) == [];
    assert added[1].Name() == q.Name() && HasName(added, q.Name());
    assert HeadRemoves([q1], added) == [];
    hide HeadRemoves, Named;
    assert added[..1] == [a] && [a][..0] == [];
    assert Interleave(g, [q1], [], []) == [];
    assert Interleave(g, [q1], [], [a]) == [] + [a];
    assert RemovePosition(g, [a], 0, q.art.pkg) == 1;
    assert Insert([a], 1, Operation(RemovePackage, q1)) == [a, Operation(RemovePackage, q1)];
    assert Interleave(g, [q1], [], added) == Step(g, [q1], 0, [a], q);
  }

  /** A package whose only conflict is a selector of p, by name and version, rejects p. */
  lemma RejectedByConflict(g: Gentoo, o: Package, r: Atom, p: Package)
    requires o.deps == [] && o.conflicts == [r] && r.name == p.name
    requires g.parses(r) && g.parses(p.ToAtom()) && g.verdict(r, p.ToAtom()) == Admitted
    ensures Admit(g, o, p) == Rejected
  {
    var targets := [p.ToAtom()];
    assert Targets(r, p) == targets && targets[1..] == [] && [r][1..] == [];
    assert CheckTargets(g, r, targets, Rejected) == Admitted;
    assert CheckSelectors(g, [r], p, Rejected) == Admitted;
  }

  /** The operations are the requested ones, in some order. */
  ghost predicate OrdersAll(added: seq<Operation>, wanted: set<Operation>) {
    DistinctNames(added) && forall op :: op in added <==> op in wanted
  }

  /** What is placed first if op is the first addition. */
  function PlacedFor(p2r: seq<Artifact>, op: Operation): Operation {
    FirstPlaced(p2r, [op])
  }

  /** Of the requested additions, o1 placed first rejects o2, which has a remove. */
  ghost predicate RejectsAtFront(g: Gentoo, p2r: seq<Artifact>, o1: Operation, o2: Operation) {
    o1 != o2 && Named(p2r, o2.Name()) != [] && Admit(g, PlacedFor(p2r, o1).art.pkg, o2.art.pkg) == Rejected
  }

  /** What the packs must satisfy: the requested additions have different names, and a name listed twice for removal
      is among them. */
  ghost predicate OrderableSet(wanted: set<Operation>, p2r: seq<Artifact>) {
    && (forall o1, o2 :: o1 in wanted && o2 in wanted && o1 != o2 ==> o1.Name() != o2.Name())
    && (forall op :: op in wanted ==> !op.Removes())
    && forall i, j :: 0 <= i < j < |p2r| && p2r[i].pkg.name == p2r[j].pkg.name
         ==> exists op :: op in wanted && op.Name() == p2r[i].pkg.name
  }

  /** Over all orders of the additions: every remove precedes every operation that rejects the new version exactly if
      no requested addition, placed first, rejects another that has a remove. */
  lemma RemovesBeforeAllConflictsInEveryOrder(g: Gentoo, wanted: set<Operation>, p2r: seq<Artifact>)
    requires wanted != {} && OrderableSet(wanted, p2r)
    ensures (forall added :: added != [] && OrdersAll(added, wanted) ==>
               var head := HeadRemoves(p2r, added);
               RemovedBeforeAllConflicts(g, p2r, |head|, Interleave(g, p2r, head, added)))
            <==> forall o1, o2 :: o1 in wanted && o2 in wanted ==> !RejectsAtFront(g, p2r, o1, o2)
  {
    hide RemovedBeforeAllConflicts, Interleave, Admit, FirstPlaced, Named, FirstRejects, RejectsAtFront, Orderable;
    forall added | added != [] && OrdersAll(added, wanted)
      ensures Orderable(added, p2r)
      ensures var head := HeadRemoves(p2r, added);
        RemovedBeforeAllConflicts(g, p2r, |head|, Interleave(g, p2r, head, added)) <==> !FirstRejects(g, p2r, added)
      ensures (forall o1, o2 :: o1 in wanted && o2 in wanted ==> !RejectsAtFront(g, p2r, o1, o2)) ==>
                !FirstRejects(g, p2r, added)
    {
      OrderableOrder(added, wanted, p2r);
      RemovesBeforeAllConflicts(g, added, p2r);
      FrontOf(g, p2r, added, wanted);
    }
    if o1, o2 :| o1 in wanted && o2 in wanted && RejectsAtFront(g, p2r, o1, o2) {
      var added := OrderFrom(wanted, o1);
      FrontFirst(g, p2r, added, wanted, o2);
    }
  }

  lemma OrderableOrder(added: seq<Operation>, wanted: set<Operation>, p2r: seq<Artifact>)
    requires OrdersAll(added, wanted) && OrderableSet(wanted, p2r)
    ensures Orderable(added, p2r)
  {
    forall i, j | 0 <= i < j < |p2r| && p2r[i].pkg.name == p2r[j].pkg.name ensures HasName(added, p2r[i].pkg.name) {
      var op :| op in wanted && op.Name() == p2r[i].pkg.name;
      assert op in added;
    }
  }

  lemma FrontOf(g: Gentoo, p2r: seq<Artifact>, added: seq<Operation>, wanted: set<Operation>)
    requires added != [] && OrdersAll(added, wanted)
    ensures FirstRejects(g, p2r, added) ==>
              exists o1, o2 :: o1 in wanted && o2 in wanted && RejectsAtFront(g, p2r, o1, o2)
  {
    hide Admit, Named;
    if FirstRejects(g, p2r, added) {
      var t :| 1 <= t < |added| && Named(p2r, added[t].Name()) != []
            && Admit(g, FirstPlaced(p2r, added).art.pkg, added[t].art.pkg) == Rejected;
      assert added[0].Name() != added[t].Name();
      assert RejectsAtFront(g, p2r, added[0], added[t]);
    }
  }

  lemma FrontFirst(g: Gentoo, p2r: seq<Artifact>, added: seq<Operation>, wanted: set<Operation>, o2: Operation)
    requires added != [] && OrdersAll(added, wanted) && o2 in wanted && RejectsAtFront(g, p2r, added[0], o2)
    ensures FirstRejects(g, p2r, added)
  {
    hide Admit, Named;
    assert o2 in added;
    var t :| 0 <= t < |added| && added[t] == o2;
  }

  lemma {:induction false} OrderFrom(wanted: set<Operation>, first: Operation) returns (added: seq<Operation>)
    requires first in wanted && forall o1, o2 :: o1 in wanted && o2 in wanted && o1 != o2 ==> o1.Name() != o2.Name()
    ensures added != [] && added[0] == first && OrdersAll(added, wanted)
    decreases |wanted|
  {
    if wanted == {first} {
      added := [first];
    } else {
      var o :| o in wanted && o != first;
      var rest := OrderFrom(wanted - {o}, first);
      added := rest + [o];
      forall i, j | 0 <= i < j < |added| ensures added[i].Name() != added[j].Name() {
        assert added[i] == rest[i] && rest[i] in rest;
        assert j < |rest| ==> added[j] == rest[j];
      }
      assert forall op :: op in added <==> op in rest || op == o;
    }
  }

  // ---------- dependencies in the plan ----------

  /** Every require that the transaction adds is added earlier. */
  ghost predicate DependenciesAddedFirst(ops: seq<Operation>, added: seq<Operation>) {
    forall j, d :: 0 <= j < |ops| && !ops[j].Removes() && d in ops[j].art.pkg.deps && HasName(added, d.name)
      ==> exists i :: 0 <= i < j && !ops[i].Removes() && ops[i].Name() == d.name
  }

  lemma AdditionsAt(ops: seq<Operation>, j: nat)
    requires j < |ops| && !ops[j].Removes()
    ensures |Additions(ops[..j])| < |Additions(ops)|
    ensures Additions(ops)[..|Additions(ops[..j])|] == Additions(ops[..j])
    ensures Additions(ops)[|Additions(ops[..j])|] == ops[j]
  {
    hide Additions;
    var before, after := ops[..j + 1], ops[j + 1..];
    assert before == ops[..j] + [ops[j]];
    assert ops == before + after;
    AdditionsSnoc(ops[..j], ops[j]);
    AdditionsConcat(before, after);
  }

  /** Placing removes between additions keeps dependencies first. */
  lemma PlanKeepsDependenciesFirst(g: Gentoo, added: seq<Operation>, p2r: seq<Artifact>)
    requires Orderable(added, p2r) && DependenciesAddedFirst(added, added)
    ensures DependenciesAddedFirst(Plan(g, added, p2r), added)
  {
    hide Plan, Orderable, RemoveThenAdd, Performs, HasName;
    var ops := Plan(g, added, p2r);
    PlanPerforms(g, added, p2r);
    forall j, d | 0 <= j < |ops| && !ops[j].Removes() && d in ops[j].art.pkg.deps && HasName(added, d.name)
      ensures exists i :: 0 <= i < j && !ops[i].Removes() && ops[i].Name() == d.name
    {
      AdditionsAt(ops, j);
      var adds := Additions(ops[..j]);
      assert added[|adds|] == ops[j];
      var i :| 0 <= i < |adds| && !added[i].Removes() && added[i].Name() == d.name;
      assert added[i] == added[..|adds|][i] == adds[i] && adds[i] in adds;
      var k :| 0 <= k < j && ops[..j][k] == adds[i];
      assert ops[k] == adds[i];
    }
  }
}
