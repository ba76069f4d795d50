/** Helpers that several modules share. */
module Wrappers {
  /** At these positions, which go up, is all of s that is to be kept, and kept is what f makes of it. */
  ghost predicate KeepsInOrder<T(!new), U(!new)>(s: seq<T>, keep: T -> bool, f: T -> U, kept: seq<U>, at: seq<nat>) {
    && |at| == |kept|
    && (forall i, j :: 0 <= i < j < |at| ==> at[i] < at[j])
    && (forall i :: 0 <= i < |at| ==> at[i] < |s| && kept[i] == f(s[at[i]]))
    && (forall k: nat :: k < |s| ==> (k in at <==> keep(s[k])))
  }

  lemma KeepsNext<T(!new), U(!new)>(s: seq<T>, keep: T -> bool, f: T -> U, kept: seq<U>, at: seq<nat>)
    requires s != [] && KeepsInOrder(s[..|s| - 1], keep, f, kept, at)
    ensures if keep(s[|s| - 1]) then KeepsInOrder(s, keep, f, kept + [f(s[|s| - 1])], at + [|s| - 1])
            else KeepsInOrder(s, keep, f, kept, at)
  {
  }

  datatype Option<+T> = None | Some(value: T)

  ghost predicate NoRepeats<T>(s: seq<T>) {
    forall i, j :: 0 <= i < j < |s| ==> s[i] != s[j]
  }
}
