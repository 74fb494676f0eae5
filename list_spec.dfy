/**
 * What the list operations do to the sequence of stored values, stated on
 * plain sequences. The heap model in module LL is proved against these
 * definitions, and the lemmas here state how the operations relate.
 */
module ListSpec {

  /** The contents after a value is spliced in so that it lands at index `n`. */
  function InsertAt<T>(s: seq<T>, n: nat, v: T): (r: seq<T>)
    requires n <= |s|
    ensures |r| == |s| + 1 && r[n] == v
    ensures forall i :: 0 <= i < n ==> r[i] == s[i]
    ensures forall i :: n < i < |r| ==> r[i] == s[i - 1]
  {
    s[..n] + [v] + s[n..]
  }

  /** The contents after the element at index `n` is unlinked. */
  function RemoveAt<T>(s: seq<T>, n: nat): (r: seq<T>)
    requires n < |s|
    ensures |r| == |s| - 1
    ensures forall i :: 0 <= i < n ==> r[i] == s[i]
    ensures forall i :: n <= i < |r| ==> r[i] == s[i + 1]
  {
    s[..n] + s[n + 1..]
  }

  /** The elements of a sequence, as a set. */
  ghost function Elems<T>(s: seq<T>): set<T>
  {
    set x | x in s
  }

  /** No element occurs twice in `s`. */
  ghost predicate Distinct<T>(s: seq<T>)
  {
    forall i, j :: 0 <= i < j < |s| ==> s[i] != s[j]
  }

  /** Inserting adds exactly the new element to the set of elements. */
  lemma ElemsOfInsert<T>(s: seq<T>, n: nat, v: T)
    requires n <= |s|
    ensures Elems(InsertAt(s, n, v)) == Elems(s) + {v}
  {
  }

  /** Unlinking from a sequence without repeats drops exactly the removed element. */
  lemma ElemsOfRemove<T>(s: seq<T>, n: nat)
    requires n < |s| && Distinct(s)
    ensures Elems(RemoveAt(s, n)) == Elems(s) - {s[n]}
  {
  }

  /** Inserting an element that is not yet present keeps a sequence free of repeats. */
  lemma DistinctInsert<T>(s: seq<T>, n: nat, v: T)
    requires n <= |s| && Distinct(s) && v !in s
    ensures Distinct(InsertAt(s, n, v))
  {
  }

  /** Unlinking keeps a sequence free of repeats. */
  lemma DistinctRemove<T>(s: seq<T>, n: nat)
    requires n < |s| && Distinct(s)
    ensures Distinct(RemoveAt(s, n))
  {
  }

  /** Removing the element just inserted gives back the original contents. */
  lemma RemoveUndoesInsert<T>(s: seq<T>, n: nat, v: T)
    requires n <= |s|
    ensures RemoveAt(InsertAt(s, n, v), n) == s
  {
  }

  /** Putting a removed element back at its index gives back the original contents. */
  lemma InsertUndoesRemove<T>(s: seq<T>, n: nat)
    requires n < |s|
    ensures InsertAt(RemoveAt(s, n), n, s[n]) == s
  {
  }

  /**
   * The index of the first element on which `cond` holds, or |s| when there
   * is none: the position where the search in ll_remove_search stops.
   */
  function FirstMatch<T>(s: seq<T>, cond: T -> bool): (k: nat)
    ensures k <= |s|
    ensures forall i :: 0 <= i < k ==> !cond(s[i])
    ensures k < |s| ==> cond(s[k])
  {
    if s == [] || cond(s[0]) then 0 else 1 + FirstMatch(s[1..], cond)
  }

  /**
   * The external state after a callback `f` has been applied to each value of
   * `s`, first to last, starting from `st`.
   */
  function Fold<S, T>(f: (S, T) -> S, st: S, s: seq<T>): S
  {
    if s == [] then st else Fold(f, f(st, s[0]), s[1..])
  }

  /** Applying the callback to one more value at the end extends the fold by one step. */
  lemma {:induction false} FoldSnoc<S, T>(f: (S, T) -> S, st: S, s: seq<T>, x: T)
    ensures Fold(f, st, s + [x]) == f(Fold(f, st, s), x)
  {
    if s == [] {
      assert [] + [x] == [x];
    } else {
      assert (s + [x])[1..] == s[1..] + [x];
      FoldSnoc(f, f(st, s[0]), s[1..], x);
    }
  }

  /** A callback that records the value it is called on. */
  function Record<T>(trace: seq<T>, x: T): seq<T>
  {
    trace + [x]
  }

  /**
   * Folding a recording callback over `s` records every value of `s` exactly
   * once, in order: the callback sees the list from head to tail.
   */
  lemma {:induction false} FoldRecordsInOrder<T>(trace: seq<T>, s: seq<T>)
    ensures Fold(Record, trace, s) == trace + s
    decreases s
  {
    if s != [] {
      FoldRecordsInOrder(trace + [s[0]], s[1..]);
      assert trace + [s[0]] + s[1..] == trace + s;
    }
  }

  /** The contents after each value of `vs`, in order, is inserted at index 0. */
  function InsertAllFirst<T>(s: seq<T>, vs: seq<T>): seq<T>
    decreases vs
  {
    if vs == [] then s else InsertAllFirst(InsertAt(s, 0, vs[0]), vs[1..])
  }

  /**
   * Inserting values at the front one after another leaves them in reverse
   * order of insertion, ahead of what was there before.
   */
  lemma {:induction false} FrontInsertsReverse<T>(s: seq<T>, vs: seq<T>)
    ensures |InsertAllFirst(s, vs)| == |vs| + |s|
    ensures forall i :: 0 <= i < |vs| ==> InsertAllFirst(s, vs)[i] == vs[|vs| - 1 - i]
    ensures forall j :: 0 <= j < |s| ==> InsertAllFirst(s, vs)[|vs| + j] == s[j]
    decreases vs
  {
    if vs != [] {
      var s' := InsertAt(s, 0, vs[0]);
      FrontInsertsReverse(s', vs[1..]);
      var r := InsertAllFirst(s, vs);
      assert r == InsertAllFirst(s', vs[1..]);
      forall i | 0 <= i < |vs| ensures r[i] == vs[|vs| - 1 - i] {
        if i < |vs| - 1 {
          assert r[i] == vs[1..][|vs| - 2 - i];
        } else {
          assert r[i] == s'[0];
        }
      }
      forall j | 0 <= j < |s| ensures r[|vs| + j] == s[j] {
        assert r[|vs| - 1 + (j + 1)] == s'[j + 1];
      }
    }
  }
}
