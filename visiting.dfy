/** Callback iteration with early stop. The table and its indexes hand items
    to a visitor one at a time, in order; the visitor may return an error,
    which stops the iteration and is returned to the caller unchanged. A
    visitor is modelled as a function of the call's position (0 for the first
    call), so a visitor that counts its calls, as the tests' visitors do, is
    one of them. */
module Visiting {
  import opened Wrappers

  /** `visited` and `err` are what iterating over `items` with `visit`
      reports: the items handed to the visitor, in order, and the error that
      stopped the iteration, if any. */
  predicate VisitedUntilError<T(==)>(items: seq<T>, visit: (nat, T) -> Option<string>, visited: seq<T>, err: Option<string>) {
    && visited <= items
    && (err.None? ==> visited == items && forall j :: 0 <= j < |items| ==> visit(j, items[j]).None?)
    && (err.Some? ==>
          && |visited| > 0
          && visit(|visited| - 1, items[|visited| - 1]) == err
          && forall j :: 0 <= j < |visited| - 1 ==> visit(j, items[j]).None?)
  }

  /** If the first failing call is the one at position `n`, exactly n + 1
      items are visited and that call's error is returned. */
  lemma StopsAtFirstError<T>(items: seq<T>, visit: (nat, T) -> Option<string>, visited: seq<T>, err: Option<string>, n: nat)
    requires VisitedUntilError(items, visit, visited, err)
    requires n < |items| && visit(n, items[n]).Some?
    requires forall j :: 0 <= j < n ==> visit(j, items[j]).None?
    ensures |visited| == n + 1 && visited == items[..n + 1]
    ensures err == visit(n, items[n])
  {
    assert err.Some?;
  }

  /** An iteration over `done + [item] + rest` that stops on the visitor's
      error for `item` has visited `done + [item]`. */
  lemma Stopped<T>(items: seq<T>, visit: (nat, T) -> Option<string>, done: seq<T>, item: T, rest: seq<T>, err: Option<string>)
    requires items == done + [item] + rest
    requires forall j :: 0 <= j < |done| ==> visit(j, done[j]).None?
    requires err.Some? && visit(|done|, item) == err
    ensures VisitedUntilError(items, visit, done + [item], err)
  {
    assert done + [item] <= items;
  }

  /** One more item the visitor accepted keeps every visited item accepted. */
  lemma Passed<T>(visit: (nat, T) -> Option<string>, done: seq<T>, item: T)
    requires forall j :: 0 <= j < |done| ==> visit(j, done[j]).None?
    requires visit(|done|, item).None?
    ensures forall j :: 0 <= j < |done + [item]| ==> visit(j, (done + [item])[j]).None?
  {
    forall j | 0 <= j < |done + [item]|
      ensures visit(j, (done + [item])[j]).None?
    {
      if j < |done| {
        assert (done + [item])[j] == done[j];
      }
    }
  }

  /** An iteration that stops on the visitor's error for the item at
      position `j` has visited the first j + 1 items. */
  lemma StoppedAt<T>(items: seq<T>, visit: (nat, T) -> Option<string>, j: nat, err: Option<string>)
    requires j < |items|
    requires forall m :: 0 <= m < j ==> visit(m, items[m]).None?
    requires err.Some? && visit(j, items[j]) == err
    ensures VisitedUntilError(items, visit, items[..j + 1], err)
  {
  }

  lemma PrefixStep<T>(s: seq<T>, j: nat)
    requires j < |s|
    ensures s[..j + 1] == s[..j] + [s[j]]
  {
  }

  /** A visitor that never fails sees every item, once, in order. */
  lemma VisitsAll<T>(items: seq<T>, visit: (nat, T) -> Option<string>, visited: seq<T>, err: Option<string>)
    requires VisitedUntilError(items, visit, visited, err)
    requires forall j :: 0 <= j < |items| ==> visit(j, items[j]).None?
    ensures err.None? && visited == items
  {
  }
}
