/**
 * The optional value the predictors return where the scripts return None, and
 * the values of a list of such results (what a loop appending only the
 * non-None results collects).
 */
module Wrappers {

  datatype Option<+T> = None | Some(value: T)

  /** `map(f, s)` as a list: f applied to every element, in order. */
  function Map<A, B>(f: A --> B, s: seq<A>): (r: seq<B>)
    requires forall i :: 0 <= i < |s| ==> f.requires(s[i])
    ensures |r| == |s| && forall i :: 0 <= i < |s| ==> r[i] == f(s[i])
  {
    seq(|s|, i requires 0 <= i < |s| => f(s[i]))
  }

  lemma MapAppend<A, B>(f: A --> B, a: seq<A>, b: seq<A>)
    requires forall i :: 0 <= i < |a| ==> f.requires(a[i])
    requires forall i :: 0 <= i < |b| ==> f.requires(b[i])
    ensures Map(f, a + b) == Map(f, a) + Map(f, b)
  {
  }

  /** The values of the present entries, in order. */
  function Values<T>(entries: seq<Option<T>>): (values: seq<T>)
    ensures |values| <= |entries|
    decreases |entries|
  {
    if entries == [] then []
    else
      Values(entries[..|entries| - 1])
        + match entries[|entries| - 1] case Some(x) => [x] case None => []
  }

  /** Values of consecutive batches concatenate: order is kept. */
  lemma {:induction false} ValuesAppend<T>(a: seq<Option<T>>, b: seq<Option<T>>)
    ensures Values(a + b) == Values(a) + Values(b)
    decreases |b|
  {
    if b == [] {
      assert a + b == a;
    } else {
      var b' := b[..|b| - 1];
      assert (a + b)[..|a + b| - 1] == a + b';
      assert (a + b)[|a + b| - 1] == b[|b| - 1];
      ValuesAppend(a, b');
    }
  }

  /** An absent entry leaves the values as if it were not there. */
  lemma ValuesSkipNone<T>(a: seq<Option<T>>, b: seq<Option<T>>)
    ensures Values(a + [None] + b) == Values(a + b)
  {
    ValuesAppend(a + [None], b);
    ValuesAppend(a, [None]);
    ValuesAppend(a, b);
    var none: seq<Option<T>> := [None];
    assert none[..0] == [];
  }

  /** The values are exactly the contents of the present entries. */
  lemma {:induction false} ValuesMembers<T>(entries: seq<Option<T>>, x: T)
    ensures x in Values(entries) <==> exists i :: 0 <= i < |entries| && entries[i] == Some(x)
    decreases |entries|
  {
    if entries != [] {
      var prefix := entries[..|entries| - 1];
      ValuesMembers(prefix, x);
      assert forall i :: 0 <= i < |prefix| ==> prefix[i] == entries[i];
    }
  }

  /** There are no values exactly when every entry is absent. */
  lemma {:induction false} ValuesEmpty<T>(entries: seq<Option<T>>)
    ensures Values(entries) == [] <==> forall i :: 0 <= i < |entries| ==> entries[i].None?
    decreases |entries|
  {
    if entries != [] {
      var prefix := entries[..|entries| - 1];
      ValuesEmpty(prefix);
      assert forall i :: 0 <= i < |prefix| ==> prefix[i] == entries[i];
    }
  }

  /** Extending the entries by one extends the values by its content, if any. */
  lemma ValuesStep<T>(entries: seq<Option<T>>, i: nat)
    requires i < |entries|
    ensures Values(entries[..i + 1]) == Values(entries[..i]) + match entries[i] case Some(x) => [x] case None => []
  {
    assert entries[..i + 1][..i] == entries[..i] && entries[..i + 1][i] == entries[i];
  }
}
