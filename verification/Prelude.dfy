/** Value types and sequence helpers shared by the whole model. */
module Prelude {
  datatype Option<+T> = None | Some(value: T)

  datatype Result<+T, +E> = Ok(value: T) | Err(error: E)

  function Last<T>(xs: seq<T>): T
    requires |xs| > 0
  {
    xs[|xs| - 1]
  }

  function Init<T>(xs: seq<T>): seq<T>
    requires |xs| > 0
  {
    xs[..|xs| - 1]
  }

  lemma TakeSnoc<T>(xs: seq<T>, i: nat)
    requires i < |xs|
    ensures xs[..i + 1] == xs[..i] + [xs[i]]
  {
  }

  /** One position more, or none. */
  lemma CountOneMore(s: set<nat>, s': set<nat>, n: nat, more: bool)
    requires n !in s && forall i :: i in s' <==> i in s || (more && i == n)
    ensures |s'| == |s| + if more then 1 else 0
  {
    if more {
      assert s' == s + {n};
    } else {
      assert s' == s;
    }
  }
}
