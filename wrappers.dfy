/** Failure-compatible results: `Option` for Python's `None`-or-value returns,
    `Result` for calls that raise or exit with a message; `Somes` keeps the
    values of the `Some` entries of a sequence. */
module Wrappers {

  datatype Option<+T> = None | Some(value: T)

  datatype Result<+R, +E> = Success(value: R) | Failure(error: E)

  /** The values of the `Some` entries, in order. */
  function Somes<T>(xs: seq<Option<T>>): seq<T> {
    if xs == [] then []
    else Somes(xs[..|xs| - 1]) + (if xs[|xs| - 1].Some? then [xs[|xs| - 1].value] else [])
  }

  lemma {:induction false} SomesAppend<T>(a: seq<Option<T>>, b: seq<Option<T>>)
    ensures Somes(a + b) == Somes(a) + Somes(b)
    decreases |b|
  {
    if b == [] {
      assert a + b == a;
    } else {
      assert (a + b)[..|a + b| - 1] == a + b[..|b| - 1];
      SomesAppend(a, b[..|b| - 1]);
    }
  }

  lemma {:induction false} SomesMembers<T>(xs: seq<Option<T>>)
    ensures |Somes(xs)| <= |xs|
    ensures forall e :: e in Somes(xs) <==> exists i :: 0 <= i < |xs| && xs[i] == Some(e)
  {
    if xs != [] {
      var init := xs[..|xs| - 1];
      SomesMembers(init);
      assert forall i :: 0 <= i < |init| ==> init[i] == xs[i];
      forall e | exists i :: 0 <= i < |xs| && xs[i] == Some(e) ensures e in Somes(xs) {
        var i :| 0 <= i < |xs| && xs[i] == Some(e);
        if i < |init| {
          assert init[i] == Some(e);
        }
      }
    }
  }
}
