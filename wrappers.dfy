/** Option and Result, and the "keep what succeeded, in order" filter that the
    collection loops of the program share. */
module Wrappers {

  datatype Option<+T> = None | Some(value: T)

  datatype Result<+T, +E> = Success(value: T) | Failure(error: E)

  /** The values carried by the `Some` outcomes, in their original order: what a
      loop builds when it appends each result that is not None and skips the
      others. Defined from the end, the way such a loop grows its list. */
  function Somes<T>(os: seq<Option<T>>): (r: seq<T>)
    ensures |r| <= |os|
  {
    if os == [] then []
    else
      var rest := Somes(os[..|os| - 1]);
      if os[|os| - 1].Some? then rest + [os[|os| - 1].value] else rest
  }

  /** Filtering distributes over concatenation: nothing is reordered. */
  lemma {:induction false} SomesAppend<T>(a: seq<Option<T>>, b: seq<Option<T>>)
    ensures Somes(a + b) == Somes(a) + Somes(b)
    decreases |b|
  {
    if b == [] {
      assert a + b == a;
    } else {
      var b' := b[..|b| - 1];
      assert (a + b)[..|a + b| - 1] == a + b';
      SomesAppend(a, b');
    }
  }

  /** One more outcome adds its value, if it has one, at the end. */
  lemma SomesStep<T>(os: seq<Option<T>>, i: nat)
    requires i < |os|
    ensures Somes(os[..i + 1]) == Somes(os[..i]) + (if os[i].Some? then [os[i].value] else [])
  {
    assert os[..i + 1][..i] == os[..i];
  }

  /** A value is kept exactly when some outcome carried it. */
  lemma {:induction false} SomesMembers<T>(os: seq<Option<T>>, x: T)
    ensures x in Somes(os) <==> Some(x) in os
    decreases |os|
  {
    if os != [] {
      var init := os[..|os| - 1];
      SomesMembers(init, x);
      assert os == init + [os[|os| - 1]];
    }
  }

  /** Nothing is dropped when every outcome succeeded. */
  lemma {:induction false} SomesAllSucceeded<T>(os: seq<Option<T>>)
    requires forall i :: 0 <= i < |os| ==> os[i].Some?
    ensures |Somes(os)| == |os|
    ensures forall i :: 0 <= i < |os| ==> Somes(os)[i] == os[i].value
    decreases |os|
  {
    if os != [] {
      SomesAllSucceeded(os[..|os| - 1]);
    }
  }
}
