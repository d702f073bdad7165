/** Sequences built element by element, as a Python `for` loop or comprehension over a
    list builds them. */
module Seqs {
  /** `f` applied to each element, in order. */
  function Mapped<S, T>(f: S -> T, xs: seq<S>): (r: seq<T>)
    ensures |r| == |xs|
    ensures forall i :: 0 <= i < |xs| ==> r[i] == f(xs[i])
  {
    if xs == [] then []
    else Mapped(f, xs[..|xs| - 1]) + [f(xs[|xs| - 1])]
  }

  /** One more element appends its image. */
  lemma MappedAppend<S, T>(f: S -> T, xs: seq<S>, x: S)
    ensures Mapped(f, xs + [x]) == Mapped(f, xs) + [f(x)]
  {
    assert (xs + [x])[..|xs|] == xs;
  }
}
