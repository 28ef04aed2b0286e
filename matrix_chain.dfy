/**
 * Matrix composition as the scene node uses it. Matrices are an opaque type `M`
 * and the product (the project's global `MatrixMult`) is passed in as a pure
 * binary function `mult`; nothing is assumed about it except, where a lemma says
 * so, that it is associative.
 */
module MatrixChain {
  import opened Optional

  /** `mult` is associative: (a·b)·c == a·(b·c). */
  ghost predicate Associative<M(!new)>(mult: (M, M) -> M) {
    forall a, b, c :: mult(mult(a, b), c) == mult(a, mult(b, c))
  }

  /**
   * The world model matrix of a node: the inherited model matrix times the
   * node's local matrix, or the local matrix alone when nothing is inherited.
   */
  function WorldModel<M>(mult: (M, M) -> M, inherited: Option<M>, local: M): M {
    if inherited.Some? then mult(inherited.value, local) else local
  }

  /** The product T1·T2·…·Tn of a non-empty chain of matrices, bracketed to the right. */
  function Product<M>(mult: (M, M) -> M, ts: seq<M>): M
    requires |ts| > 0
    decreases |ts|
  {
    if |ts| == 1 then ts[0] else mult(ts[0], Product(mult, ts[1..]))
  }

  /** `m` multiplied on the right by each of `ts` in turn: (((m·T1)·T2)·…)·Tn. */
  function Accumulate<M>(mult: (M, M) -> M, m: M, ts: seq<M>): M
    decreases |ts|
  {
    if |ts| == 0 then m else mult(Accumulate(mult, m, ts[..|ts| - 1]), ts[|ts| - 1])
  }

  /** Appending a matrix to a chain multiplies its product on the right. */
  lemma {:induction false} ProductSnoc<M(!new)>(mult: (M, M) -> M, ts: seq<M>, t: M)
    requires Associative(mult) && |ts| > 0
    ensures Product(mult, ts + [t]) == mult(Product(mult, ts), t)
    decreases |ts|
  {
    if |ts| == 1 {
      assert ts + [t] == [ts[0], t];
      assert [ts[0], t][1..] == [t];
    } else {
      assert (ts + [t])[1..] == ts[1..] + [t];
      ProductSnoc(mult, ts[1..], t);
    }
  }
}
