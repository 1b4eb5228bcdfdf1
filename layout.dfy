/** Row-major layout of a sequence of equal-width rows laid end to end.
    Two places in bigram_llm.py use it: `torch.cat(..., dim=-1)` lays the
    head outputs of one position side by side, and `view(B*T, ...)` lays the
    time steps of every batch row one after another. */
module Layout {

  /** Every row has `w` entries. */
  predicate Rectangular<V>(rows: seq<seq<V>>, w: nat) {
    forall k :: 0 <= k < |rows| ==> |rows[k]| == w
  }

  /** The rows laid end to end. */
  function Flatten<V>(rows: seq<seq<V>>, w: nat): (r: seq<V>)
    requires Rectangular(rows, w)
    ensures |r| == |rows| * w
  {
    if rows == [] then [] else rows[0] + Flatten(rows[1..], w)
  }

  /** Position `f` of row `h` lands at flat index `h * w + f`. */
  lemma {:induction false} FlattenAt<V>(rows: seq<seq<V>>, w: nat, h: nat, f: nat)
    requires Rectangular(rows, w)
    requires h < |rows| && f < w
    ensures h * w + f < |Flatten(rows, w)|
    ensures Flatten(rows, w)[h * w + f] == rows[h][f]
  {
    if h > 0 {
      FlattenAt(rows[1..], w, h - 1, f);
      assert (h - 1) * w + f + w == h * w + f;
    }
  }

  lemma MulMonotone(a: int, b: int, w: nat)
    ensures a <= b ==> a * w <= b * w
  {
    assert b * w - a * w == (b - a) * w;
  }

  /** Division and remainder by `w` are determined by `k == q * w + r` with
      `0 <= r < w`. */
  lemma DivModUnique(k: int, w: int, q: int, r: int)
    requires 0 <= r < w && k == q * w + r
    ensures k / w == q && k % w == r
  {
    var q', r' := k / w, k % w;
    assert k == q' * w + r';
    assert (q + 1) * w == q * w + w;
    assert (q' + 1) * w == q' * w + w;
    MulMonotone(q + 1, q', w);
    MulMonotone(q' + 1, q, w);
  }

  /** The row-major index map `(h, f) |-> h * w + f` is inverted by
      division and remainder. */
  lemma RowMajorInverse(h: nat, f: nat, w: nat)
    requires f < w
    ensures (h * w + f) / w == h && (h * w + f) % w == f
  {
    DivModUnique(h * w + f, w, h, f);
  }

  /** A flat index below `n * w` belongs to one of the `n` rows. */
  lemma RowOfIndex(k: nat, n: nat, w: nat)
    requires k < n * w
    ensures w > 0 && 0 <= k / w < n && 0 <= k % w < w && k == k / w * w + k % w
  {
    assert w != 0;
    var h, f := k / w, k % w;
    assert k == h * w + f;
    MulMonotone(n, h, w);
  }

  /** Conversely every flat index `k` holds entry `k % w` of row `k / w`, so
      the flat sequence holds every entry of every row exactly once. */
  lemma FlattenIndex<V>(rows: seq<seq<V>>, w: nat, k: nat)
    requires Rectangular(rows, w)
    requires k < |Flatten(rows, w)|
    ensures w > 0 && k / w < |rows| && Flatten(rows, w)[k] == rows[k / w][k % w]
  {
    RowOfIndex(k, |rows|, w);
    var h, f := k / w, k % w;
    FlattenAt(rows, w, h, f);
    assert h * w + f == k;
  }
}
