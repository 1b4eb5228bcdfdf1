/** The causal mask of `Head` in bigram_llm.py: the `tril` buffer of shape
    (blocksize, blocksize) and the `masked_fill` that sends every affinity
    whose mask entry is 0 to negative infinity before the softmax.
    Affinity values are floating point and stay opaque (type `F`). */
module CausalMask {

  /** An affinity after `masked_fill`: the score, or negative infinity. */
  datatype Affinity<F> = Score(value: F) | NegInf

  /** `torch.ones(n, n)` */
  function Ones(n: nat): (m: seq<seq<int>>)
    ensures |m| == n && forall i :: 0 <= i < n ==> |m[i]| == n
  {
    seq(n, i => seq(n, j => 1))
  }

  /** `torch.tril(m)`: keeps the entries on and below the diagonal and zeroes
      those above it. */
  function LowerTriangle(m: seq<seq<int>>): (r: seq<seq<int>>)
    ensures |r| == |m| && forall i :: 0 <= i < |m| ==> |r[i]| == |m[i]|
  {
    seq(|m|, i requires 0 <= i < |m| => seq(|m[i]|, j requires 0 <= j < |m[i]| => if j <= i then m[i][j] else 0))
  }

  /** The registered buffer `tril = torch.tril(torch.ones(blocksize, blocksize))`. */
  function Tril(blocksize: nat): (r: seq<seq<int>>)
    ensures |r| == blocksize && forall i :: 0 <= i < blocksize ==> |r[i]| == blocksize
    ensures forall i, j :: 0 <= i < blocksize && 0 <= j < blocksize ==>
              (r[i][j] == 1 <==> j <= i) && (r[i][j] == 0 <==> i < j)
  {
    LowerTriangle(Ones(blocksize))
  }

  /** `m[:T, :T]` for a square matrix of side at least `T`. */
  function TopLeft(m: seq<seq<int>>, T: nat): (r: seq<seq<int>>)
    requires T <= |m| && forall i :: 0 <= i < |m| ==> T <= |m[i]|
    ensures |r| == T && forall i :: 0 <= i < T ==> r[i] == m[i][..T]
  {
    seq(T, i requires 0 <= i < T => m[i][..T])
  }

  /** The affinities of a batch have shape (B, T, T). */
  predicate Square<F>(wei: seq<seq<seq<F>>>, T: nat) {
    forall b :: 0 <= b < |wei| ==>
      |wei[b]| == T && forall i :: 0 <= i < T ==> |wei[b][i]| == T
  }

  /** `wei.masked_fill(mask == 0, float('-inf'))`, the (T, T) mask broadcast
      over the batch. */
  function MaskedFill<F>(wei: seq<seq<seq<F>>>, mask: seq<seq<int>>, T: nat): (r: seq<seq<seq<Affinity<F>>>>)
    requires Square(wei, T)
    requires |mask| == T && forall i :: 0 <= i < T ==> |mask[i]| == T
    ensures Square(r, T) && |r| == |wei|
  {
    seq(|wei|, b requires 0 <= b < |wei| =>
      seq(T, i requires 0 <= i < T =>
        seq(T, j requires 0 <= j < T => if mask[i][j] == 0 then NegInf else Score(wei[b][i][j]))))
  }

  /** The masking step of `Head.forward`:
      `wei.masked_fill(self.tril[:T, :T] == 0, float('-inf'))`. A sequence
      longer than the buffer is a shape error, hence `T <= blocksize`. */
  function CausalFill<F>(wei: seq<seq<seq<F>>>, blocksize: nat, T: nat): (r: seq<seq<seq<Affinity<F>>>>)
    requires T <= blocksize && Square(wei, T)
    ensures Square(r, T) && |r| == |wei|
  {
    MaskedFill(wei, TopLeft(Tril(blocksize), T), T)
  }

  /** `tril[i][j] != 0` exactly when `j <= i`. */
  lemma TrilShape(blocksize: nat, i: nat, j: nat)
    requires i < blocksize && j < blocksize
    ensures |Tril(blocksize)| == blocksize && |Tril(blocksize)[i]| == blocksize
    ensures Tril(blocksize)[i][j] != 0 <==> j <= i
  {
  }

  /** After the fill, exactly the entries `j > i` of row `i` are negative
      infinity; the others keep their score. */
  lemma CausalFillKeeps<F>(wei: seq<seq<seq<F>>>, blocksize: nat, T: nat, b: nat, i: nat, j: nat)
    requires T <= blocksize && Square(wei, T)
    requires b < |wei| && i < T && j < T
    ensures var r := CausalFill(wei, blocksize, T);
            && (r[b][i][j] == NegInf <==> j > i)
            && (j <= i ==> r[b][i][j] == Score(wei[b][i][j]))
  {
    var tril := Tril(blocksize);
    TrilShape(blocksize, i, j);
    assert TopLeft(tril, T)[i][j] == tril[i][j];
  }

  /** No row is fully masked: the diagonal always keeps its score, so the
      softmax never normalises a row of negative infinities. */
  lemma NoRowFullyMasked<F>(wei: seq<seq<seq<F>>>, blocksize: nat, T: nat, b: nat, i: nat)
    requires T <= blocksize && Square(wei, T)
    requires b < |wei| && i < T
    ensures exists j :: 0 <= j < T && CausalFill(wei, blocksize, T)[b][i][j].Score?
  {
    CausalFillKeeps(wei, blocksize, T, b, i, i);
  }
}
