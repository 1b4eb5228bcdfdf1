/** The concatenation layout of `MultiHeadAttention` and the head width
    chosen by `Block` in bigram_llm.py. Each head's output has shape
    (B, T, head_size); the entries are opaque floating-point values `V`. */
module MultiHead {
  import Layout

  /** `head_size = n_embd // n_head` (floor division; both are positive). */
  function HeadSize(nEmbd: nat, nHead: nat): (r: nat)
    requires nHead > 0
    ensures nHead * r <= nEmbd < nHead * (r + 1)
  {
    var q := nEmbd / nHead;
    assert nEmbd == nHead * q + nEmbd % nHead;
    q
  }

  /** The concatenated width `n_head * head_size` never exceeds `n_embd`, and
      equals it exactly when `n_head` divides `n_embd`; otherwise the output
      projection `nn.Linear(n_embd, n_embd)` receives too narrow an input. */
  lemma ConcatWidth(nEmbd: nat, nHead: nat)
    requires nHead > 0
    ensures nHead * HeadSize(nEmbd, nHead) <= nEmbd
    ensures nHead * HeadSize(nEmbd, nHead) == nEmbd <==> nEmbd % nHead == 0
  {
    var q, r := nEmbd / nHead, nEmbd % nHead;
    assert nEmbd == q * nHead + r;
    assert nHead * q == q * nHead;
  }

  /** A tensor of shape (B, T, w). */
  predicate Shaped<V>(x: seq<seq<seq<V>>>, B: nat, T: nat, w: nat) {
    |x| == B && forall b :: 0 <= b < B ==>
      |x[b]| == T && forall t :: 0 <= t < T ==> |x[b][t]| == w
  }

  /** The head outputs at one position, in head order. */
  function AtPosition<V>(outs: seq<seq<seq<seq<V>>>>, B: nat, T: nat, hs: nat, b: nat, t: nat): (r: seq<seq<V>>)
    requires forall h :: 0 <= h < |outs| ==> Shaped(outs[h], B, T, hs)
    requires b < B && t < T
    ensures Layout.Rectangular(r, hs)
  {
    var r := seq(|outs|, h requires 0 <= h < |outs| =>
      assert Shaped(outs[h], B, T, hs);
      outs[h][b][t]);
    assert forall h :: 0 <= h < |outs| ==> Shaped(outs[h], B, T, hs) && |r[h]| == hs;
    r
  }

  /** `torch.cat([h(x) for h in self.heads], dim=-1)`; `torch.cat` of an
      empty list is an error, hence at least one head. */
  function Concat<V>(outs: seq<seq<seq<seq<V>>>>, B: nat, T: nat, hs: nat): (r: seq<seq<seq<V>>>)
    requires |outs| > 0
    requires forall h :: 0 <= h < |outs| ==> Shaped(outs[h], B, T, hs)
    ensures Shaped(r, B, T, |outs| * hs)
  {
    seq(B, b requires 0 <= b < B =>
      seq(T, t requires 0 <= t < T => Layout.Flatten(AtPosition(outs, B, T, hs, b, t), hs)))
  }

  /** The output of head `h` occupies feature slice
      `[h * head_size, (h + 1) * head_size)` of every position. */
  lemma {:induction false} HeadSlice<V>(outs: seq<seq<seq<seq<V>>>>, B: nat, T: nat, hs: nat,
                                        h: nat, b: nat, t: nat)
    requires forall k :: 0 <= k < |outs| ==> Shaped(outs[k], B, T, hs)
    requires h < |outs| && b < B && t < T
    ensures (h + 1) * hs <= |outs| * hs
    ensures Concat(outs, B, T, hs)[b][t][h * hs..(h + 1) * hs] == outs[h][b][t]
  {
    var row := Concat(outs, B, T, hs)[b][t];
    var cols := AtPosition(outs, B, T, hs, b, t);
    Layout.MulMonotone(h + 1, |outs|, hs);
    assert (h + 1) * hs == h * hs + hs;
    forall f | 0 <= f < hs
      ensures row[h * hs + f] == outs[h][b][t][f]
    {
      Layout.FlattenAt(cols, hs, h, f);
    }
  }

  /** Conversely, feature `k` of a position comes from head `k / head_size`,
      at offset `k % head_size`: the slices cover the whole width. */
  lemma FeatureSource<V>(outs: seq<seq<seq<seq<V>>>>, B: nat, T: nat, hs: nat,
                         b: nat, t: nat, k: nat)
    requires forall h :: 0 <= h < |outs| ==> Shaped(outs[h], B, T, hs)
    requires b < B && t < T && k < |outs| * hs
    ensures hs > 0 && k / hs < |outs|
    ensures Concat(outs, B, T, hs)[b][t][k] == outs[k / hs][b][t][k % hs]
  {
    Layout.FlattenIndex(AtPosition(outs, B, T, hs, b, t), hs, k);
  }
}
