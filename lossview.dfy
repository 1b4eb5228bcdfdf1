/** The reshaping at the end of `Bigram_Language_Model.forward` in
    bigram_llm.py. Without targets the (B, T, C) logits are returned as they
    are and there is no loss; with targets the logits are viewed as
    (B*T, C), the targets as (B*T), and `cross_entropy` scores row `k` of
    the one against entry `k` of the other. A logit vector of C floats is an
    opaque value `L`; the loss value itself is left out, its input pairs are kept. */
module LossView {
  import opened Optional
  import Layout

  /** The logits `forward` returns: still (B, T, C), or viewed as (B*T, C). */
  datatype Logits<L> = Batched(rows: seq<seq<L>>) | Flat(flat: seq<L>)

  /** What `forward` returns: the logits and, when targets were given, the
      (prediction, target) pairs the cross-entropy is taken over. */
  datatype Output<L> = Output(logits: Logits<L>, loss: Option<seq<(L, int)>>)

  /** Targets of shape (B, T) matching logits of shape (B, T, C). */
  predicate SameShape<L>(logits: seq<seq<L>>, T: nat, targets: seq<seq<int>>) {
    Layout.Rectangular(logits, T) && |targets| == |logits| && Layout.Rectangular(targets, T)
  }

  function Forward<L>(logits: seq<seq<L>>, T: nat, targets: Option<seq<seq<int>>>): (r: Output<L>)
    requires Layout.Rectangular(logits, T)
    requires targets.Some? ==> SameShape(logits, T, targets.value)
    ensures r.loss.None? <==> targets.None?
    ensures targets.None? ==> r.logits == Batched(logits)
    ensures targets.Some? ==> r.logits.Flat? && |r.logits.flat| == |r.loss.value| == |logits| * T
  {
    match targets
    case None => Output(Batched(logits), None)
    case Some(tg) =>
      var flatLogits := Layout.Flatten(logits, T);
      var flatTargets := Layout.Flatten(tg, T);
      Output(Flat(flatLogits),
             Some(seq(|flatLogits|, k requires 0 <= k < |flatLogits| => (flatLogits[k], flatTargets[k]))))
  }

  /** The prediction at (b, t) goes to row `b * T + t` of the (B*T, C) view,
      and is scored against the target at the same (b, t). */
  lemma PairedWithOwnTarget<L>(logits: seq<seq<L>>, T: nat, targets: seq<seq<int>>, b: nat, t: nat)
    requires SameShape(logits, T, targets)
    requires b < |logits| && t < T
    ensures var r := Forward(logits, T, Some(targets));
            && b * T + t < |r.loss.value|
            && r.logits.flat[b * T + t] == logits[b][t]
            && r.loss.value[b * T + t] == (logits[b][t], targets[b][t])
  {
    Layout.FlattenAt(logits, T, b, t);
    Layout.FlattenAt(targets, T, b, t);
  }

  /** Conversely every flattened row `k` pairs the prediction and the target
      of the same position `(k / T, k % T)`. */
  lemma FlatRowOrigin<L>(logits: seq<seq<L>>, T: nat, targets: seq<seq<int>>, k: nat)
    requires SameShape(logits, T, targets)
    requires k < |logits| * T
    ensures T > 0 && k / T < |logits|
    ensures var r := Forward(logits, T, Some(targets));
            r.loss.value[k] == (logits[k / T][k % T], targets[k / T][k % T])
  {
    Layout.FlattenIndex(logits, T, k);
    Layout.FlattenIndex(targets, T, k);
  }
}
