/** `Bigram_Language_Model.generate` of bigram_llm.py: crop the running
    batch to its last `blocksize` tokens, run the model on that window, take
    the last time step's logits, sample one id per row and append it;
    `max_new_tokens` times over.

    The forward pass followed by `logits[:, -1, :]` is the abstract function
    `model`, which yields one opaque value of type `D` per batch row. The
    softmax and `torch.multinomial` are the abstract `sample`, which gets the
    step number and the row as its source of randomness and returns an id
    below `vocabSize`. */
module Generation {

  /** Python's `row[-n:]`: the last `n` entries, the whole row when it is
      shorter, and also the whole row when `n == 0` (because `-0 == 0`). */
  function LastN(row: seq<nat>, n: nat): (r: seq<nat>)
    ensures |r| <= |row| && r == row[|row| - |r|..]
    ensures n == 0 ==> r == row
  {
    if n == 0 || |row| <= n then row else row[|row| - n..]
  }

  /** For a positive `blocksize` the window is the suffix of length
      `min(len(row), blocksize)`, so the positions `torch.arange(T)` looks up
      stay below `blocksize`; a non-empty row gives a non-empty window. */
  lemma WindowIsSuffix(row: seq<nat>, n: nat)
    requires n > 0
    ensures var w := LastN(row, n);
            && |w| == (if |row| < n then |row| else n)
            && w == row[|row| - |w|..]
            && |w| <= n
            && (|row| > 0 ==> |w| > 0)
  {
  }

  /** `idx[:, -blocksize:]` */
  function Crop(idx: seq<seq<nat>>, blocksize: nat): (r: seq<seq<nat>>)
    ensures |r| == |idx|
  {
    seq(|idx|, b requires 0 <= b < |idx| => LastN(idx[b], blocksize))
  }

  /** Every row is non-empty and holds ids below `vocabSize`. */
  predicate Seeded(idx: seq<seq<nat>>, vocabSize: nat) {
    forall b :: 0 <= b < |idx| ==>
      |idx[b]| > 0 && forall t :: 0 <= t < |idx[b]| ==> idx[b][t] < vocabSize
  }

  /** An input the forward pass accepts: non-empty rows (so `logits[:, -1]`
      exists) no longer than the position table, with ids inside the token
      table. */
  predicate ValidInput(w: seq<seq<nat>>, blocksize: nat, vocabSize: nat) {
    Seeded(w, vocabSize) && forall b :: 0 <= b < |w| ==> |w[b]| <= blocksize
  }

  /** The model is defined on every valid input and answers one value per row. */
  ghost predicate ModelContract<D(!new)>(model: seq<seq<nat>> --> seq<D>, blocksize: nat, vocabSize: nat) {
    forall w :: ValidInput(w, blocksize, vocabSize) ==> model.requires(w) && |model(w)| == |w|
  }

  /** The sampler only returns ids of the vocabulary. */
  ghost predicate SamplerRange<D(!new)>(sample: (nat, nat, D) -> nat, vocabSize: nat) {
    forall s, b, d :: sample(s, b, d) < vocabSize
  }

  /** The cropped window of a seeded batch is a valid model input. */
  lemma CropValid(idx: seq<seq<nat>>, blocksize: nat, vocabSize: nat)
    requires blocksize > 0 && Seeded(idx, vocabSize)
    ensures ValidInput(Crop(idx, blocksize), blocksize, vocabSize)
  {
    var w := Crop(idx, blocksize);
    forall b | 0 <= b < |idx|
      ensures 0 < |w[b]| <= blocksize && forall t :: 0 <= t < |w[b]| ==> w[b][t] < vocabSize
    {
      WindowIsSuffix(idx[b], blocksize);
      forall t | 0 <= t < |w[b]|
        ensures w[b][t] < vocabSize
      {
        assert w[b][t] == idx[b][|idx[b]| - |w[b]| + t];
      }
    }
  }

  /** The per-row outputs of the model on the cropped batch. */
  function NextLogits<D(!new)>(idx: seq<seq<nat>>, blocksize: nat, vocabSize: nat,
                         model: seq<seq<nat>> --> seq<D>): (r: seq<D>)
    requires blocksize > 0 && Seeded(idx, vocabSize)
    requires ModelContract(model, blocksize, vocabSize)
    ensures |r| == |idx|
  {
    CropValid(idx, blocksize, vocabSize);
    model(Crop(idx, blocksize))
  }

  /** One iteration of the loop body: the batch with one sampled id appended
      to every row. */
  function Step<D(!new)>(idx: seq<seq<nat>>, step: nat, blocksize: nat, vocabSize: nat,
                   model: seq<seq<nat>> --> seq<D>, sample: (nat, nat, D) -> nat): (r: seq<seq<nat>>)
    requires blocksize > 0 && Seeded(idx, vocabSize)
    requires ModelContract(model, blocksize, vocabSize) && SamplerRange(sample, vocabSize)
    ensures Seeded(r, vocabSize) && |r| == |idx|
  {
    var logits := NextLogits(idx, blocksize, vocabSize, model);
    seq(|idx|, b requires 0 <= b < |idx| => idx[b] + [sample(step, b, logits[b])])
  }

  /** The batch after `k` iterations. */
  function Generated<D(!new)>(idx: seq<seq<nat>>, k: nat, blocksize: nat, vocabSize: nat,
                        model: seq<seq<nat>> --> seq<D>, sample: (nat, nat, D) -> nat): (r: seq<seq<nat>>)
    requires blocksize > 0 && Seeded(idx, vocabSize)
    requires ModelContract(model, blocksize, vocabSize) && SamplerRange(sample, vocabSize)
    ensures Seeded(r, vocabSize) && |r| == |idx|
  {
    if k == 0 then idx
    else Step(Generated(idx, k - 1, blocksize, vocabSize, model, sample), k - 1, blocksize, vocabSize, model, sample)
  }

  /** After `k` iterations every row has grown by exactly `k` ids, its seed is
      unchanged at the front, and the id appended at step `j` is the one
      sampled from the model's output on the window of the batch after `j`
      iterations. */
  lemma {:induction false} GeneratedRows<D(!new)>(idx: seq<seq<nat>>, k: nat, blocksize: nat, vocabSize: nat,
                                            model: seq<seq<nat>> --> seq<D>, sample: (nat, nat, D) -> nat,
                                            b: nat)
    requires blocksize > 0 && Seeded(idx, vocabSize)
    requires ModelContract(model, blocksize, vocabSize) && SamplerRange(sample, vocabSize)
    requires b < |idx|
    ensures var g := Generated(idx, k, blocksize, vocabSize, model, sample);
            && |g[b]| == |idx[b]| + k
            && g[b][..|idx[b]|] == idx[b]
            && forall j :: 0 <= j < k ==>
                 g[b][|idx[b]| + j] ==
                 sample(j, b, NextLogits(Generated(idx, j, blocksize, vocabSize, model, sample),
                                         blocksize, vocabSize, model)[b])
  {
    if k > 0 {
      GeneratedRows(idx, k - 1, blocksize, vocabSize, model, sample, b);
      var prev := Generated(idx, k - 1, blocksize, vocabSize, model, sample);
      var g := Generated(idx, k, blocksize, vocabSize, model, sample);
      assert g[b] == prev[b] + [sample(k - 1, b, NextLogits(prev, blocksize, vocabSize, model)[b])];
      assert g[b][..|prev[b]|] == prev[b];
    }
  }

  /** The generation loop. With `max_new_tokens == 0` the loop body never
      runs, so the batch comes back as given and nothing is demanded of it,
      of the model or of the sampler. */
  method Generate<D(!new)>(idx: seq<seq<nat>>, maxNewTokens: nat, blocksize: nat, vocabSize: nat,
                     model: seq<seq<nat>> --> seq<D>, sample: (nat, nat, D) -> nat)
    returns (out: seq<seq<nat>>)
    requires maxNewTokens > 0 ==> blocksize > 0 && Seeded(idx, vocabSize)
    requires maxNewTokens > 0 ==> ModelContract(model, blocksize, vocabSize) && SamplerRange(sample, vocabSize)
    ensures maxNewTokens == 0 ==> out == idx
    ensures maxNewTokens > 0 ==>
              out == Generated(idx, maxNewTokens, blocksize, vocabSize, model, sample) && Seeded(out, vocabSize)
    ensures |out| == |idx|
    ensures forall b :: 0 <= b < |idx| ==>
              |out[b]| == |idx[b]| + maxNewTokens && out[b][..|idx[b]|] == idx[b]
  {
    out := idx;
    if maxNewTokens == 0 {
      return;
    }
    for step := 0 to maxNewTokens
      invariant out == Generated(idx, step, blocksize, vocabSize, model, sample)
    {
      CropValid(out, blocksize, vocabSize);
      var idxCond := Crop(out, blocksize);
      var logits := model(idxCond);
      var idxNext := seq(|out|, b requires 0 <= b < |out| => sample(step, b, logits[b]));
      out := seq(|out|, b requires 0 <= b < |out| => out[b] + [idxNext[b]]);
    }
    forall b | 0 <= b < |idx|
      ensures |out[b]| == |idx[b]| + maxNewTokens && out[b][..|idx[b]|] == idx[b]
    {
      GeneratedRows(idx, maxNewTokens, blocksize, vocabSize, model, sample, b);
    }
  }
}
