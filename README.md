# Verified model of the discrete bookkeeping in `bigram_llm.py`

`bigram_llm.py` trains a small character-level transformer language model
and samples text from it. Most of the script is floating-point tensor
arithmetic handed to PyTorch. This project models the exact, integer and
sequence parts that surround that arithmetic, and proves what they
guarantee:

- **Character vocabulary codec** (`codec.dfy`, module `Codec`):
  - `characters` is the sorted list of the distinct characters of the text.
  - `s_to_i` and `i_to_s` number the characters 0 .. vocab_size - 1.
  - `encode` and `decode` are comprehensions over those two dictionaries.
  - A missing dictionary key (Python's `KeyError`) is the `None` result.
- **Train/test split and batch windows** (`batching.dfy`, module `Batching`):
  - `train = data[:n]` and `test = data[n:]`.
  - `get_batch` cuts `blocksize`-long input windows and the same windows
    shifted by one as targets.
  - The start indices drawn by `torch.randint` are a parameter.
- **Causal mask** (`mask.dfy`, module `CausalMask`):
  - The `tril` buffer is `torch.tril(torch.ones(blocksize, blocksize))`.
  - `masked_fill` sends the affinities above the diagonal to negative infinity.
- **Multi-head concatenation** (`multihead.dfy`, module `MultiHead`):
  - `torch.cat` of the head outputs along the feature axis.
  - The head width `n_embd // n_head` chosen by `Block`.
- **Row-major layout** (`layout.dfy`, module `Layout`): rows of equal width
  laid end to end, with the index map `(h, f) |-> h * w + f` and its inverse.
  Both the concatenation and the `view` calls in `forward` use it.
- **Loss flattening** (`lossview.dfy`, module `LossView`): the end of
  `forward`. Without targets the logits come back unchanged and there is no
  loss. With targets, logits `(B, T, C)` and targets `(B, T)` are viewed as
  `(B*T, C)` and `(B*T)`, and each prediction is paired with its own target.
- **Generation loop** (`generation.dfy`, module `Generation`):
  - `generate` is a method with a `for` loop.
  - It is proved against the function `Generated`, which gives the batch
    after `k` iterations.
  - The forward pass with `logits[:, -1, :]` is an abstract partial function `model`.
  - The softmax with `torch.multinomial` is an abstract `sample` that returns ids below `vocab_size`.
- `optional.dfy` holds the `Option` type.

Facts about the code that the model keeps as written:

- With targets, `forward` returns the logits viewed as `(B*T, C)`
  (bigram_llm.py:179, 183). `LossView.Forward` returns `Flat` logits in that
  case and `Batched` `(B, T, C)` logits without targets.
- `head_size` is `n_embd // n_head` (floor division). When `n_head` does not
  divide `n_embd`, the concatenation is narrower than `n_embd`
  (`MultiHead.ConcatWidth`).
- The attention scores are scaled by `C ** -0.5`, where `C` is the width of
  the head's input, `n_embd` (bigram_llm.py:86, 90). The scale is floating
  point and is not modelled.
- The crop `idx[:, -blocksize:]` keeps the whole row when `blocksize` is 0,
  because `-0 == 0` in Python. `Generation.LastN` models this as written.
  The generation loop itself needs `blocksize > 0`, since the position table
  has `blocksize` rows.
- The two parameters of `Generation.Generate` that stand for code outside the
  model are constrained by predicates, not by rows of the table below:
  `Generation.ModelContract` says that the forward pass followed by
  `logits[:, -1, :]` (bigram_llm.py:190-192) accepts every batch of non-empty
  rows at most `blocksize` long with ids below `vocab_size`, and answers one
  value per row. `Generation.SamplerRange` says that softmax followed by
  `torch.multinomial` (bigram_llm.py:194-196) returns an id below
  `vocab_size`.

## Model

| member | source | states |
|---|---|---|
| `Codec.Characters` | bigram_llm.py:29 | The result is strictly increasing and contains exactly the characters that occur in the text. |
| `Codec.CharactersIsSortedSet` | bigram_llm.py:29 | Any strictly sorted sequence with exactly the text's characters equals `characters`, so it is the sorted list of the distinct characters. |
| `Codec.StoI` | bigram_llm.py:33 | The keys are exactly the vocabulary characters, and the character at position `i` maps to `i`. |
| `Codec.ItoS` | bigram_llm.py:34 | The keys are exactly `0 .. vocab_size - 1`, and id `i` maps to the character at position `i`. |
| `Codec.MapsInverse` | bigram_llm.py:33-34 | `i_to_s[s_to_i[c]] == c` for every key `c`, and `s_to_i[i_to_s[i]] == i` for every key `i`. |
| `Codec.IdsFollowOrder` | bigram_llm.py:29-33 | For characters of a sorted vocabulary, `c < d` holds iff `s_to_i[c] < s_to_i[d]`. |
| `Codec.VocabularyBijection` | bigram_llm.py:29-34 | For the vocabulary of a text: the `s_to_i` keys are the text's characters, the `i_to_s` keys are `0 .. vocab_size - 1`, the maps are mutual inverses, and ids follow character order. |
| `Codec.Encode` | bigram_llm.py:35 | `encode` succeeds iff every character is a key. On success it keeps the length and position `i` holds `s_to_i[s[i]]`. |
| `Codec.Decode` | bigram_llm.py:36 | `decode` succeeds iff every id is a key. On success it keeps the length and position `i` holds `i_to_s[ids[i]]`. |
| `Codec.EncodeDecode` | bigram_llm.py:29-36 | For any string over the vocabulary: encode succeeds, keeps the length, gives ids in `[0, vocab_size)`, and `decode(encode(s)) == s`. |
| `Codec.DecodeEncode` | bigram_llm.py:33-36 | Any id sequence in `[0, vocab_size)` decodes to a text of the same length, and encoding that text gives the ids back. |
| `Codec.EncodeTrainingText` | bigram_llm.py:29-39 | `encode(text)` on the training text itself never fails, and all its ids are in `[0, vocab_size)`. |
| `Batching.Split` | bigram_llm.py:42-44 | `train + test == data` and `len(train) == n`, for any cut `n` within the data. |
| `Batching.SplitPartitions` | bigram_llm.py:42-44 | Token `k` of the data is `train[k]` when `k < n` and `test[k - n]` otherwise: nothing is dropped or duplicated. |
| `Batching.SplitData` | bigram_llm.py:48 | The split named `"train"` selects the training part; any other name selects the held-out part. |
| `Batching.GetBatch` | bigram_llm.py:47-54 | Given starts in `[0, len(data) - blocksize)`, `x` and `y` have one row per start, each of length `blocksize`. |
| `Batching.BatchTokens` | bigram_llm.py:50-52 | `x[b][t] == data[i_b + t]` and `y[b][t] == data[i_b + t + 1]`, and both positions are at most `len(data) - 1`. |
| `Batching.TargetsShiftInputs` | bigram_llm.py:51-52 | The targets are the inputs shifted by one: `y[b][:blocksize-1] == x[b][1:]`. |
| `CausalMask.Ones` | bigram_llm.py:81 | `torch.ones(n, n)` has `n` rows of `n` entries. |
| `CausalMask.LowerTriangle` | bigram_llm.py:81 | `torch.tril` keeps the shape of its argument. |
| `CausalMask.Tril` | bigram_llm.py:81 | The `tril` buffer is `blocksize` by `blocksize`; entry `(i, j)` is 1 iff `j <= i` and 0 iff `i < j`. |
| `CausalMask.TopLeft` | bigram_llm.py:91 | `tril[:T, :T]` has `T` rows, and row `i` is the first `T` entries of row `i` of the buffer. |
| `CausalMask.MaskedFill` | bigram_llm.py:91 | `masked_fill` keeps the `(B, T, T)` shape of the affinities. |
| `CausalMask.CausalFill` | bigram_llm.py:91 | `masked_fill` with `tril[:T, :T]` keeps the `(B, T, T)` shape; the element facts are in `CausalMask.CausalFillKeeps`. |
| `CausalMask.TrilShape` | bigram_llm.py:81 | The buffer is `blocksize` by `blocksize`, and `tril[i][j] != 0` iff `j <= i`. |
| `CausalMask.CausalFillKeeps` | bigram_llm.py:91 | After `masked_fill` with `tril[:T, :T]`, entry `(i, j)` of every batch row is negative infinity iff `j > i`. Entries with `j <= i` keep their score. |
| `CausalMask.NoRowFullyMasked` | bigram_llm.py:91-92 | Every query row keeps at least one score, its diagonal, before the softmax. |
| `MultiHead.HeadSize` | bigram_llm.py:133 | `head_size` is the floor of `n_embd / n_head`: `n_head * head_size <= n_embd < n_head * (head_size + 1)`. |
| `MultiHead.AtPosition` | bigram_llm.py:109 | At one position, the list of head outputs holds one row of width `head_size` per head. |
| `MultiHead.ConcatWidth` | bigram_llm.py:133 | `n_head * head_size <= n_embd`, with equality iff `n_head` divides `n_embd`. |
| `MultiHead.Concat` | bigram_llm.py:109 | Concatenating `H > 0` head outputs of shape `(B, T, hs)` gives shape `(B, T, H * hs)`. |
| `MultiHead.HeadSlice` | bigram_llm.py:109 | At every position, head `h`'s output is exactly feature slice `[h*hs, (h+1)*hs)` of the concatenation. |
| `MultiHead.FeatureSource` | bigram_llm.py:109 | Conversely, feature `k` of every position is entry `k % hs` of head `k / hs`. |
| `Layout.Flatten` | bigram_llm.py:179-180 | Laying `n` rows of width `w` end to end gives `n * w` entries. |
| `Layout.FlattenAt` | bigram_llm.py:179-180 | Entry `f` of row `h` lands at flat index `h * w + f`. |
| `Layout.RowMajorInverse` | bigram_llm.py:179-180 | `(h*w + f) / w == h` and `(h*w + f) % w == f` when `f < w`: the row-major map is invertible. |
| `Layout.FlattenIndex` | bigram_llm.py:179-180 | Flat index `k` holds entry `k % w` of row `k / w`, so every flat entry comes from exactly one row entry. |
| `LossView.Forward` | bigram_llm.py:175-183 | There is a loss iff targets are given. Without targets the `(B, T)` logits are returned unchanged. With targets the logits are flat and hold `B*T` rows, paired with `B*T` targets. |
| `LossView.PairedWithOwnTarget` | bigram_llm.py:178-181 | The prediction at `(b, t)` is flat row `b*T + t`, paired with the target at the same `(b, t)`. |
| `LossView.FlatRowOrigin` | bigram_llm.py:178-181 | Every flat row `k` pairs the prediction and target of the same position `(k / T, k % T)`. |
| `Generation.WindowIsSuffix` | bigram_llm.py:188 | For `blocksize > 0`, `idx[-blocksize:]` is the suffix of length `min(len, blocksize)`, and it is non-empty when the row is. |
| `Generation.LastN` | bigram_llm.py:188 | `row[-n:]` is always a suffix of the row, and it is the whole row when `n == 0`. |
| `Generation.Crop` | bigram_llm.py:188 | `idx[:, -blocksize:]` keeps one row per batch entry. |
| `Generation.NextLogits` | bigram_llm.py:190-192 | The model on the cropped batch yields one last-step logit value per batch row. |
| `Generation.CropValid` | bigram_llm.py:188-190 | The cropped window of a batch with non-empty rows of in-range ids is a valid model input. Its rows are non-empty, at most `blocksize` long (so positions from `torch.arange(T)` stay below `blocksize`), and its ids are below `vocab_size`. |
| `Generation.Step` | bigram_llm.py:188-198 | One loop iteration keeps one row per batch entry, keeps every row non-empty, and keeps every id below `vocab_size`. |
| `Generation.Generated` | bigram_llm.py:185-199 | After any number of iterations the batch keeps its size, and its rows stay non-empty with ids below `vocab_size`. |
| `Generation.GeneratedRows` | bigram_llm.py:185-199 | After `k` iterations a row has length `len(idx) + k` and starts with the seed. The id appended at step `j` is the sample drawn from the model's output on the cropped batch after `j` iterations. |
| `Generation.Generate` | bigram_llm.py:185-199 | With `max_new_tokens == 0` the batch is returned unchanged, whatever it holds. Otherwise the loop returns the batch after `max_new_tokens` iterations, with ids only below `vocab_size`. In both cases every row has length `len(idx) + max_new_tokens` and begins with its seed. |

## Left out

- Tensor numerics are left out: projections, the scaling, softmax,
  LayerNorm, ReLU, linear layers, embedding values, dropout and the
  cross-entropy value (bigram_llm.py:86-90, 92-97, 110, 118-126, 140-141, 166-172,
  181). They are floating point and implemented inside PyTorch. The model
  passes affinities, head outputs, logit vectors and last-step logits as
  opaque values.
- Numeric causality of the logits (position `t` depends only on tokens
  `0..t`) is not proved, because it needs the floating-point pipeline. Only
  the structure of the mask is proved.
- Randomness is left out: `torch.manual_seed`, `torch.randint`,
  `torch.multinomial` and dropout (bigram_llm.py:19, 50, 83, 196). The batch
  start indices are a parameter whose precondition is the range `randint`
  draws from. The sampler is a parameter that receives the step and the row,
  and returns an id below `vocab_size`.
- The value of `n = int(0.9*len(data))` (bigram_llm.py:42) is a
  floating-point computation. `Batching.Split` accepts any cut
  `0 <= n <= len(data)`.
- The residual blocks, the block stack, the embedding sum and the final
  projection (bigram_llm.py:139-142, 166-172) are numeric composition and are
  not modelled.
- Training and evaluation are not modelled: `estimate_loss`, AdamW,
  `backward` and the training loop (bigram_llm.py:57-69, 207-223). They
  mutate parameters by gradient descent.
- I/O and environment are not modelled: the download, reading the file, the
  device choice, `.to(device)` and printing (bigram_llm.py:12, 22-26, 53,
  204, 227).
- The string argument of `get_batch` is modelled (`Batching.SplitData`). The
  device move is not.
- Shape errors that PyTorch raises are preconditions, not error results:
  - a sequence longer than `blocksize` in `masked_fill`;
  - an empty row in `logits[:, -1, :]`;
  - `n_head == 0`;
  - `torch.cat` of an empty list of heads (`MultiHead.Concat` requires at
    least one head).
- `LossView.Forward` requires targets of shape `(B, T)`. The source only
  needs `B*T` target elements for `targets.view(B*T)` (bigram_llm.py:180), so
  targets of another shape with the same element count are outside the
  model. Both callers (bigram_llm.py:65, 220) pass the `(B, T)` targets that
  `get_batch` returns.
- `Generation.Generate` requires, when `max_new_tokens > 0`, a positive
  `blocksize`, non-empty seed rows, and seed ids below `vocab_size`. The
  source raises an indexing error in the embedding lookups otherwise. With
  `max_new_tokens == 0` nothing is required and the batch is returned
  unchanged.
- `Generation.Generate` does not model the tensor type. The batch is a
  sequence of rows, and the rows need not all have the same length.
