/** The train/test split of the encoded text and `get_batch` of
    bigram_llm.py. The start indices that `torch.randint` draws are a
    parameter; the precondition states the range `randint` draws from. */
module Batching {

  /** `train = data[:n]`, `test = data[n:]`. The cut `n = int(0.9*len(data))`
      is a floating-point computation; any cut inside the data is allowed. */
  function Split<T>(data: seq<T>, n: nat): (r: (seq<T>, seq<T>))
    requires n <= |data|
    ensures |r.0| == n && |r.1| == |data| - n
    ensures r.0 + r.1 == data
  {
    (data[..n], data[n..])
  }

  /** Nothing is dropped or duplicated: each token of the data lies in
      exactly one part, at the same position as in the data. */
  lemma SplitPartitions<T>(data: seq<T>, n: nat, k: nat)
    requires n <= |data| && k < |data|
    ensures var (train, test) := Split(data, n);
            if k < n then train[k] == data[k] else test[k - n] == data[k]
  {
    var (train, test) := Split(data, n);
    assert data == train + test;
  }

  /** `data = train if split == 'train' else test` */
  function SplitData<T>(split: string, train: seq<T>, test: seq<T>): (r: seq<T>)
    ensures split == "train" ==> r == train
    ensures split != "train" ==> r == test
  {
    if split == "train" then train else test
  }

  /** `torch.randint(len(data) - blocksize, ...)` draws from
      `[0, len(data) - blocksize)`. */
  predicate ValidStarts<T>(data: seq<T>, blocksize: nat, ix: seq<int>) {
    forall b :: 0 <= b < |ix| ==> 0 <= ix[b] < |data| - blocksize
  }

  /** The rows `x = [data[i:i+blocksize] for i in ix]` and
      `y = [data[i+1:i+blocksize+1] for i in ix]`. */
  function GetBatch<T>(split: string, train: seq<T>, test: seq<T>, blocksize: nat, ix: seq<int>)
    : (r: (seq<seq<T>>, seq<seq<T>>))
    requires ValidStarts(SplitData(split, train, test), blocksize, ix)
    ensures |r.0| == |ix| && |r.1| == |ix|
    ensures forall b :: 0 <= b < |ix| ==> |r.0[b]| == blocksize && |r.1[b]| == blocksize
  {
    var data := SplitData(split, train, test);
    (seq(|ix|, b requires 0 <= b < |ix| => data[ix[b]..ix[b] + blocksize]),
     seq(|ix|, b requires 0 <= b < |ix| => data[ix[b] + 1..ix[b] + blocksize + 1]))
  }

  /** Every input token is the token at absolute position `i_b + t`, every
      target the token at `i_b + t + 1`; both positions lie inside the data. */
  lemma BatchTokens<T>(split: string, train: seq<T>, test: seq<T>, blocksize: nat, ix: seq<int>,
                       b: nat, t: nat)
    requires ValidStarts(SplitData(split, train, test), blocksize, ix)
    requires b < |ix| && t < blocksize
    ensures var data := SplitData(split, train, test);
            var (x, y) := GetBatch(split, train, test, blocksize, ix);
            && 0 <= ix[b] + t < ix[b] + t + 1 <= |data| - 1
            && x[b][t] == data[ix[b] + t]
            && y[b][t] == data[ix[b] + t + 1]
  {
  }

  /** The targets are the inputs shifted by one: `y[b][t] == x[b][t+1]`. */
  lemma TargetsShiftInputs<T>(split: string, train: seq<T>, test: seq<T>, blocksize: nat, ix: seq<int>,
                              b: nat)
    requires ValidStarts(SplitData(split, train, test), blocksize, ix)
    requires b < |ix| && blocksize > 0
    ensures var (x, y) := GetBatch(split, train, test, blocksize, ix);
            y[b][..blocksize - 1] == x[b][1..]
  {
    var (x, y) := GetBatch(split, train, test, blocksize, ix);
    forall t | 0 <= t < blocksize - 1
      ensures y[b][t] == x[b][t + 1]
    {
      BatchTokens(split, train, test, blocksize, ix, b, t);
      BatchTokens(split, train, test, blocksize, ix, b, t + 1);
    }
  }
}
