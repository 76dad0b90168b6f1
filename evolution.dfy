/**
 * Breeding a mutated offspring from a network: the hidden-layer count may
 * grow or shrink by one, one hidden layer may gain or lose a neuron (with the
 * two synapse matrices around it resized), every weight may be mutated, and
 * the offspring is built from the resulting layer sizes. Every random draw of
 * the source is a field of `Draws`.
 */
module Evolution {
  import opened Matrices
  import opened LayeredNet
  import opened Wrappers

  /** The weight mutation kinds, in the order the weight mutation handles them (assumed to be their declared order). */
  datatype MutationType = Additive | Multiply | Reverse | Replace | Nullify

  /** The mutation kinds in declared order: a drawn kind index selects one of them. */
  const Declared: seq<MutationType> := [Additive, Multiply, Reverse, Replace, Nullify]

  /**
   * The values the source draws from its random generator, in the order of
   * the calls that draw them. `layerPick(m)` is an integer drawn from 0 up to
   * and excluding `m` (0 when `m` is not positive); `kindPick`, `rateRoll` and
   * `amount` are drawn per weight (matrix n, row i, column j), `amount` being
   * the perturbation, factor or replacement value of the drawn kind.
   */
  datatype Draws = Draws(
    layerCountRoll: real,
    neuronCountRoll: real,
    shrinkLayerRoll: real,
    layerPick: int -> nat,
    shrinkNeuronRoll: real,
    newSynapseWeights: (nat, nat) -> real,
    offspringWeights: (nat, nat, nat) -> real,
    rateRoll: (nat, nat, nat) -> real,
    kindPick: (nat, nat, nat) -> nat,
    amount: (nat, nat, nat) -> real)

  /** Unity's integer draw from 0 up to and excluding `m`, as seen by its caller: `k` is below `m`, or 0. */
  predicate DrawnBelow(k: nat, m: int) {
    k == 0 || k < m
  }

  /**
   * The draws are those of the random generator: an integer draw below `m` is
   * below `m` (or 0 when there is nothing to draw from), and a kind index is
   * drawn from all declared kinds but the last, the upper bound being excluded.
   */
  ghost predicate WellDrawn(d: Draws) {
    && (forall m: int :: DrawnBelow(d.layerPick(m), m))
    && (forall n: nat, i: nat, j: nat :: d.kindPick(n, i, j) < |Declared| - 1)
  }

  /** Every synapse matrix is well formed. */
  ghost predicate AllValid(syns: seq<Matrix>) {
    forall k :: 0 <= k < |syns| ==> syns[k].Valid()
  }

  /** Chained synapses are well formed. */
  lemma ChainsValid(syns: seq<Matrix>, sizes: seq<nat>)
    requires Chains(syns, sizes)
    ensures AllValid(syns)
  {
    forall k | 0 <= k < |syns| ensures syns[k].Valid() {
      assert Links(syns[k], sizes, k);
    }
  }

  // ---------------------------------------------------------------------------
  // Resizing the layer lists
  // ---------------------------------------------------------------------------

  /** `s` resized to `n` entries: the common prefix is kept and new entries are `blank`. */
  function Resized<T>(s: seq<T>, n: nat, blank: T): (r: seq<T>)
    ensures |r| == n
    ensures forall k :: 0 <= k < n && k < |s| ==> r[k] == s[k]
    ensures forall k :: |s| <= k < n ==> r[k] == blank
  {
    seq(n, k requires 0 <= k < n => if k < |s| then s[k] else blank)
  }

  /** Growing a list and shrinking it back gives the list back. */
  lemma ResizedGrowShrink<T>(s: seq<T>, n: nat, blank: T)
    requires |s| <= n
    ensures Resized(Resized(s, n, blank), |s|, blank) == s
  {
  }

  /** Shrinking by one drops exactly the last entry; growing by one appends one blank. */
  lemma ResizedByOne<T>(s: seq<T>, blank: T)
    ensures |s| > 0 ==> Resized(s, |s| - 1, blank) == s[..|s| - 1]
    ensures Resized(s, |s| + 1, blank) == s + [blank]
  {
    if |s| > 0 {
      assert Resized(s, |s| - 1, blank) == s[..|s| - 1];
    }
    assert Resized(s, |s| + 1, blank) == s + [blank];
  }

  /**
   * A new array of `currentLayers.Length + sizeMod` entries whose common
   * prefix with `currentLayers` is copied and whose other entries are
   * `blank` (the element type's default in the source: 0 for layer sizes,
   * a null matrix for synapses).
   */
  method RedimentionLayersNb<T>(currentLayers: array<T>, sizeMod: int, blank: T) returns (newLayers: array<T>)
    requires currentLayers.Length + sizeMod >= 0
    ensures fresh(newLayers)
    ensures newLayers[..] == Resized(currentLayers[..], currentLayers.Length + sizeMod, blank)
  {
    newLayers := new T[currentLayers.Length + sizeMod](_ => blank);
    var bound := if currentLayers.Length < newLayers.Length then currentLayers.Length else newLayers.Length;
    for i := 0 to bound
      invariant forall k :: 0 <= k < i ==> newLayers[k] == currentLayers[k]
      invariant forall k :: i <= k < newLayers.Length ==> newLayers[k] == blank
    {
      newLayers[i] := currentLayers[i];
    }
  }

  /** The stand-in for the null matrix a grown synapse array holds until it is overwritten. */
  const NoMatrix: Matrix := Matrix(0, 0, [])

  // ---------------------------------------------------------------------------
  // Hidden-layer count mutation
  // ---------------------------------------------------------------------------

  /**
   * The hidden sizes after a layer-count mutation: the last hidden layer is
   * dropped when the shrink draw is taken and there is more than one;
   * otherwise a layer of `outputSize` neurons is appended.
   */
  function LayerCountMutated(hidden: seq<nat>, shrink: bool, outputSize: nat): (r: seq<nat>)
    ensures |r| >= 1
    ensures |r| == |hidden| - 1 || |r| == |hidden| + 1
    ensures |r| < |hidden| <==> shrink && |hidden| > 1
    ensures |r| < |hidden| ==> r == hidden[..|r|]
    ensures |r| > |hidden| ==> r[..|hidden|] == hidden && r[|hidden|] == outputSize
  {
    if shrink && |hidden| > 1 then hidden[..|hidden| - 1] else hidden + [outputSize]
  }

  /**
   * Adds or removes the last hidden layer and returns the new hidden sizes.
   * The resized synapse array it builds goes to a local variable only: the
   * caller's `synapses` array is not changed.
   */
  method MutateNbOfHiddenLayer(neuralNet: LayeredNetwork, hiddenLayersSizes: array<nat>, synapses: array<Matrix>,
                               shrinkRoll: real, newSynapseWeights: (nat, nat) -> real)
    returns (newSizes: array<nat>)
    requires neuralNet.Valid()
    requires shrinkRoll < 0.5 && hiddenLayersSizes.Length > 1 ==> synapses.Length >= 2
    ensures fresh(newSizes)
    ensures newSizes[..] == LayerCountMutated(old(hiddenLayersSizes[..]), shrinkRoll < 0.5, neuralNet.Sizes[|neuralNet.Sizes| - 1])
  {
    var outputSize := neuralNet.GetOutputSize();
    var localSynapses: array<Matrix>;
    if shrinkRoll < 0.5 && hiddenLayersSizes.Length > 1 {
      newSizes := RedimentionLayersNb(hiddenLayersSizes, -1, 0);
      localSynapses := RedimentionLayersNb(synapses, -1, NoMatrix);
      localSynapses[localSynapses.Length - 1] :=
        Matrix.Redimension(localSynapses[localSynapses.Length - 1], newSizes[newSizes.Length - 1], outputSize);
      ResizedByOne(hiddenLayersSizes[..], 0);
    } else {
      newSizes := RedimentionLayersNb(hiddenLayersSizes, 1, 0);
      newSizes[newSizes.Length - 1] := outputSize;
      localSynapses := RedimentionLayersNb(synapses, 1, NoMatrix);
      localSynapses[localSynapses.Length - 1] :=
        Matrix.New(newSizes[newSizes.Length - 1], outputSize, newSynapseWeights);
      ResizedByOne(hiddenLayersSizes[..], 0);
    }
  }

  // ---------------------------------------------------------------------------
  // Hidden-layer neuron count mutation
  // ---------------------------------------------------------------------------

  /** A hidden size after a neuron mutation: one less when the shrink draw is taken and it exceeds 1, otherwise one more. */
  function NeuronCountMutated(size: nat, shrink: bool): (r: nat)
    ensures r == size + 1 || r + 1 == size
    ensures r < size <==> shrink && size > 1
    ensures size >= 1 ==> r >= 1
  {
    if shrink && size > 1 then size - 1 else size + 1
  }

  /**
   * Synapses after hidden layer k changed size to `size`: matrix k gets
   * `size` columns and matrix k + 1 gets `size` rows, each keeping its
   * overlapping block.
   */
  function Rewired(syns: seq<Matrix>, k: nat, size: nat): (r: seq<Matrix>)
    requires k + 1 < |syns|
    ensures |r| == |syns|
    ensures forall n :: 0 <= n < |syns| && n != k && n != k + 1 ==> r[n] == syns[n]
    ensures r[k].Valid() && r[k].I == syns[k].I && r[k].J == size
    ensures r[k + 1].Valid() && r[k + 1].I == size && r[k + 1].J == syns[k + 1].J
  {
    syns[k := Matrix.Redimension(syns[k], syns[k].I, size)][k + 1 := Matrix.Redimension(syns[k + 1], size, syns[k + 1].J)]
  }

  /**
   * Resizing hidden layer k and rewiring the synapses around it keeps the
   * synapses chained with the layer sizes.
   */
  lemma RewiredChains(input: nat, hidden: seq<nat>, output: nat, syns: seq<Matrix>, k: nat, size: nat)
    requires k < |hidden| && Chains(syns, LayerSizes(input, hidden, output))
    ensures Chains(Rewired(syns, k, size), LayerSizes(input, hidden[k := size], output))
  {
    var before, after := LayerSizes(input, hidden, output), LayerSizes(input, hidden[k := size], output);
    var r := Rewired(syns, k, size);
    assert after == before[k + 1 := size];
    forall n | 0 <= n < |r| ensures Links(r[n], after, n) {
      assert Links(syns[n], before, n);
    }
  }

  /**
   * Resizing a layer and then resizing it back leaves the synapse matrices
   * around it as they were when the round trip went through a larger size.
   */
  lemma RewiredRoundTrip(syns: seq<Matrix>, k: nat, size: nat, bigger: nat)
    requires k + 1 < |syns| && syns[k].Valid() && syns[k + 1].Valid()
    requires syns[k].J == size && syns[k + 1].I == size && size <= bigger
    ensures Rewired(Rewired(syns, k, bigger), k, size) == syns
  {
    RedimGrowShrink(syns[k].Mtx, syns[k].I, size, syns[k].I, bigger);
    RedimGrowShrink(syns[k + 1].Mtx, size, syns[k + 1].J, bigger, syns[k + 1].J);
  }

  /**
   * Picks a hidden layer (never the last one when there are two or more) and
   * adds or removes one neuron in it, then resizes the synapse matrices on
   * both sides of that layer. The arrays are changed in place; the sizes
   * array is returned.
   */
  method MutateNbOfHiddenLayerNeurons(neuralNet: LayeredNetwork, hiddenLayersSizes: array<nat>, synapses: array<Matrix>,
                                      layerNb: nat, shrinkRoll: real)
    returns (sizes: array<nat>)
    requires DrawnBelow(layerNb, hiddenLayersSizes.Length - 1)
    requires layerNb < hiddenLayersSizes.Length && layerNb + 1 < synapses.Length
    modifies hiddenLayersSizes, synapses
    ensures sizes == hiddenLayersSizes
    ensures hiddenLayersSizes[..]
         == old(hiddenLayersSizes[..])[layerNb := NeuronCountMutated(old(hiddenLayersSizes[layerNb]), shrinkRoll < 0.5)]
    ensures synapses[..] == Rewired(old(synapses[..]), layerNb, hiddenLayersSizes[layerNb])
  {
    if shrinkRoll < 0.5 && hiddenLayersSizes[layerNb] > 1 {
      hiddenLayersSizes[layerNb] := hiddenLayersSizes[layerNb] - 1;
    } else {
      hiddenLayersSizes[layerNb] := hiddenLayersSizes[layerNb] + 1;
    }
    synapses[layerNb] := Matrix.Redimension(synapses[layerNb], synapses[layerNb].I, hiddenLayersSizes[layerNb]);
    synapses[layerNb + 1] := Matrix.Redimension(synapses[layerNb + 1], hiddenLayersSizes[layerNb], synapses[layerNb + 1].J);
    sizes := hiddenLayersSizes;
  }

  // ---------------------------------------------------------------------------
  // Weight mutation
  // ---------------------------------------------------------------------------

  /** The mutation kind a drawn index selects; an index past the declared kinds selects none. */
  function KindOf(index: nat): (kind: Option<MutationType>)
    ensures kind.Some? <==> index < |Declared|
    ensures kind.Some? ==> Declared[index] == kind.value
  {
    if index < |Declared| then Some(Declared[index]) else None
  }

  /**
   * A weight after a mutation of the given kind with the drawn `amount`: the
   * amount is added, multiplies the weight, or replaces it; reversing negates
   * the weight and nullifying zeroes it. An unknown kind leaves it as it is.
   */
  function MutatedValue(v: real, kind: Option<MutationType>, amount: real): (r: real)
    ensures kind == Some(Additive) ==> r - v == amount
    ensures kind == Some(Multiply) ==> r == v * amount
    ensures kind == Some(Reverse) ==> r + v == 0.0
    ensures kind == Some(Replace) ==> r == amount
    ensures kind == Some(Nullify) ==> r == 0.0
    ensures kind.None? ==> r == v
  {
    match kind
    case Some(Additive) => v + amount
    case Some(Multiply) => v * amount
    case Some(Reverse) => v * -1.0
    case Some(Replace) => amount
    case Some(Nullify) => 0.0
    case None => v
  }

  /** Weight (i, j) of synapse matrix n after the weight mutation: mutated only when its rate draw is below the rate. */
  function CellAfter(v: real, n: nat, i: nat, j: nat, rate: real, d: Draws): (r: real)
    ensures d.rateRoll(n, i, j) >= rate ==> r == v
    ensures KindOf(d.kindPick(n, i, j)).None? ==> r == v
  {
    if d.rateRoll(n, i, j) < rate then MutatedValue(v, KindOf(d.kindPick(n, i, j)), d.amount(n, i, j)) else v
  }
  /**
   * What the mutation kinds do to a weight: reversing twice gives it back,
   * replacing and nullifying forget it, and adding 0 or multiplying by 1
   * leaves it as it is.
   */
  lemma MutationKinds(v: real, w: real, a: real)
    ensures MutatedValue(MutatedValue(v, Some(Reverse), a), Some(Reverse), a) == v
    ensures MutatedValue(v, Some(Replace), a) == MutatedValue(w, Some(Replace), a)
    ensures MutatedValue(v, Some(Nullify), a) == MutatedValue(w, Some(Nullify), a)
    ensures MutatedValue(v, Some(Additive), 0.0) == v && MutatedValue(v, Some(Multiply), 1.0) == v
  {
  }


  /**
   * `cur` is `before` with the weights up to (excluding) row i, column j
   * mutated and the others untouched; `MutatedFrom` is the finished case.
   */
  ghost predicate MutatedUpTo(cur: Matrix, before: Matrix, n: nat, i: nat, j: nat, rate: real, d: Draws) {
    && cur.Valid() && cur.I == before.I && cur.J == before.J && before.Valid()
    && forall r, c :: 0 <= r < before.I && 0 <= c < before.J ==>
         cur.Mtx[r][c] == if r < i || (r == i && c < j) then CellAfter(before.Mtx[r][c], n, r, c, rate, d) else before.Mtx[r][c]
  }

  /** `after` is synapse matrix n, `before`, with every weight mutated. */
  ghost predicate MutatedFrom(after: Matrix, before: Matrix, n: nat, rate: real, d: Draws) {
    MutatedUpTo(after, before, n, before.I, 0, rate, d)
  }

  /** Every matrix of `after` is the same-index matrix of `before` with its weights mutated. */
  ghost predicate AllMutatedFrom(after: seq<Matrix>, before: seq<Matrix>, rate: real, d: Draws) {
    |after| == |before| &&
    forall n {:trigger MutatedFrom(after[n], before[n], n, rate, d)} :: 0 <= n < |before| ==> MutatedFrom(after[n], before[n], n, rate, d)
  }

  /**
   * For every weight draws a rate roll and, when it is below the mutation
   * rate, a mutation kind and applies it. The matrices are changed in place
   * in the array, which is returned.
   */
  method MutateSynapsesValues(neuralNet: LayeredNetwork, synapses: array<Matrix>,
                              synapsesMutationRate: real, synapsesMutationRange: real, d: Draws)
    returns (mutated: array<Matrix>)
    requires AllValid(synapses[..])
    modifies synapses
    ensures mutated == synapses
    ensures AllMutatedFrom(synapses[..], old(synapses[..]), synapsesMutationRate, d)
  {
    var rate := synapsesMutationRate;
    for n := 0 to synapses.Length
      invariant forall k :: 0 <= k < n ==> MutatedFrom(synapses[k], old(synapses[k]), k, rate, d)
      invariant forall k :: n <= k < synapses.Length ==> synapses[k] == old(synapses[k])
    {
      ghost var before := synapses[n];
      for i := 0 to synapses[n].I
        invariant MutatedUpTo(synapses[n], before, n, i, 0, rate, d)
        invariant forall k :: 0 <= k < synapses.Length && k != n ==> synapses[k] == old(synapses[k]) || k < n
        invariant forall k :: 0 <= k < n ==> MutatedFrom(synapses[k], old(synapses[k]), k, rate, d)
      {
        for j := 0 to synapses[n].J
          invariant MutatedUpTo(synapses[n], before, n, i, j, rate, d)
          invariant forall k :: 0 <= k < synapses.Length && k != n ==> synapses[k] == old(synapses[k]) || k < n
          invariant forall k :: 0 <= k < n ==> MutatedFrom(synapses[k], old(synapses[k]), k, rate, d)
        {
          if d.rateRoll(n, i, j) < rate {
            var kind := KindOf(d.kindPick(n, i, j));
            var mutatedValue := synapses[n].GetValue(i, j);
            match kind {
              case Some(Additive) => mutatedValue := mutatedValue + d.amount(n, i, j);
              case Some(Multiply) => mutatedValue := mutatedValue * d.amount(n, i, j);
              case Some(Reverse) => mutatedValue := mutatedValue * -1.0;
              case Some(Replace) => mutatedValue := d.amount(n, i, j);
              case Some(Nullify) => mutatedValue := 0.0;
              case None =>
            }
            synapses[n] := synapses[n].SetValue(i, j, mutatedValue);
          }
        }
      }
    }
    mutated := synapses;
  }

  /**
   * Since the kind index is drawn below the number of declared kinds minus
   * one, a weight mutation never nullifies and never falls to the unknown-kind
   * case: a mutated weight is the weight plus the amount, times the amount,
   * negated, or replaced by the amount, and a weight whose rate draw fails is
   * kept.
   */
  lemma DrawnMutations(v: real, n: nat, i: nat, j: nat, rate: real, d: Draws)
    requires WellDrawn(d)
    ensures d.rateRoll(n, i, j) >= rate ==> CellAfter(v, n, i, j, rate, d) == v
    ensures d.rateRoll(n, i, j) < rate ==>
              KindOf(d.kindPick(n, i, j)).Some? && KindOf(d.kindPick(n, i, j)).value != Nullify
    ensures var a := d.amount(n, i, j);
            d.rateRoll(n, i, j) < rate ==>
              CellAfter(v, n, i, j, rate, d) in {v + a, v * a, -v, a}
  {
    var k := d.kindPick(n, i, j);
    assert k < |Declared| - 1;
    assert Declared[k] != Nullify;
  }

  /** The weight mutation keeps every matrix's shape, so mutated synapses still chain the same layer sizes. */
  lemma MutatedChains(before: seq<Matrix>, after: seq<Matrix>, sizes: seq<nat>, rate: real, d: Draws)
    requires Chains(before, sizes)
    requires AllMutatedFrom(after, before, rate, d)
    ensures Chains(after, sizes)
  {
    forall k | 0 <= k < |after| ensures Links(after[k], sizes, k) {
      assert Links(before[k], sizes, k);
      assert MutatedFrom(after[k], before[k], k, rate, d);
    }
  }

  /**
   * With a rate no rate draw can fall below (the draws lie in [0, 1]), the
   * weight mutation leaves a matrix exactly as it was.
   */
  lemma ZeroRateKeeps(before: Matrix, after: Matrix, n: nat, rate: real, d: Draws)
    requires rate <= 0.0 && forall i: nat, j: nat :: d.rateRoll(n, i, j) >= 0.0
    requires MutatedFrom(after, before, n, rate, d)
    ensures after == before
  {
    forall r | 0 <= r < before.I ensures after.Mtx[r] == before.Mtx[r] {
      forall c | 0 <= c < before.J ensures after.Mtx[r][c] == before.Mtx[r][c] {
        assert d.rateRoll(n, r, c) >= 0.0;
      }
    }
  }

  // ---------------------------------------------------------------------------
  // Offspring
  // ---------------------------------------------------------------------------

  /**
   * A new network from a whole layer-size vector: its first entry is the
   * input size, its last the output size and the others the hidden sizes.
   */
  method NewNetwork(layerSizes: array<nat>, weights: (nat, nat, nat) -> real) returns (net: LayeredNetwork)
    requires layerSizes.Length >= 3
    ensures fresh(net) && net.Valid() && net.AtRest() && net.FitnessScore == 0.0
    ensures net.Sizes == layerSizes[..]
    ensures forall k :: 0 <= k < |net.synapses| ==> Drawn(net.synapses[k], weights, k)
  {
    var hidden := new nat[layerSizes.Length - 2](k requires 0 <= k < layerSizes.Length - 2 reads layerSizes => layerSizes[k + 1]);
    assert hidden[..] == layerSizes[1..layerSizes.Length - 1];
    net := new LayeredNetwork(layerSizes[0], layerSizes[layerSizes.Length - 1], hidden, weights);
    LayerSizesSplit(layerSizes[..]);
  }

  /** The hidden sizes after the layer-count mutation (when `countMutated`). */
  ghost function CountStage(hidden: seq<nat>, outputSize: nat, countMutated: bool, d: Draws): (r: seq<nat>)
    requires |hidden| >= 1
    ensures |r| >= 1
  {
    if countMutated then LayerCountMutated(hidden, d.shrinkLayerRoll < 0.5, outputSize) else hidden
  }

  /** The hidden layer the neuron mutation picks among `count` hidden layers. */
  ghost function PickedLayer(count: nat, d: Draws): (k: nat)
    requires WellDrawn(d) && count >= 1
    ensures k < count && (count >= 2 ==> k < count - 1)
  {
    var k := d.layerPick(count - 1);
    assert d.layerPick(count - 1) == 0 || d.layerPick(count - 1) < count - 1;
    k
  }

  /** The offspring's hidden sizes: the layer-count mutation, then the neuron mutation (when `neuronMutated`). */
  ghost function OffspringHidden(hidden: seq<nat>, outputSize: nat, countMutated: bool, neuronMutated: bool, d: Draws): (r: seq<nat>)
    requires WellDrawn(d) && |hidden| >= 1
    ensures |r| == |CountStage(hidden, outputSize, countMutated, d)|
  {
    var h := CountStage(hidden, outputSize, countMutated, d);
    if neuronMutated then
      var k := PickedLayer(|h|, d);
      h[k := NeuronCountMutated(h[k], d.shrinkNeuronRoll < 0.5)]
    else h
  }

  /**
   * The synapses the weight mutation starts from when the layer count was
   * not mutated: the parent's, rewired around the picked layer when its
   * neuron count was mutated.
   */
  ghost function OffspringWiring(syns: seq<Matrix>, hidden: seq<nat>, neuronMutated: bool, d: Draws): seq<Matrix>
    requires WellDrawn(d) && |hidden| >= 1 && |syns| == |hidden| + 1
  {
    if neuronMutated then
      var k := PickedLayer(|hidden|, d);
      Rewired(syns, k, NeuronCountMutated(hidden[k], d.shrinkNeuronRoll < 0.5))
    else syns
  }

  /**
   * The neuron mutation after the layer-count stage: the drawn layer is a
   * hidden layer with a synapse matrix on each side, the new sizes are the
   * offspring's, the rewired synapses are well formed, and when the layer
   * count was not mutated they still chain the offspring's layer sizes.
   */
  lemma NeuronStage(input: nat, hidden: seq<nat>, output: nat, syns: seq<Matrix>, countMutated: bool, d: Draws,
                    h: seq<nat>, layerNb: nat)
    requires WellDrawn(d) && |hidden| >= 1 && Chains(syns, LayerSizes(input, hidden, output))
    requires h == CountStage(hidden, output, countMutated, d) && layerNb == d.layerPick(|h| - 1)
    ensures DrawnBelow(layerNb, |h| - 1) && layerNb < |h| && layerNb + 1 < |syns|
    ensures var size := NeuronCountMutated(h[layerNb], d.shrinkNeuronRoll < 0.5);
            && h[layerNb := size] == OffspringHidden(hidden, output, countMutated, true, d)
            && AllValid(Rewired(syns, layerNb, size))
            && (!countMutated ==>
                  && Rewired(syns, layerNb, size) == OffspringWiring(syns, hidden, true, d)
                  && Chains(Rewired(syns, layerNb, size), LayerSizes(input, h[layerNb := size], output)))
  {
    var k := PickedLayer(|h|, d);
    var size := NeuronCountMutated(h[k], d.shrinkNeuronRoll < 0.5);
    ChainsValid(syns, LayerSizes(input, hidden, output));
    var r := Rewired(syns, k, size);
    forall n | 0 <= n < |r| ensures r[n].Valid() {
      if n != k && n != k + 1 {
        assert r[n] == syns[n];
      }
    }
    if !countMutated {
      RewiredChains(input, hidden, output, syns, k, size);
    }
  }

  /**
   * The first step of breeding: copies of the parent's hidden sizes and
   * synapses, with possibly a hidden layer more or less. The synapse copy is
   * the parent's even when the layer count changed.
   */
  method CountTopology(neuralNet: LayeredNetwork, hiddenLayerNbMutation: bool, hiddenLayerNbMutationRate: real, d: Draws)
    returns (hiddenLayersSizes: array<nat>, synapses: array<Matrix>)
    requires neuralNet.Valid()
    ensures fresh(hiddenLayersSizes) && fresh(synapses)
    ensures synapses[..] == neuralNet.synapses
    ensures var parent := neuralNet.Sizes;
            hiddenLayersSizes[..] == CountStage(parent[1..|parent| - 1], parent[|parent| - 1],
                                                hiddenLayerNbMutation && d.layerCountRoll < hiddenLayerNbMutationRate, d)
  {
    hiddenLayersSizes := neuralNet.GetHiddenLayersSizes();
    synapses := neuralNet.GetSynapsesClone();
    if hiddenLayerNbMutation && d.layerCountRoll < hiddenLayerNbMutationRate {
      hiddenLayersSizes := MutateNbOfHiddenLayer(neuralNet, hiddenLayersSizes, synapses, d.shrinkLayerRoll, d.newSynapseWeights);
    }
  }

  /**
   * The second step of breeding: possibly a neuron more or less in one
   * hidden layer, with the synapses on both sides of it redimensioned. When
   * the layer count was not mutated, the synapses still chain the new sizes.
   */
  method NeuronTopology(neuralNet: LayeredNetwork, hiddenLayersSizes: array<nat>, synapses: array<Matrix>,
                        ghost countMutated: bool, hiddenNbMutation: bool, hiddenMbMutationRate: real, d: Draws)
    returns (newSizes: array<nat>)
    requires neuralNet.Valid() && WellDrawn(d)
    requires synapses[..] == neuralNet.synapses
    requires var parent := neuralNet.Sizes;
             hiddenLayersSizes[..] == CountStage(parent[1..|parent| - 1], parent[|parent| - 1], countMutated, d)
    modifies hiddenLayersSizes, synapses
    ensures newSizes == hiddenLayersSizes
    ensures AllValid(synapses[..])
    ensures var parent := neuralNet.Sizes;
            var neuronMutated := hiddenNbMutation && d.neuronCountRoll < hiddenMbMutationRate;
            hiddenLayersSizes[..] == OffspringHidden(parent[1..|parent| - 1], parent[|parent| - 1], countMutated, neuronMutated, d)
    ensures var parent := neuralNet.Sizes;
            var neuronMutated := hiddenNbMutation && d.neuronCountRoll < hiddenMbMutationRate;
            !countMutated ==>
              && synapses[..] == OffspringWiring(neuralNet.synapses, parent[1..|parent| - 1], neuronMutated, d)
              && Chains(synapses[..], LayerSizes(parent[0], hiddenLayersSizes[..], parent[|parent| - 1]))
  {
    ghost var parent := neuralNet.Sizes;
    ghost var input, output, hidden := parent[0], parent[|parent| - 1], parent[1..|parent| - 1];
    LayerSizesSplit(parent);
    assert Chains(neuralNet.synapses, LayerSizes(input, hidden, output));
    newSizes := hiddenLayersSizes;
    if hiddenNbMutation && d.neuronCountRoll < hiddenMbMutationRate {
      var layerNb := d.layerPick(hiddenLayersSizes.Length - 1);
      NeuronStage(input, hidden, output, neuralNet.synapses, countMutated, d, hiddenLayersSizes[..], layerNb);
      newSizes := MutateNbOfHiddenLayerNeurons(neuralNet, hiddenLayersSizes, synapses, layerNb, d.shrinkNeuronRoll);
    } else {
      ChainsValid(neuralNet.synapses, LayerSizes(input, hidden, output));
    }
  }

  /**
   * The topology of the offspring (the first half of breeding): the
   * parent's hidden sizes and a copy of its synapses, with possibly a hidden
   * layer more or less and possibly a neuron more or less in one hidden
   * layer. The synapse array keeps the parent's length even when the layer
   * count changed; when it did not, the synapses still chain the new sizes.
   */
  method MutateTopology(neuralNet: LayeredNetwork,
                        hiddenLayerNbMutation: bool, hiddenLayerNbMutationRate: real,
                        hiddenNbMutation: bool, hiddenMbMutationRate: real, d: Draws)
    returns (hiddenLayersSizes: array<nat>, synapses: array<Matrix>)
    requires neuralNet.Valid() && WellDrawn(d)
    ensures fresh(hiddenLayersSizes) && fresh(synapses)
    ensures synapses.Length == |neuralNet.synapses| && AllValid(synapses[..])
    ensures var parent := neuralNet.Sizes;
            var countMutated := hiddenLayerNbMutation && d.layerCountRoll < hiddenLayerNbMutationRate;
            var neuronMutated := hiddenNbMutation && d.neuronCountRoll < hiddenMbMutationRate;
            hiddenLayersSizes[..] == OffspringHidden(parent[1..|parent| - 1], parent[|parent| - 1], countMutated, neuronMutated, d)
    ensures var parent := neuralNet.Sizes;
            var neuronMutated := hiddenNbMutation && d.neuronCountRoll < hiddenMbMutationRate;
            !(hiddenLayerNbMutation && d.layerCountRoll < hiddenLayerNbMutationRate) ==>
              && synapses[..] == OffspringWiring(neuralNet.synapses, parent[1..|parent| - 1], neuronMutated, d)
              && Chains(synapses[..], LayerSizes(parent[0], hiddenLayersSizes[..], parent[|parent| - 1]))
  {
    hiddenLayersSizes, synapses := CountTopology(neuralNet, hiddenLayerNbMutation, hiddenLayerNbMutationRate, d);
    hiddenLayersSizes := NeuronTopology(neuralNet, hiddenLayersSizes, synapses,
                                        hiddenLayerNbMutation && d.layerCountRoll < hiddenLayerNbMutationRate,
                                        hiddenNbMutation, hiddenMbMutationRate, d);
  }

  /**
   * The whole layer-size vector of the offspring: the input size, the hidden
   * sizes in order, then the output size.
   */
  method AssembleLayerSizes(inputSize: nat, hiddenLayersSizes: array<nat>, outputSize: nat) returns (layerSizes: array<nat>)
    ensures fresh(layerSizes)
    ensures layerSizes[..] == LayerSizes(inputSize, hiddenLayersSizes[..], outputSize)
  {
    layerSizes := new nat[hiddenLayersSizes.Length + 2];
    layerSizes[0] := inputSize;
    layerSizes[layerSizes.Length - 1] := outputSize;
    for i := 1 to layerSizes.Length - 1
      invariant layerSizes[0] == inputSize && layerSizes[layerSizes.Length - 1] == outputSize
      invariant forall k :: 1 <= k < i ==> layerSizes[k] == hiddenLayersSizes[k - 1]
    {
      layerSizes[i] := hiddenLayersSizes[i - 1];
    }
    assert layerSizes[..] == LayerSizes(inputSize, hiddenLayersSizes[..], outputSize);
  }

  /**
   * Breeds an offspring of `neuralNet`: its mutated genes, then a new network
   * of the resulting layer sizes that takes the mutated synapses. When the
   * layer count changed, the synapse array it hands over still has the
   * parent's length, so the offspring keeps its own freshly drawn synapses;
   * otherwise it takes the parent's synapses, rewired and mutated. The parent
   * is not changed.
   */
  method CreateMutatedOffspring(neuralNet: LayeredNetwork, mutateCoef: int,
                                hiddenLayerNbMutation: bool, hiddenLayerNbMutationRate: real,
                                hiddenNbMutation: bool, hiddenMbMutationRate: real,
                                synapsesMutationRate: real, synapsesMutationRange: real, d: Draws)
    returns (offspring: LayeredNetwork)
    requires neuralNet.Valid() && WellDrawn(d)
    ensures fresh(offspring) && offspring.Valid() && offspring.AtRest() && offspring.FitnessScore == 0.0
    ensures var parent := neuralNet.Sizes;
            var countMutated := hiddenLayerNbMutation && d.layerCountRoll < hiddenLayerNbMutationRate;
            var neuronMutated := hiddenNbMutation && d.neuronCountRoll < hiddenMbMutationRate;
            offspring.Sizes
              == LayerSizes(parent[0], OffspringHidden(parent[1..|parent| - 1], parent[|parent| - 1], countMutated, neuronMutated, d),
                            parent[|parent| - 1])
    ensures hiddenLayerNbMutation && d.layerCountRoll < hiddenLayerNbMutationRate ==>
              forall k :: 0 <= k < |offspring.synapses| ==> Drawn(offspring.synapses[k], d.offspringWeights, k)
    ensures var parent := neuralNet.Sizes;
            var neuronMutated := hiddenNbMutation && d.neuronCountRoll < hiddenMbMutationRate;
            !(hiddenLayerNbMutation && d.layerCountRoll < hiddenLayerNbMutationRate) ==>
              AllMutatedFrom(offspring.synapses, OffspringWiring(neuralNet.synapses, parent[1..|parent| - 1], neuronMutated, d),
                             synapsesMutationRate, d)
  {
    var hiddenLayersSizes, synapses := MutateTopology(neuralNet, hiddenLayerNbMutation, hiddenLayerNbMutationRate,
                                                      hiddenNbMutation, hiddenMbMutationRate, d);
    ghost var parent := neuralNet.Sizes;
    ghost var input, output := parent[0], parent[|parent| - 1];
    ghost var countMutated := hiddenLayerNbMutation && d.layerCountRoll < hiddenLayerNbMutationRate;
    ghost var wired := synapses[..];

    synapses := MutateSynapsesValues(neuralNet, synapses, synapsesMutationRate, synapsesMutationRange, d);
    ghost var genes := synapses[..];
    if !countMutated {
      MutatedChains(wired, genes, LayerSizes(input, hiddenLayersSizes[..], output), synapsesMutationRate, d);
    }

    var inputSize := neuralNet.GetInputSize();
    var outputSize := neuralNet.GetOutputSize();
    var layerSizes := AssembleLayerSizes(inputSize, hiddenLayersSizes, outputSize);

    offspring := NewNetwork(layerSizes, d.offspringWeights);
    assert !countMutated ==> Chains(genes, offspring.Sizes);
    offspring.InsertSynapses(synapses);
  }
}
