/**
 * The fully connected layered network: one activation row per layer (input,
 * hidden layers, output) and one synapse matrix between each pair of adjacent
 * layers, with cloning, synapse snapshot and injection, and the forward pass.
 */
module LayeredNet {
  import opened Matrices

  /** The activation function applied to every cell of a row. */
  function Activate(row: seq<real>, act: real -> real): (r: seq<real>)
    ensures |r| == |row|
    ensures forall k :: 0 <= k < |row| ==> r[k] == act(row[k])
  {
    seq(|row|, k requires 0 <= k < |row| => act(row[k]))
  }

  /** Every cell of `row` is one: the value every activation row is created with. */
  ghost predicate AllOnes(row: seq<real>) {
    forall k :: 0 <= k < |row| ==> row[k] == 1.0
  }

  /** Row 0 of `m` exists and holds ones. */
  ghost predicate OnesRow(m: Matrix) {
    |m.Mtx| > 0 && AllOnes(m.Mtx[0])
  }

  /**
   * Synapse grid k connects layer k, of `sizes[k]` neurons, to layer k + 1:
   * there is one grid fewer than layers and grid k is sizes[k] by sizes[k + 1].
   */
  ghost predicate ShapesChain(ws: seq<Grid>, sizes: seq<nat>) {
    |sizes| == |ws| + 1 && forall k :: 0 <= k < |ws| ==> Joins(ws[k], sizes, k)
  }

  /** `g` is a sizes[k] by sizes[k + 1] grid. */
  ghost predicate Joins(g: Grid, sizes: seq<nat>, k: nat) {
    k + 1 < |sizes| && IsShape(g, sizes[k], sizes[k + 1])
  }

  /**
   * The rows of every layer after the input when `x` is propagated through the
   * synapse grids `ws`: each layer is the activation of the previous row times
   * the synapse grid between them.
   */
  function Forward(x: seq<real>, ws: seq<Grid>, sizes: seq<nat>, act: real -> real): (rows: seq<seq<real>>)
    requires ShapesChain(ws, sizes) && |x| == sizes[0]
    ensures |rows| == |ws|
    ensures forall k :: 0 <= k < |ws| ==> |rows[k]| == sizes[1..][k]
    decreases |ws|
  {
    if ws == [] then []
    else
      var y := Activate(RowTimes(x, ws[0], sizes[1]), act);
      assert ShapesChain(ws[1..], sizes[1..]) by {
        forall k | 0 <= k < |ws| - 1 ensures Joins(ws[1..][k], sizes[1..], k) {
          assert Joins(ws[k + 1], sizes, k + 1);
        }
      }
      [y] + Forward(y, ws[1..], sizes[1..], act)
  }

  /** Layer k + 1 is computed from layer k alone: the forward pass, layer by layer. */
  lemma {:induction false} ForwardStep(x: seq<real>, ws: seq<Grid>, sizes: seq<nat>, act: real -> real, k: nat)
    requires ShapesChain(ws, sizes) && |x| == sizes[0] && k < |ws|
    decreases k
    ensures Forward(x, ws, sizes, act)[k]
         == Activate(RowTimes(if k == 0 then x else Forward(x, ws, sizes, act)[k - 1], ws[k], sizes[k + 1]), act)
  {
    if k > 0 {
      var y := Activate(RowTimes(x, ws[0], sizes[1]), act);
      assert ShapesChain(ws[1..], sizes[1..]) by {
        forall j | 0 <= j < |ws| - 1 ensures Joins(ws[1..][j], sizes[1..], j) {
          assert Joins(ws[j + 1], sizes, j + 1);
        }
      }
      ForwardStep(y, ws[1..], sizes[1..], act, k - 1);
      var rest := Forward(y, ws[1..], sizes[1..], act);
      assert Forward(x, ws, sizes, act) == [y] + rest;
      if k == 1 {
        assert Forward(x, ws, sizes, act)[k - 1] == y;
      } else {
        assert Forward(x, ws, sizes, act)[k - 1] == rest[k - 2];
      }
    }
  }

  /** The layer sizes of a network: the input size, the hidden sizes in order, the output size. */
  function LayerSizes(inputSize: nat, hidden: seq<nat>, outputSize: nat): (sizes: seq<nat>)
    ensures |sizes| == |hidden| + 2
    ensures sizes[0] == inputSize && sizes[|hidden| + 1] == outputSize
    ensures sizes[1..|hidden| + 1] == hidden
  {
    [inputSize] + hidden + [outputSize]
  }

  /** A size vector is rebuilt from its first entry, its inner entries and its last entry. */
  lemma LayerSizesSplit(sizes: seq<nat>)
    requires |sizes| >= 2
    ensures LayerSizes(sizes[0], sizes[1..|sizes| - 1], sizes[|sizes| - 1]) == sizes
  {
    assert sizes == [sizes[0]] + sizes[1..|sizes| - 1] + [sizes[|sizes| - 1]];
  }

  /** Row 0 of `m` (empty for a matrix without rows): the values of a layer. */
  function FirstRow(m: Matrix): (row: seq<real>)
    ensures |m.Mtx| > 0 ==> row == m.Mtx[0]
  {
    if |m.Mtx| > 0 then m.Mtx[0] else []
  }

  /** The cells of every matrix, in order. */
  function Grids(ms: seq<Matrix>): (gs: seq<Grid>)
    ensures |gs| == |ms| && forall k :: 0 <= k < |ms| ==> gs[k] == ms[k].Mtx
  {
    seq(|ms|, k requires 0 <= k < |ms| => ms[k].Mtx)
  }

  /** `m` is a 1 by `n` matrix: the activation row of a layer of `n` neurons. */
  ghost predicate IsRow(m: Matrix, n: nat) {
    m.Valid() && m.I == 1 && m.J == n
  }

  /** Every cell (r, c) of `m` holds `weights(k, r, c)`: the weights drawn for synapse k. */
  ghost predicate Drawn(m: Matrix, weights: (nat, nat, nat) -> real, k: nat) {
    m.Valid() && forall r, c :: 0 <= r < m.I && 0 <= c < m.J ==> m.Mtx[r][c] == weights(k, r, c)
  }

  /** `m` is a sizes[k] by sizes[k + 1] matrix: the synapses from layer k to layer k + 1. */
  ghost predicate Links(m: Matrix, sizes: seq<nat>, k: nat) {
    k + 1 < |sizes| && m.Valid() && m.I == sizes[k] && m.J == sizes[k + 1]
  }

  /** The synapse matrices `syns` chain the layer sizes: matrix k is sizes[k] by sizes[k + 1]. */
  ghost predicate Chains(syns: seq<Matrix>, sizes: seq<nat>) {
    |sizes| == |syns| + 1 && forall k :: 0 <= k < |syns| ==> Links(syns[k], sizes, k)
  }

  /**
   * The activated product of a 1 by n row and an n by j synapse matrix is a
   * 1 by j row holding the activation of the row times the synapses.
   */
  lemma ActivatedProduct(prev: Matrix, syn: Matrix, product: Matrix, m: Matrix, act: real -> real)
    requires IsRow(prev, syn.I) && syn.Valid() && product == Matrix.Multiply(prev, syn)
    requires m.Valid() && m.I == product.I && m.J == product.J
    requires m.Mtx == product.Mtx[0 := Activate(product.Mtx[0], act)]
    ensures IsRow(m, syn.J) && m.Mtx[0] == Activate(RowTimes(prev.Mtx[0], syn.Mtx, syn.J), act)
  {
  }

  /**
   * A network: one activation row per layer and one synapse matrix between
   * each pair of adjacent layers. The hidden rows and the synapses are kept in
   * sequences that the methods reassign; the arrays that hold them in the
   * source are private and never handed out.
   */
  class LayeredNetwork {
    var FitnessScore: real

    var inputNeurons: Matrix
    var hiddenLayersNeurons: seq<Matrix>
    var outputNeurons: Matrix
    var synapses: seq<Matrix>

    /** Number of neurons of each layer, input first and output last; fixed at construction. */
    ghost const Sizes: seq<nat>

    /** The values of layer k: the input row for k = 0, then the hidden rows, then the output row. */
    ghost function Row(k: nat): seq<real>
      requires k < |hiddenLayersNeurons| + 2
      reads this`inputNeurons, this`hiddenLayersNeurons, this`outputNeurons
    {
      if k == 0 then FirstRow(inputNeurons)
      else if k <= |hiddenLayersNeurons| then FirstRow(hiddenLayersNeurons[k - 1])
      else FirstRow(outputNeurons)
    }

    /** The values of every synapse matrix, in layer order. */
    ghost function Weights(): seq<Grid>
      reads this`synapses
    {
      Grids(synapses)
    }

    /** Every activation row holds ones, as on construction. */
    ghost predicate AtRest()
      reads this`inputNeurons, this`hiddenLayersNeurons, this`outputNeurons
    {
      && OnesRow(inputNeurons) && OnesRow(outputNeurons)
      && forall k :: 0 <= k < |hiddenLayersNeurons| ==> OnesRow(hiddenLayersNeurons[k])
    }

    /**
     * At least one hidden layer and one synapse matrix more than hidden
     * layers; every activation row is 1 by its layer's size and synapse k is
     * sizes[k] by sizes[k + 1].
     */
    ghost predicate Valid()
      reads this`inputNeurons, this`hiddenLayersNeurons, this`outputNeurons, this`synapses
    {
      && |hiddenLayersNeurons| >= 1
      && |synapses| == |hiddenLayersNeurons| + 1
      && |Sizes| == |hiddenLayersNeurons| + 2
      && IsRow(inputNeurons, Sizes[0]) && IsRow(outputNeurons, Sizes[|Sizes| - 1])
      && (forall k :: 0 <= k < |hiddenLayersNeurons| ==> IsRow(hiddenLayersNeurons[k], Sizes[1..][k]))
      && Chains(synapses, Sizes)
    }

    /** In a valid network the synapse grids chain the layer sizes, and every row has its layer's width. */
    lemma ValidShapes()
      requires Valid()
      ensures ShapesChain(Weights(), Sizes)
      ensures forall k :: 0 <= k < |Sizes| ==> |Row(k)| == Sizes[k]
    {
      forall k | 0 <= k < |Sizes| ensures |Row(k)| == Sizes[k] {
        if 0 < k < |Sizes| - 1 {
          assert IsRow(hiddenLayersNeurons[k - 1], Sizes[1..][k - 1]);
        }
      }
    }

    /**
     * Creates every activation row filled with ones and every synapse matrix
     * between adjacent layers; synapse k holds the weights `weights(k, r, c)`
     * drawn for it.
     */
    constructor (inputLayerSize: nat, outputLayerSize: nat, hiddenLayersSizes: array<nat>,
                 weights: (nat, nat, nat) -> real)
      requires hiddenLayersSizes.Length >= 1
      ensures Valid()
      ensures Sizes == LayerSizes(inputLayerSize, hiddenLayersSizes[..], outputLayerSize)
      ensures AtRest()
      ensures forall k :: 0 <= k < |synapses| ==> Drawn(synapses[k], weights, k)
      ensures FitnessScore == 0.0
    {
      var ones := (r: nat, c: nat) => 1.0;
      inputNeurons := Matrix.New(1, inputLayerSize, ones);
      outputNeurons := Matrix.New(1, outputLayerSize, ones);
      var hidden := NewHiddenRows(hiddenLayersSizes);
      var syns := NewSynapses(inputLayerSize, outputLayerSize, hiddenLayersSizes, weights);
      hiddenLayersNeurons := hidden;
      synapses := syns;
      Sizes := LayerSizes(inputLayerSize, hiddenLayersSizes[..], outputLayerSize);
      FitnessScore := 0.0;
      new;
    }

    /** One 1 by size row of ones per hidden layer size. */
    static method NewHiddenRows(hiddenLayersSizes: array<nat>) returns (hidden: seq<Matrix>)
      ensures |hidden| == hiddenLayersSizes.Length
      ensures forall k :: 0 <= k < |hidden| ==>
                IsRow(hidden[k], hiddenLayersSizes[k]) && AllOnes(hidden[k].Mtx[0])
    {
      hidden := [];
      for i := 0 to hiddenLayersSizes.Length
        invariant |hidden| == i
        invariant forall k :: 0 <= k < i ==>
                    IsRow(hidden[k], hiddenLayersSizes[k]) && AllOnes(hidden[k].Mtx[0])
      {
        var row := Matrix.New(1, hiddenLayersSizes[i], (r: nat, c: nat) => 1.0);
        hidden := hidden + [row];
      }
    }

    /**
     * The synapse matrices: the first from the input layer to the first hidden
     * layer, the last from the last hidden layer to the output layer, and one
     * between each pair of adjacent hidden layers in between.
     */
    static method NewSynapses(inputLayerSize: nat, outputLayerSize: nat, hiddenLayersSizes: array<nat>,
                              weights: (nat, nat, nat) -> real) returns (syns: seq<Matrix>)
      requires hiddenLayersSizes.Length >= 1
      ensures |syns| == hiddenLayersSizes.Length + 1
      ensures forall k :: 0 <= k < |syns| ==>
                Links(syns[k], LayerSizes(inputLayerSize, hiddenLayersSizes[..], outputLayerSize), k)
      ensures forall k :: 0 <= k < |syns| ==> Drawn(syns[k], weights, k)
    {
      ghost var sizes := LayerSizes(inputLayerSize, hiddenLayersSizes[..], outputLayerSize);
      var count := hiddenLayersSizes.Length + 1;
      syns := [];
      for i := 0 to count
        invariant |syns| == i
        invariant forall k :: 0 <= k < i ==> Links(syns[k], sizes, k)
        invariant forall k :: 0 <= k < i ==> Drawn(syns[k], weights, k)
      {
        var rows, cols;
        if i == 0 {
          rows, cols := inputLayerSize, hiddenLayersSizes[i];
        } else if i == count - 1 {
          rows, cols := hiddenLayersSizes[i - 1], outputLayerSize;
        } else {
          rows, cols := hiddenLayersSizes[i - 1], hiddenLayersSizes[i];
        }
        syns := syns + [Matrix.New(rows, cols, (r: nat, c: nat) => weights(i, r, c))];
      }
    }

    /**
     * A network of the same layer sizes whose synapses hold copies of these
     * synapses and whose fitness is this fitness; its activation rows are new.
     */
    method GetClone() returns (clone: LayeredNetwork)
      requires Valid()
      ensures fresh(clone)
      ensures clone.Valid() && clone.Sizes == Sizes
      ensures clone.synapses == synapses && clone.FitnessScore == FitnessScore
      ensures clone.AtRest()
    {
      var hiddenLayerSizes := GetHiddenLayersSizes();
      var inputSize := GetInputSize();
      var outputSize := GetOutputSize();
      LayerSizesSplit(Sizes);
      clone := new LayeredNetwork(inputSize, outputSize, hiddenLayerSizes, (k: nat, r: nat, c: nat) => 0.0);
      var copy := GetSynapsesClone();
      assert clone.Valid();
      assert forall k :: 0 <= k < |synapses| ==> Links(synapses[k], Sizes, k);
      clone.InsertSynapses(copy);
      assert clone.Valid() && clone.synapses == synapses;
      clone.FitnessScore := FitnessScore;
    }

    /**
     * Applies the activation function to every cell of row 0 of `mat`, leaving
     * the other rows as they are.
     */
    static method ProcessActivation(mat: Matrix, act: real -> real) returns (activated: Matrix)
      requires mat.Valid() && (mat.J > 0 ==> mat.I >= 1)
      ensures activated.Valid() && activated.I == mat.I && activated.J == mat.J
      ensures mat.I >= 1 ==> activated.Mtx == mat.Mtx[0 := Activate(mat.Mtx[0], act)]
      ensures mat.I == 0 ==> activated == mat
    {
      activated := mat;
      for j := 0 to mat.J
        invariant activated.Valid() && activated.I == mat.I && activated.J == mat.J
        invariant mat.I == 0 ==> activated == mat
        invariant mat.I >= 1 ==> activated.Mtx == mat.Mtx[0 := activated.Mtx[0]]
        invariant mat.I >= 1 ==> forall c :: 0 <= c < j ==> activated.Mtx[0][c] == act(mat.Mtx[0][c])
        invariant mat.I >= 1 ==> forall c :: j <= c < mat.J ==> activated.Mtx[0][c] == mat.Mtx[0][c]
      {
        activated := activated.SetValue(0, j, act(activated.GetValue(0, j)));
      }
      if mat.I >= 1 {
        assert activated.Mtx[0] == Activate(mat.Mtx[0], act);
      }
    }

    /**
     * Writes the sensor values into the input row (as many as fit; the rest,
     * such as a bias neuron, keep their value), then computes each following
     * layer as the activation of the previous row times the synapse matrix
     * between them, and returns the output row.
     */
    method PingFwd(sensorsValues: seq<real>, act: real -> real) returns (outputs: seq<real>)
      requires Valid()
      modifies this`inputNeurons, this`hiddenLayersNeurons, this`outputNeurons
      ensures Valid() && ShapesChain(Weights(), Sizes) && |Row(0)| == Sizes[0]
      ensures Row(0) == Overlay(old(Row(0)), sensorsValues)
      ensures forall k :: 0 < k < |Sizes| ==> Row(k) == Forward(Row(0), Weights(), Sizes, act)[k - 1]
      ensures outputs == Row(|Sizes| - 1) && |outputs| == Sizes[|Sizes| - 1]
    {
      inputNeurons := inputNeurons.SetLineValues(0, sensorsValues, true);
      ForwardPass(act);
      outputs := outputNeurons.GetLineValues(0);
    }

    /**
     * The loop of the forward pass: every layer after the input becomes, in
     * order, the activation of the previous layer times the synapses between
     * them.
     */
    method ForwardPass(act: real -> real)
      requires Valid()
      modifies this`hiddenLayersNeurons, this`outputNeurons
      ensures Valid() && ShapesChain(Weights(), Sizes) && |Row(0)| == Sizes[0]
      ensures Row(0) == old(Row(0))
      ensures forall k :: 0 < k < |Sizes| ==> Row(k) == Forward(Row(0), Weights(), Sizes, act)[k - 1]
    {
      ValidShapes();
      ghost var x := Row(0);
      ghost var F := Forward(x, Weights(), Sizes, act);
      var i := 0;
      while i < |hiddenLayersNeurons| + 1
        invariant 0 <= i <= |hiddenLayersNeurons| + 1
        invariant Valid() && ShapesChain(Weights(), Sizes) && |x| == Sizes[0]
        invariant Row(0) == x && F == Forward(x, Weights(), Sizes, act)
        invariant Computed(i, F)
      {
        Advance(i, act, x, F);
        i := i + 1;
      }
    }

    /** Layers 1 to i hold rows 0 to i - 1 of the forward pass `F`. */
    ghost predicate Computed(i: nat, F: seq<seq<real>>)
      requires i <= |F| && |F| == |hiddenLayersNeurons| + 1
      reads this`inputNeurons, this`hiddenLayersNeurons, this`outputNeurons
    {
      forall k :: 0 < k <= i ==> Row(k) == F[k - 1]
    }

    /** One turn of the forward pass: layer i + 1 becomes row i of the forward pass from `x`. */
    method Advance(i: nat, act: real -> real, ghost x: seq<real>, ghost F: seq<seq<real>>)
      requires Valid() && i < |synapses| && ShapesChain(Weights(), Sizes) && |x| == Sizes[0]
      requires Row(0) == x && F == Forward(x, Weights(), Sizes, act) && Computed(i, F)
      modifies this`hiddenLayersNeurons, this`outputNeurons
      ensures Valid() && Row(0) == x && Computed(i + 1, F)
    {
      ForwardStep(x, Weights(), Sizes, act, i);
      assert Row(i) == if i == 0 then x else F[i - 1];
      PropagateLayer(i, act);
      assert Row(i + 1) == F[i];
    }

    /**
     * Step i of the forward pass: layer i + 1 (a hidden layer, or the output
     * layer for the last step) becomes the activation of layer i times
     * synapse i; the other layers keep their values.
     */
    method PropagateLayer(i: nat, act: real -> real)
      requires Valid() && i < |synapses|
      modifies this`hiddenLayersNeurons, this`outputNeurons
      ensures Valid()
      ensures |old(Row(i))| == Sizes[i] && IsShape(Weights()[i], Sizes[i], Sizes[i + 1])
      ensures Row(i + 1) == Activate(RowTimes(old(Row(i)), Weights()[i], Sizes[i + 1]), act)
      ensures forall k :: 0 <= k < |Sizes| && k != i + 1 ==> Row(k) == old(Row(k))
    {
      assert Links(synapses[i], Sizes, i);
      if i == 0 {
        var product := Matrix.Multiply(inputNeurons, synapses[0]);
        var activated := ProcessActivation(product, act);
        ActivatedProduct(inputNeurons, synapses[0], product, activated, act);
        hiddenLayersNeurons := hiddenLayersNeurons[0 := activated];
      } else if i == |hiddenLayersNeurons| {
        assert IsRow(hiddenLayersNeurons[i - 1], Sizes[1..][i - 1]);
        var product := Matrix.Multiply(hiddenLayersNeurons[i - 1], synapses[i]);
        outputNeurons := ProcessActivation(product, act);
        ActivatedProduct(hiddenLayersNeurons[i - 1], synapses[i], product, outputNeurons, act);
      } else {
        assert IsRow(hiddenLayersNeurons[i - 1], Sizes[1..][i - 1]);
        var product := Matrix.Multiply(hiddenLayersNeurons[i - 1], synapses[i]);
        var activated := ProcessActivation(product, act);
        ActivatedProduct(hiddenLayersNeurons[i - 1], synapses[i], product, activated, act);
        hiddenLayersNeurons := hiddenLayersNeurons[i := activated];
      }
    }

    /** Number of neurons of the input layer. */
    method GetInputSize() returns (n: nat)
      requires Valid()
      ensures n == Sizes[0]
    {
      n := inputNeurons.J;
    }

    /** Number of neurons of the output layer. */
    method GetOutputSize() returns (n: nat)
      requires Valid()
      ensures n == Sizes[|Sizes| - 1]
    {
      n := outputNeurons.J;
    }

    /** Number of neurons of each hidden layer, in order, in a new array. */
    method GetHiddenLayersSizes() returns (hiddenLayerSizes: array<nat>)
      requires Valid()
      ensures fresh(hiddenLayerSizes)
      ensures hiddenLayerSizes[..] == Sizes[1..|Sizes| - 1]
    {
      hiddenLayerSizes := new nat[|hiddenLayersNeurons|];
      for i := 0 to |hiddenLayersNeurons|
        invariant forall k :: 0 <= k < i ==> hiddenLayerSizes[k] == Sizes[1..][k]
      {
        hiddenLayerSizes[i] := hiddenLayersNeurons[i].J;
      }
    }

    /** The values of the output layer. */
    method GetOutputValues() returns (values: seq<real>)
      requires Valid()
      ensures values == Row(|Sizes| - 1) && |values| == Sizes[|Sizes| - 1]
    {
      values := outputNeurons.GetLineValues(0);
    }

    /** A new array holding a copy of every synapse matrix. */
    method GetSynapsesClone() returns (synapsesCopy: array<Matrix>)
      ensures fresh(synapsesCopy)
      ensures synapsesCopy[..] == synapses
    {
      synapsesCopy := new Matrix[|synapses|];
      for i := 0 to |synapses|
        invariant forall k :: 0 <= k < i ==> synapsesCopy[k] == synapses[k]
      {
        synapsesCopy[i] := synapses[i];
      }
    }

    /**
     * When `newSynapses` has as many matrices as this network, each synapse
     * matrix takes the values of the matrix at the same index; otherwise
     * nothing changes.
     */
    method InsertSynapses(newSynapses: array<Matrix>)
      requires Valid()
      requires newSynapses.Length == |synapses| ==>
                 forall k :: 0 <= k < newSynapses.Length ==> Links(newSynapses[k], Sizes, k)
      modifies this`synapses
      ensures Valid()
      ensures newSynapses.Length == old(|synapses|) ==> synapses == newSynapses[..]
      ensures newSynapses.Length != old(|synapses|) ==> synapses == old(synapses)
    {
      if |synapses| == newSynapses.Length {
        for i := 0 to |synapses|
          invariant |synapses| == newSynapses.Length
          invariant forall k :: 0 <= k < i ==> synapses[k] == newSynapses[k]
          invariant forall k :: i <= k < |synapses| ==> synapses[k] == old(synapses[k])
        {
          synapses := synapses[i := synapses[i].SetAllValues(newSynapses[i])];
        }
        assert synapses == newSynapses[..];
      }
    }
  }
}
