# Layered network neuroevolution, modelled in Dafny

This project models the neuroevolution core of AI-Race. Cars are driven by
fully connected layered neural networks, and a genetic algorithm ranks them
by fitness and breeds mutated offspring. The model covers four parts, plus a
one-type module `Wrappers` (`wrappers.dfy`) holding the `Option` type that
Ranking and Evolution share:

- **`matrix.dfy`, module `Matrices`.** A minimal stand-in for the library's
  `Matrix`, which the two core files use but which is not part of this model.
  A matrix is a value: dimensions `I`, `J` and its cells. Only what the core
  relies on is given: shapes, cell and row reads and writes, value copies,
  the product, and `Redimension`. Two behaviours of the library are
  ASSUMED, because its code is not part of this model:
  - `Redimension` keeps the overlapping top-left block and zero-fills the
    rest;
  - `SetLineValues` with a size mismatch allowed copies the overlapping
    prefix of the values and keeps the row's other cells.
- **`layered_network.dfy`, module `LayeredNet`.** The class `LayeredNetwork`:
  - construction, deep cloning, synapse snapshot and injection;
  - the size getters;
  - the forward pass. `PingFwd` is proved against a reference definition
    `Forward`: each layer is the activation of the previous row times the
    synapse matrix between them.
- **`ranking.dfy`, module `Ranking`.** The leaderboard insertion
  `RankFitnessContender`, which works in place on an array. In the source it
  is a member of the static class `Evolution`; it has its own module here
  because it shares nothing with breeding. It is proved against a
  reference definition `Contend`: insert the contender at its rank, and drop what
  falls off the end. Lemmas show that insertion keeps the leaderboard sorted
  with its entries packed at the front. They also show what enters and what
  leaves, and that ties never displace an entry.
- **`evolution.dfy`, module `Evolution`.** Breeding (`CreateMutatedOffspring`)
  and its steps:
  - the array resizing `RedimentionLayersNb`;
  - the hidden-layer count mutation;
  - the neuron count mutation, with the synapse rewiring around the chosen
    layer;
  - the per-weight mutation;
  - the assembly of the offspring's layer-size vector.

Every random draw is a field of the `Draws` datatype. `WellDrawn` states what
Unity's generator guarantees about the integer draws: an integer draw
excludes its upper bound. Two consequences follow:

- **The neuron mutation's layer.** It is never the last of two or more hidden
  layers, because `Random.Range(0, hiddenLayersSizes.Length - 1)` excludes
  `Length - 1` (Evolution.cs:87; `Evolution.PickedLayer`).
- **The mutation kind.** It is never the last declared kind, `Nullify`,
  because the kind index is drawn below the number of kinds minus one
  (Evolution.cs:112). So the switch's `Nullify` and unknown-kind branches are
  unreachable (`Evolution.DrawnMutations`).

`MutateNbOfHiddenLayer` assigns the resized synapse array to its own
parameter (Evolution.cs:65 and 72), so a grown or shrunk synapse array is
lost. The caller's array is unchanged, and the model keeps this as written.
After a layer-count mutation, the array handed to the offspring keeps the
parent's length. `InsertSynapses` then sees a count mismatch and does
nothing (LayeredNetwork.cs:167-174), so the offspring keeps its freshly
drawn weights. `CreateMutatedOffspring` states both outcomes.

The sensor values are loaded with a size mismatch allowed
(LayeredNetwork.cs:98). Under the `SetLineValues` assumption above, the
input row takes as many sensor values as fit and keeps its other cells,
whatever the sizes.

## Model

| member | source | states |
|---|---|---|
| Matrices.Matrix.New | Assets/Scripts/NeuralNets/LayeredNet/LayeredNetwork.cs:28-47 | a new i by j matrix is well formed and cell (r, c) holds the fill value (ones, or the drawn synapse weights) |
| Matrices.Matrix.GetValue | Assets/Scripts/NeuralNets/LayeredNet/Evolution.cs:113 | reading cell (i, j) gives the value whose write-back leaves the matrix unchanged |
| Matrices.Matrix.SetValue | Assets/Scripts/NeuralNets/LayeredNet/Evolution.cs:142 | writing a cell keeps the shape and changes that cell only |
| Matrices.Matrix.SetLineValues | Assets/Scripts/NeuralNets/LayeredNet/LayeredNetwork.cs:98 | (assumption) writing a row with size mismatch allowed copies the overlapping prefix and keeps the other cells |
| Matrices.Matrix.GetLineValues | Assets/Scripts/NeuralNets/LayeredNet/LayeredNetwork.cs:115 | reading a row gives one value per column, and writing them back leaves the matrix unchanged |
| Matrices.Matrix.SetAllValues | Assets/Scripts/NeuralNets/LayeredNet/LayeredNetwork.cs:169 | copying the values of a same-shape matrix yields that matrix |
| Matrices.Matrix.Multiply | Assets/Scripts/NeuralNets/LayeredNet/LayeredNetwork.cs:103-110 | the product of an I by n and an n by J matrix is I by J, each row being that row times the right matrix |
| Matrices.Matrix.Redimension | Assets/Scripts/NeuralNets/LayeredNet/Evolution.cs:94-95 | (assumption) the result has the target shape, holds the overlapping top-left block and is zero elsewhere |
| Matrices.RedimSameShape | Assets/Scripts/NeuralNets/LayeredNet/Evolution.cs:94-95 | redimensioning to a matrix's own shape changes nothing |
| Matrices.RedimGrowShrink | Assets/Scripts/NeuralNets/LayeredNet/Evolution.cs:94-95 | growing a matrix and shrinking it back restores every original weight |
| LayeredNet.Forward | Assets/Scripts/NeuralNets/LayeredNet/LayeredNetwork.cs:101-113 | the forward pass has one row per synapse matrix, row k having the size of layer k + 1 |
| LayeredNet.ForwardStep | Assets/Scripts/NeuralNets/LayeredNet/LayeredNetwork.cs:101-113 | layer k + 1 of the forward pass is the activation of layer k times synapse k, so the pass can be computed layer by layer |
| LayeredNet.LayerSizes | Assets/Scripts/NeuralNets/LayeredNet/Evolution.cs:39-45 | the layer-size vector is the input size, the hidden sizes in order and the output size |
| LayeredNet.LayerSizesSplit | Assets/Scripts/NeuralNets/LayeredNet/Evolution.cs:39-45 | any size vector of two or more entries is rebuilt from its first, inner and last entries |
| LayeredNet.ActivatedProduct | Assets/Scripts/NeuralNets/LayeredNet/LayeredNetwork.cs:103-104 | the activated product of a layer row and the synapses out of it is a row of the next layer's size holding the activation of their product |
| LayeredNet.LayeredNetwork.ValidShapes | Assets/Scripts/NeuralNets/LayeredNet/LayeredNetwork.cs:37-47 | in a well-formed network synapse k is sizes[k] by sizes[k + 1] and each row has its layer's width |
| LayeredNet.LayeredNetwork.constructor | Assets/Scripts/NeuralNets/LayeredNet/LayeredNetwork.cs:26-49 | a new network is well formed, has the given layer sizes, rows of ones, synapses holding their drawn weights and fitness 0 |
| LayeredNet.LayeredNetwork.NewHiddenRows | Assets/Scripts/NeuralNets/LayeredNet/LayeredNetwork.cs:31-35 | one 1 by size row of ones per hidden layer size |
| LayeredNet.LayeredNetwork.NewSynapses | Assets/Scripts/NeuralNets/LayeredNet/LayeredNetwork.cs:37-48 | one synapse matrix more than hidden layers, matrix k linking layer k to layer k + 1 and holding the weights drawn for it |
| LayeredNet.LayeredNetwork.GetClone | Assets/Scripts/NeuralNets/LayeredNet/LayeredNetwork.cs:54-67 | the clone is a new well-formed network with the same layer sizes, equal synapse values and the same fitness |
| LayeredNet.LayeredNetwork.ProcessActivation | Assets/Scripts/NeuralNets/LayeredNet/LayeredNetwork.cs:72-78 | every cell of row 0 becomes its activation; the shape and the other rows are kept |
| LayeredNet.LayeredNetwork.PingFwd | Assets/Scripts/NeuralNets/LayeredNet/LayeredNetwork.cs:95-116 | the input row takes the sensor values it has room for, every later layer equals the forward pass from it, and the output row is returned |
| LayeredNet.LayeredNetwork.ForwardPass | Assets/Scripts/NeuralNets/LayeredNet/LayeredNetwork.cs:100-113 | after the loop every layer after the input equals the forward pass from the input row; the input row and the synapses are kept |
| LayeredNet.LayeredNetwork.Advance | Assets/Scripts/NeuralNets/LayeredNet/LayeredNetwork.cs:101-112 | one turn of the loop extends the layers computed so far by layer i + 1 |
| LayeredNet.LayeredNetwork.PropagateLayer | Assets/Scripts/NeuralNets/LayeredNet/LayeredNetwork.cs:102-112 | layer i + 1 becomes the activation of layer i times synapse i, and no other layer changes |
| LayeredNet.LayeredNetwork.GetInputSize | Assets/Scripts/NeuralNets/LayeredNet/LayeredNetwork.cs:121-123 | the number of input neurons |
| LayeredNet.LayeredNetwork.GetOutputSize | Assets/Scripts/NeuralNets/LayeredNet/LayeredNetwork.cs:128-130 | the number of output neurons |
| LayeredNet.LayeredNetwork.GetHiddenLayersSizes | Assets/Scripts/NeuralNets/LayeredNet/LayeredNetwork.cs:135-142 | a new array of the hidden layer sizes in order |
| LayeredNet.LayeredNetwork.GetOutputValues | Assets/Scripts/NeuralNets/LayeredNet/LayeredNetwork.cs:147-149 | the output row's values, one per output neuron |
| LayeredNet.LayeredNetwork.GetSynapsesClone | Assets/Scripts/NeuralNets/LayeredNet/LayeredNetwork.cs:154-160 | a new array holding a copy of every synapse matrix in order |
| LayeredNet.LayeredNetwork.InsertSynapses | Assets/Scripts/NeuralNets/LayeredNet/LayeredNetwork.cs:165-175 | on a matching count every synapse takes the values of the matching new matrix; on a mismatch nothing changes |
| Ranking.Rank | Assets/Scripts/NeuralNets/LayeredNet/Evolution.cs:204-216 | the contender's slot: every entry ahead of it is present and scores at least the contender, and the entry at it does not |
| Ranking.Inserted | Assets/Scripts/NeuralNets/LayeredNet/Evolution.cs:205-212 | inserting at slot p keeps the entries before p, puts the contender at p and shifts the rest one down, losing the last |
| Ranking.Contend | Assets/Scripts/NeuralNets/LayeredNet/Evolution.cs:189-221 | the reference leaderboard after a contention keeps its length, and is unchanged when every slot is present and scores at least the contender |
| Ranking.ContendFirstBelow | Assets/Scripts/NeuralNets/LayeredNet/Evolution.cs:193-216 | otherwise the contender takes the first slot that is empty or scores below it, the entries before stay and the rest move one slot down, the last dropping off |
| Ranking.RankIs | Assets/Scripts/NeuralNets/LayeredNet/Evolution.cs:209-216 | in a ranked leaderboard the rank is the slot after the last entry scoring at least the contender |
| Ranking.ContendRanked | Assets/Scripts/NeuralNets/LayeredNet/Evolution.cs:189-221 | a contention keeps the leaderboard sorted by score, entries packed at the front |
| Ranking.ContendUnchanged | Assets/Scripts/NeuralNets/LayeredNet/Evolution.cs:193-198 | a contender scoring no more than a present last entry leaves the leaderboard unchanged |
| Ranking.ContendEnters | Assets/Scripts/NeuralNets/LayeredNet/Evolution.cs:193-212 | otherwise the contender takes its rank and the new leaderboard holds exactly the old entries but the last, plus the contender |
| Ranking.ContendTies | Assets/Scripts/NeuralNets/LayeredNet/Evolution.cs:196-216 | entries ahead of the contender score at least as much, entries behind it strictly less: ties never displace |
| Ranking.SwapDown | Assets/Scripts/NeuralNets/LayeredNet/Evolution.cs:209-212 | one swap moves the contender up one slot past the entry ahead of it |
| Ranking.InsertedBefore | Assets/Scripts/NeuralNets/LayeredNet/Evolution.cs:205-212 | inserting before the last slot drops the last entry |
| Ranking.RankFitnessContender | Assets/Scripts/NeuralNets/LayeredNet/Evolution.cs:189-221 | on a ranked leaderboard, the array after the call is the contender inserted at its rank, in place, and the same array is returned |
| Evolution.Resized | Assets/Scripts/NeuralNets/LayeredNet/Evolution.cs:157-165 | the resized list has the new length, keeps the common prefix and fills the rest with the default |
| Evolution.ResizedGrowShrink | Assets/Scripts/NeuralNets/LayeredNet/Evolution.cs:157-181 | growing a list and shrinking it back gives the list back |
| Evolution.ResizedByOne | Assets/Scripts/NeuralNets/LayeredNet/Evolution.cs:157-181 | resizing by -1 drops exactly the last entry; by +1 appends one default entry |
| Evolution.RedimentionLayersNb | Assets/Scripts/NeuralNets/LayeredNet/Evolution.cs:157-181 | both overloads: a new array of length + sizeMod entries that is the resized list |
| Evolution.LayerCountMutated | Assets/Scripts/NeuralNets/LayeredNet/Evolution.cs:60-77 | the hidden sizes lose their last entry iff the shrink draw is taken and there is more than one; otherwise gain an output-sized last entry; never empty |
| Evolution.MutateNbOfHiddenLayer | Assets/Scripts/NeuralNets/LayeredNet/Evolution.cs:60-77 | returns new hidden sizes equal to the layer-count mutation of the old ones; the caller's synapse array is not changed |
| Evolution.NeuronCountMutated | Assets/Scripts/NeuralNets/LayeredNet/Evolution.cs:88-92 | a size shrinks by one iff the shrink draw is taken and it exceeds one, else grows by one; a positive size stays positive |
| Evolution.Rewired | Assets/Scripts/NeuralNets/LayeredNet/Evolution.cs:94-95 | after layer k is resized, synapse k gets the new column count and synapse k + 1 the new row count; the other matrices are kept |
| Evolution.RewiredChains | Assets/Scripts/NeuralNets/LayeredNet/Evolution.cs:93-95 | rewiring after a hidden layer's resize keeps every synapse linking its two layers' new sizes |
| Evolution.RewiredRoundTrip | Assets/Scripts/NeuralNets/LayeredNet/Evolution.cs:94-95 | resizing a layer up and back leaves the synapses around it exactly as they were |
| Evolution.MutateNbOfHiddenLayerNeurons | Assets/Scripts/NeuralNets/LayeredNet/Evolution.cs:85-98 | the picked hidden size gets the neuron-count mutation, the other sizes are kept, and the synapses are rewired around it, in place |
| Evolution.KindOf | Assets/Scripts/NeuralNets/LayeredNet/Evolution.cs:112 | a drawn index selects a declared mutation kind exactly when it is in range |
| Evolution.MutatedValue | Assets/Scripts/NeuralNets/LayeredNet/Evolution.cs:115-140 | an additive mutation moves the weight by the amount, a multiplicative one scales it by the amount, reversing negates it, replacing makes it the amount, nullifying zeroes it, and an unknown kind leaves it |
| Evolution.MutationKinds | Assets/Scripts/NeuralNets/LayeredNet/Evolution.cs:115-140 | reversing twice restores a weight, replacing and nullifying forget it, and adding 0 or multiplying by 1 leaves it |
| Evolution.CellAfter | Assets/Scripts/NeuralNets/LayeredNet/Evolution.cs:111-142 | a weight whose rate draw is not below the rate, or whose drawn kind is unknown, is kept |
| Evolution.MutateSynapsesValues | Assets/Scripts/NeuralNets/LayeredNet/Evolution.cs:105-149 | every weight of every matrix is mutated by its drawn kind exactly when its rate draw is below the rate; shapes are kept; the same array is returned |
| Evolution.DrawnMutations | Assets/Scripts/NeuralNets/LayeredNet/Evolution.cs:111-140 | a failed rate draw keeps the weight; a successful one never nullifies or hits the unknown-kind branch, and yields v + a, v * a, -v or a |
| Evolution.MutatedChains | Assets/Scripts/NeuralNets/LayeredNet/Evolution.cs:105-149 | the weight mutation keeps synapses chaining the same layer sizes |
| Evolution.ZeroRateKeeps | Assets/Scripts/NeuralNets/LayeredNet/Evolution.cs:111 | with a rate no draw falls below, a matrix is left exactly as it was |
| Evolution.NewNetwork | Assets/Scripts/NeuralNets/LayeredNet/Evolution.cs:47 | a network built from a whole layer-size vector is well formed, has exactly those sizes, rows of ones and drawn weights |
| Evolution.PickedLayer | Assets/Scripts/NeuralNets/LayeredNet/Evolution.cs:87 | the picked hidden layer exists and, when there are two or more, is never the last |
| Evolution.NeuronStage | Assets/Scripts/NeuralNets/LayeredNet/Evolution.cs:33-34 | after the count stage the neuron mutation's layer has a synapse on each side; the result is the offspring's hidden sizes and, without a count mutation, still chains them |
| Evolution.CountTopology | Assets/Scripts/NeuralNets/LayeredNet/Evolution.cs:20-30 | fresh copies of the parent's hidden sizes and synapses, the sizes having gone through the layer-count mutation when its draw is taken; the synapses are the parent's |
| Evolution.NeuronTopology | Assets/Scripts/NeuralNets/LayeredNet/Evolution.cs:32-34 | the neuron mutation yields the offspring's hidden sizes; without a count mutation the synapses are the rewired parent's and chain the new sizes |
| Evolution.MutateTopology | Assets/Scripts/NeuralNets/LayeredNet/Evolution.cs:20-34 | the offspring's hidden sizes and well-formed synapses of the parent's count; without a count mutation they chain the new layer sizes |
| Evolution.AssembleLayerSizes | Assets/Scripts/NeuralNets/LayeredNet/Evolution.cs:39-45 | a new array holding the input size, the hidden sizes in order and the output size |
| Evolution.CreateMutatedOffspring | Assets/Scripts/NeuralNets/LayeredNet/Evolution.cs:15-51 | a new well-formed offspring with the mutated layer sizes; after a count mutation it keeps its drawn weights, otherwise its synapses are the parent's rewired and mutated ones |

## Left out

- Matrices: the library's matrix class is not part of this model. It is a value here, so its in-place setters (`SetValue`, `SetAllValues`, `SetLineValues`) become functions whose results are stored back. Aliasing between matrices is not modelled. Matrix dimensions are `nat`, so empty matrices are allowed.
- Matrices.Matrix.Redimension: keeping the top-left block is an assumption about the library; the body of `Matrix.Redimension` is not part of this model.
- Matrices.Matrix.SetLineValues: copying the overlapping prefix under an allowed size mismatch, and keeping the row's other cells, is an assumption about the library; the body of `SetLineValues` is not part of this model. `LayeredNet.LayeredNetwork.PingFwd`'s statement about the input row rests on it.
- LayeredNet.LayeredNetwork: the hidden rows and the synapses are sequences the methods reassign instead of private arrays written in place; their arrays are never handed out, so no aliasing is lost.
- LayeredNet.LayeredNetwork.ProcessActivation: the activation (`TanH` through `Mathf.Exp`, in single-precision floats) is a parameter `act`; floating point is modelled as `real`. The unused `Sigmoid` and `Linear` are left out.
- LayeredNet.LayeredNetwork.constructor: the weights `SetAsSynapse` draws, and their bound `StandardSynapseRange`, become a weights parameter with no range constraint. The constructor requires at least one hidden size. The source reads `hiddenLayersSizes[0]` (LayeredNetwork.cs:43) and throws on an empty array, and every caller passes at least one size.
- LayeredNet.LayeredNetwork.InsertSynapses: on a matching count it requires each new matrix to have the shape of the synapse it replaces, since the library's `SetAllValues` on other shapes is not part of this model. The `Debug.LogWarning` on a mismatch is left out.
- Ranking.RankFitnessContender: requires a leaderboard of at least one slot (the source indexes its last slot unconditionally). Entries are any type with a score function, and a null reference is `None`. The contract is stated for leaderboards that are already ranked, which every leaderboard built by this operation is (`Ranking.ContendRanked`).
- Evolution.MutateSynapsesValues: the drawn amounts are not bounded. The source draws them from [-range, range] for an additive mutation, from [1 - 5 range, 1 + 5 range] for a factor, and from the standard synapse range for a replacement. `neuralNet` and `synapsesMutationRange` are unused, and the unknown-kind `Debug.LogWarning` is left out.
- Evolution.MutationType: the enumeration's declaration is not part of this model. Its order is assumed to be the order the switch handles the kinds in (additive, multiply, reverse, replace, nullify).
- Evolution.CreateMutatedOffspring: the `Network` class it works on, with its `HiddenLayersSizes`, `InputSize` and `OutputSize` members and its `Network(int[])` constructor, is not part of this model. It is modelled by `LayeredNetwork`, its getters and `Evolution.NewNetwork`. `HiddenLayersSizes` is taken to return a copy, as `GetHiddenLayersSizes` does. `mutateCoef` is unused in the source and in the model.
- Evolution.MutateTopology, Evolution.CountTopology, Evolution.NeuronTopology and Evolution.AssembleLayerSizes: these are steps of `CreateMutatedOffspring` split into their own methods. Their bodies are the statements of the cited lines.
- Evolution.MutateNbOfHiddenLayer: the null matrices a grown synapse array holds become the placeholder `NoMatrix`; the array is discarded anyway. The random weights of the appended matrix are a parameter.
- Evolution.Draws: every random draw (`Random.value`, `Random.Range`) is a field of `Draws`. The uniform float draws are not constrained to [0, 1], and no distribution is modelled.
- The car controller, the neural-network controller that runs the generations, the sensors and the Unity scene are not part of this model.
