# Tape circuit graph: parametrized layers and path queries

This project models `TapeCircuitGraph` from PennyLane's quantum-tape package in Dafny. The
class is the circuit graph built from a quantum tape. It keeps the tape's operations,
observables, parameter table (`par_info`) and set of trainable parameter indices, and it
answers two questions about the circuit's directed acyclic graph:

- `has_path(a, b)`: is there a directed path from node `a` to node `b`?
- `parametrized_layers`: how do the trainable parameters split into layers? The
  parameter table is walked in its iteration order, and untrainable indices are skipped.
  Each trainable parameter's operation joins the current (last) layer. The exception is
  when that layer already holds an ancestor of the operation; then a new layer is opened
  for it. An operation is never placed into an earlier layer. This non-greedy behaviour is
  kept on purpose. It is the documented current behaviour, not something to fix.

Operations and observables are integer ids. The graph is `Digraph(nodes, edges)`, with
its nodes in queue order `ops + obs`. A parameter-table item is `ParEntry(idx, op)`, and
a layer is `Layer(ops, paramInds)`.

Files:

- `reachability.dfy` (module `Reachability`): walks, the reachability check
  `ReachWithin`/`Reaches`, the ancestor set, and the proof that `Reaches` holds exactly
  when a walk exists.
- `layering.dfy` (module `ParametrizedLayering`): the layering as a function of the
  table (`Place`, `Layering`), plus an independent description of what a layering is
  (`IsLayering`). It proves that `Layering` satisfies `IsLayering` and that nothing else
  does.
- `circuit_graph.dfy` (module `TapeCircuit`): the class `TapeCircuitGraph`. Its
  `ParametrizedLayers` method is the imperative loop. In the loop, `current` is always
  the last element of `layers`, and the method is proved equal to `Layering`.

## Model

| member | source | states |
|---|---|---|
| `TapeCircuit.TapeCircuitGraph.constructor` | pennylane/tape/circuit_graph.py:29-44 | The operations and observables read back exactly as passed. The parameter table, trainable set and wires are stored unchanged. The graph's nodes are `ops + obs` in that order. The table has no repeated index (it is a dictionary), and every edge joins two nodes, as in a networkx graph; the object is therefore `Valid()`. |
| `TapeCircuit.TapeCircuitGraph.HasPath` | pennylane/tape/circuit_graph.py:46-56 | The result is `NodeNotFound` exactly when `a` or `b` is not a node. It is `Ok(true)` exactly when both are nodes and a directed walk leads from `a` to `b`; a node always reaches itself. |
| `Reachability.ReachesIffWalk` | pennylane/tape/circuit_graph.py:46-56 | The bounded reachability check (at most as many steps as there are edges) holds exactly when some walk of any length joins the two nodes. |
| `Reachability.AncestorsSpec` | pennylane/tape/circuit_graph.py:78 | `x` is an ancestor of `op` exactly when `x` is a node other than `op` and a walk leads from `x` to `op`. |
| `ParametrizedLayering.Conflict` | pennylane/tape/circuit_graph.py:82 | The test that the current layer's operation set meets the ancestor set holds exactly when some operation of the layer is an ancestor. |
| `ParametrizedLayering.Place` | pennylane/tape/circuit_graph.py:78-89 | Placing one trainable entry never changes any layer before the current one. It adds a layer exactly when the current layer holds an ancestor of the entry's operation, and at most one layer. When it adds one, all existing layers, the current one included, stay as they were. Read in order, the layers' indices and operations gain exactly the entry's index and operation at the end and lose nothing. Together these fix the result: on a join, the current layer keeps its entries and gains the entry; on a conflict, the new layer holds the entry alone. |
| `ParametrizedLayering.Layering` | pennylane/tape/circuit_graph.py:67-91 | There is always at least one layer, and at most one more than the number of trainable parameters. |
| `ParametrizedLayering.LayeringSound` | pennylane/tape/circuit_graph.py:67-91 | The layers satisfy the following. In every layer `ops` and `param_inds` have equal length. Concatenated in order, `param_inds` are exactly the trainable table indices in table order, and `ops` their operations; nothing is dropped, duplicated or reordered. Every layer after the first is non-empty. No operation in a layer is an ancestor of one placed after it in that layer. Every layer after the first starts with an operation that has an ancestor in the layer before it. |
| `ParametrizedLayering.LayeringCharacterised` | pennylane/tape/circuit_graph.py:58-91 | A sequence of layers has all the properties listed for `LayeringSound` exactly when it is the one built by walking the table. The loop's output is therefore the unique layering with those properties. |
| `ParametrizedLayering.NoTrainableOneEmptyLayer` | pennylane/tape/circuit_graph.py:67-74 | When no table index is trainable, the result is exactly one layer with empty `ops` and `param_inds`. |
| `ParametrizedLayering.LayerEntriesRecorded` | pennylane/tape/circuit_graph.py:73-89 | At every position of every layer, `param_inds[j]` is trainable, and `(param_inds[j], ops[j])` is an item of the parameter table. |
| `ParametrizedLayering.TrainableKeysMembers` | pennylane/tape/circuit_graph.py:73-74 | An index appears among the trainable keys exactly when it is trainable and is a key of the table, so untrainable indices never appear. |
| `ParametrizedLayering.LayeringIndicesDistinct` | pennylane/tape/circuit_graph.py:73-89 | If the table has no repeated index (it is a dictionary), no parameter index appears twice across the layers. |
| `ParametrizedLayering.LayeringLoopStep` | pennylane/tape/circuit_graph.py:77-89 | Handling one more trainable table entry the way the loop does it gives exactly the layering of the longer table prefix. The two steps are: open a fresh empty layer when the last layer holds an ancestor of the entry's operation, then append the operation and index to the last layer. |
| `ParametrizedLayering.LayeringLoopSkip` | pennylane/tape/circuit_graph.py:73-74 | A table entry whose index is not trainable leaves the layering of the prefix unchanged. |
| `ParametrizedLayering.LayeringGuarantees` | pennylane/tape/circuit_graph.py:58-91 | The layering has every property listed for `LayeringSound`. When the table has no repeated index, no index appears twice across the layers. |
| `TapeCircuit.TapeCircuitGraph.ParametrizedLayers` | pennylane/tape/circuit_graph.py:58-91 | The loop returns exactly `Layering` of the stored table, trainable set and graph, so it has every property of `LayeringSound`. Because the table is a dictionary (`Valid()`), no index appears twice across the layers. |

## Left out

- The density-matrix simulator exercised by tests/devices/test_default_mixed.py is not part of this model. Its implementation is not among the modelled files, and it is complex floating-point tensor arithmetic.
- Graph construction is done by the parent `CircuitGraph`, which is not part of this model. The constructor takes the graph's edges as a parameter instead. The `variable_deps` and `wires` handling of the parent is not modelled; the wires are only stored.
- networkx is replaced by its results only. `HasPath` returns the answer of `nx.has_path` but computes it by bounded recursion, not by a shortest-path search. The ancestor query is the set of other nodes with a walk to the operation.
- An operation that is not a node of the graph: networkx raises an error when asked for its ancestors. The model instead returns the nodes that have a walk to it, and no error.
- The `par_info=None` and `trainable_params=None` defaults. With `par_info=None`, `parametrized_layers` fails on `.items()`. With `trainable_params=None` and a non-empty table, it raises a `TypeError` at the membership test (pennylane/tape/circuit_graph.py:74). With `trainable_params=None` and an empty table, it returns one empty layer. The model always takes a table and a set, so these `None` cases are not modelled.
- `Layer`/`LayerData` internals other than the two lists `ops` and `param_inds`: they come from a module that is not part of this model.
- The aliasing between `current` and the last element of `layers` is modelled by value. The loop keeps the invariant that `current` equals the last layer, and the last layer is updated with it.
- The list `variable_ops_sorted` (pennylane/tape/circuit_graph.py:70-71) is never filled or read. Despite its comment, nothing is sorted: the layering follows the table's iteration order, as the model does.
- The "greedier" layering suggested in the FIXME comment (pennylane/tape/circuit_graph.py:65-66) is not modelled, because the code does not do it.
