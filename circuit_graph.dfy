/** The circuit graph built from a quantum tape: it keeps the tape's operations,
    observables and parameter table, answers path queries over the circuit DAG
    and works out the parametrized layer structure of the circuit. */
module TapeCircuit {
  import opened Reachability
  import opened ParametrizedLayering

  /** Outcome of a graph query that names nodes: `NodeNotFound` when a node
      named by the query is not in the graph. */
  datatype Result<T> = Ok(value: T) | NodeNotFound

  class TapeCircuitGraph {
    const operations: seq<Op>
    const observables: seq<Op>
    const wires: seq<int>
    /** The parameter table, in its iteration order. */
    const parInfo: seq<ParEntry>
    const trainableParams: set<int>
    /** The circuit DAG over the operations followed by the observables. */
    const graph: Digraph

    /** The parameter table is a dictionary, so no index occurs in it twice,
        and every edge of the graph joins two of its nodes. */
    predicate Valid()
    {
      && KeysDistinct(parInfo)
      && forall e | e in graph.edges :: e.0 in graph.nodes && e.1 in graph.nodes
    }

    /** `edges` stands for the wire-order dependencies that the graph
        construction derives from the queue `ops + obs`. */
    constructor (ops: seq<Op>, obs: seq<Op>, wires: seq<int>, parInfo: seq<ParEntry>,
                 trainableParams: set<int>, edges: set<(Op, Op)>)
      requires KeysDistinct(parInfo)
      requires forall e | e in edges :: e.0 in ops + obs && e.1 in ops + obs
      ensures Valid()
      ensures operations == ops && observables == obs && this.wires == wires
      ensures this.parInfo == parInfo && this.trainableParams == trainableParams
      ensures graph.nodes == ops + obs && graph.edges == edges
    {
      operations := ops;
      observables := obs;
      this.wires := wires;
      this.parInfo := parInfo;
      this.trainableParams := trainableParams;
      graph := Digraph(ops + obs, edges);
    }

    /** Whether a directed path leads from node `a` to node `b`; a node always
        reaches itself. Fails when either node is not in the graph. */
    function HasPath(a: Op, b: Op): (r: Result<bool>)
      ensures r == NodeNotFound <==> a !in graph.nodes || b !in graph.nodes
      ensures r == Ok(true) <==> a in graph.nodes && b in graph.nodes && WalkBetween(graph.edges, a, b)
    {
      if a !in graph.nodes || b !in graph.nodes then NodeNotFound
      else
        ReachesIffWalk(graph.edges, a, b);
        Ok(Reaches(graph.edges, a, b))
    }

    /** The parametrized layers: the trainable entries of the parameter table,
        in table order, each either joining the current (last) layer or, when
        that layer already holds one of its operation's ancestors, opening a
        new layer. */
    method ParametrizedLayers() returns (layers: seq<Layer>)
      requires Valid()
      ensures layers == Layering(parInfo, trainableParams, graph)
      ensures IsLayering(parInfo, trainableParams, graph, layers)
      ensures Distinct(ConcatInds(layers))
    {
      var current := Layer([], []);
      layers := [current];
      var i := 0;
      while i < |parInfo|
        invariant 0 <= i <= |parInfo|
        invariant layers == Layering(parInfo[..i], trainableParams, graph)
        invariant current == layers[|layers| - 1]
      {
        var e := parInfo[i];
        if e.idx in trainableParams {
          var sub := Ancestors(graph, e.op);
          var openNew := Conflict(current.ops, sub);
          if openNew {
            current := Layer([], []);
            layers := layers + [current];
          }
          current := Layer(current.ops + [e.op], current.paramInds + [e.idx]);
          layers := layers[|layers| - 1 := current];
          LayeringLoopStep(parInfo, i, trainableParams, graph, openNew);
        } else {
          LayeringLoopSkip(parInfo, i, trainableParams, graph);
        }
        i := i + 1;
      }
      assert parInfo[..i] == parInfo;
      LayeringGuarantees(parInfo, trainableParams, graph);
    }
  }
}
