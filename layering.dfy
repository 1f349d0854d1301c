/** The parametrized-layer structure of a circuit: the trainable parameters, in
    parameter-table order, are cut into consecutive layers so that no operation
    in a layer depends on an operation placed before it in the same layer. */
module ParametrizedLayering {
  import opened Reachability

  /** One item of the parameter table: a parameter index and the operation that owns it. */
  datatype ParEntry = ParEntry(idx: int, op: Op)

  /** A layer: the operations placed in it and, position by position, the
      parameter indices they were placed for. */
  datatype Layer = Layer(ops: seq<Op>, paramInds: seq<int>)

  const EmptyLayer := Layer([], [])

  /** The parameter table has no index twice (it is a dictionary keyed by index). */
  predicate KeysDistinct(s: seq<ParEntry>)
  {
    forall i, j :: 0 <= i < j < |s| ==> s[i].idx != s[j].idx
  }

  /** No value occurs twice in `xs`. */
  predicate Distinct(xs: seq<int>)
  {
    forall i, j :: 0 <= i < j < |xs| ==> xs[i] != xs[j]
  }

  /** The indices of the table entries whose index is trainable, in table order. */
  function TrainableKeys(s: seq<ParEntry>, trainable: set<int>): seq<int>
  {
    if |s| == 0 then []
    else TrainableKeys(s[..|s| - 1], trainable)
         + (if s[|s| - 1].idx in trainable then [s[|s| - 1].idx] else [])
  }

  /** The operations of the table entries whose index is trainable, in table order. */
  function TrainableOps(s: seq<ParEntry>, trainable: set<int>): seq<Op>
  {
    if |s| == 0 then []
    else TrainableOps(s[..|s| - 1], trainable)
         + (if s[|s| - 1].idx in trainable then [s[|s| - 1].op] else [])
  }

  /** The parameter indices of all layers, concatenated in layer order. */
  function ConcatInds(layers: seq<Layer>): seq<int>
  {
    if |layers| == 0 then [] else ConcatInds(layers[..|layers| - 1]) + layers[|layers| - 1].paramInds
  }

  /** The operations of all layers, concatenated in layer order. */
  function ConcatOps(layers: seq<Layer>): seq<Op>
  {
    if |layers| == 0 then [] else ConcatOps(layers[..|layers| - 1]) + layers[|layers| - 1].ops
  }

  /** Some operation of `ops` is in `sub`: the intersection of the two sets is not empty. */
  function Conflict(ops: seq<Op>, sub: set<Op>): (r: bool)
    ensures r <==> exists j :: 0 <= j < |ops| && ops[j] in sub
  {
    ConflictWitness(ops, sub);
    (set o | o in ops) * sub != {}
  }

  lemma ConflictWitness(ops: seq<Op>, sub: set<Op>)
    ensures (set o | o in ops) * sub != {} <==> exists j :: 0 <= j < |ops| && ops[j] in sub
  {
    var common := (set o | o in ops) * sub;
    assert forall x :: x in common ==> exists j :: 0 <= j < |ops| && ops[j] in sub;
    if !(exists j :: 0 <= j < |ops| && ops[j] in sub) {
      assert forall x :: x !in common;
      assert common == {};
    } else {
      var j :| 0 <= j < |ops| && ops[j] in sub;
      assert ops[j] in common;
    }
  }

  /** Places the trainable entry `e`: it joins the last layer unless that layer
      already holds an ancestor of its operation, in which case a new layer is
      opened for it. Earlier layers are never looked at nor changed, and the
      layers, read in order, gain exactly `e` at their end. */
  function Place(layers: seq<Layer>, e: ParEntry, g: Digraph): (r: seq<Layer>)
    requires |layers| >= 1
    ensures |layers| <= |r| <= |layers| + 1
    ensures r[..|layers| - 1] == layers[..|layers| - 1]
    ensures |r| == |layers| + 1 <==> Conflict(layers[|layers| - 1].ops, Ancestors(g, e.op))
    ensures |r| == |layers| + 1 ==> r[..|layers|] == layers
    ensures ConcatInds(r) == ConcatInds(layers) + [e.idx]
    ensures ConcatOps(r) == ConcatOps(layers) + [e.op]
    ensures var last := r[|r| - 1];
            |last.ops| > 0 && last.ops[|last.ops| - 1] == e.op
            && |last.paramInds| > 0 && last.paramInds[|last.paramInds| - 1] == e.idx
  {
    var n := |layers|;
    var current := layers[n - 1];
    var front := layers[..n - 1];
    assert layers == front + [current];
    ConcatSnoc(front, current);
    if Conflict(current.ops, Ancestors(g, e.op)) then
      var single := Layer([e.op], [e.idx]);
      ConcatSnoc(layers, single);
      assert (layers + [single])[..n] == layers;
      layers + [single]
    else
      var joined := Layer(current.ops + [e.op], current.paramInds + [e.idx]);
      ConcatSnoc(front, joined);
      assert layers[n - 1 := joined] == front + [joined];
      layers[n - 1 := joined]
  }

  /** The layers built from the parameter table `s`, walked in order. */
  function Layering(s: seq<ParEntry>, trainable: set<int>, g: Digraph): (r: seq<Layer>)
    ensures 1 <= |r| <= 1 + |TrainableKeys(s, trainable)|
  {
    if |s| == 0 then [EmptyLayer]
    else
      var layers := Layering(s[..|s| - 1], trainable, g);
      var e := s[|s| - 1];
      if e.idx in trainable then Place(layers, e, g) else layers
  }

  // ---------------------------------------------------------------------------
  // What a layering is, independently of how it is built.

  ghost predicate WellFormed(layers: seq<Layer>)
  {
    forall i :: 0 <= i < |layers| ==> |layers[i].ops| == |layers[i].paramInds|
  }

  /** Read in order, the layers hold exactly the trainable entries of the table. */
  ghost predicate Covers(s: seq<ParEntry>, trainable: set<int>, layers: seq<Layer>)
  {
    ConcatInds(layers) == TrainableKeys(s, trainable) && ConcatOps(layers) == TrainableOps(s, trainable)
  }

  /** No operation of the layer is an ancestor of an operation placed after it. */
  ghost predicate IndependentLayer(g: Digraph, l: Layer)
  {
    forall j, k :: 0 <= j < k < |l.ops| ==> l.ops[j] !in Ancestors(g, l.ops[k])
  }

  /** `next` was rightly opened after `prev`: it is not empty and its first
      operation has an ancestor in `prev`. */
  ghost predicate Opens(g: Digraph, prev: Layer, next: Layer)
  {
    |next.ops| > 0 && Conflict(prev.ops, Ancestors(g, next.ops[0]))
  }

  /** The layer at position `i` was rightly opened after the one before it. */
  ghost predicate OpensAt(g: Digraph, layers: seq<Layer>, i: int)
    requires 0 < i < |layers|
  {
    Opens(g, layers[i - 1], layers[i])
  }

  ghost predicate IsLayering(s: seq<ParEntry>, trainable: set<int>, g: Digraph, layers: seq<Layer>)
  {
    && |layers| >= 1
    && WellFormed(layers)
    && Covers(s, trainable, layers)
    && (forall i :: 0 <= i < |layers| ==> IndependentLayer(g, layers[i]))
    && (forall i :: 0 < i < |layers| ==> OpensAt(g, layers, i))
  }

  // ---------------------------------------------------------------------------
  // Helper facts about the concatenations.

  lemma ConcatSnoc(layers: seq<Layer>, l: Layer)
    ensures ConcatInds(layers + [l]) == ConcatInds(layers) + l.paramInds
    ensures ConcatOps(layers + [l]) == ConcatOps(layers) + l.ops
  {
    assert (layers + [l])[..|layers|] == layers;
  }

  lemma {:induction false} ConcatOpsEmpty(layers: seq<Layer>)
    requires ConcatOps(layers) == []
    ensures forall i :: 0 <= i < |layers| ==> layers[i].ops == []
  {
    if |layers| > 0 {
      ConcatOpsEmpty(layers[..|layers| - 1]);
    }
  }

  lemma TrainableSnoc(s: seq<ParEntry>, e: ParEntry, trainable: set<int>)
    ensures TrainableKeys(s + [e], trainable)
            == TrainableKeys(s, trainable) + (if e.idx in trainable then [e.idx] else [])
    ensures TrainableOps(s + [e], trainable)
            == TrainableOps(s, trainable) + (if e.idx in trainable then [e.op] else [])
  {
    assert (s + [e])[..|s|] == s;
  }

  lemma {:induction false} TrainableLengths(s: seq<ParEntry>, trainable: set<int>)
    ensures |TrainableKeys(s, trainable)| == |TrainableOps(s, trainable)|
  {
    if |s| > 0 {
      TrainableLengths(s[..|s| - 1], trainable);
    }
  }

  /** The trainable keys are exactly the table's indices that are trainable. */
  lemma {:induction false} TrainableKeysMembers(s: seq<ParEntry>, trainable: set<int>, x: int)
    ensures x in TrainableKeys(s, trainable)
            <==> x in trainable && exists i :: 0 <= i < |s| && s[i].idx == x
  {
    if |s| > 0 {
      var s' := s[..|s| - 1];
      TrainableKeysMembers(s', trainable, x);
      if x in trainable && (exists i :: 0 <= i < |s| && s[i].idx == x) {
        var i :| 0 <= i < |s| && s[i].idx == x;
        if i < |s| - 1 {
          assert s'[i].idx == x;
        }
      }
    }
  }

  /** A table without repeated indices yields no repeated trainable key. */
  lemma {:induction false} TrainableKeysDistinct(s: seq<ParEntry>, trainable: set<int>)
    requires KeysDistinct(s)
    ensures Distinct(TrainableKeys(s, trainable))
  {
    if |s| > 0 {
      var s' := s[..|s| - 1];
      var e := s[|s| - 1];
      assert KeysDistinct(s');
      TrainableKeysDistinct(s', trainable);
      if e.idx in trainable {
        TrainableKeysMembers(s', trainable, e.idx);
        assert e.idx !in TrainableKeys(s', trainable);
      }
    }
  }

  /** There is no trainable key exactly when no table entry is trainable. */
  lemma {:induction false} NoTrainableKeys(s: seq<ParEntry>, trainable: set<int>)
    ensures TrainableKeys(s, trainable) == [] <==> forall i :: 0 <= i < |s| ==> s[i].idx !in trainable
  {
    if |s| > 0 {
      var s' := s[..|s| - 1];
      NoTrainableKeys(s', trainable);
      if forall i :: 0 <= i < |s| ==> s[i].idx !in trainable {
        assert forall i :: 0 <= i < |s'| ==> s'[i].idx !in trainable by {
          forall i | 0 <= i < |s'| ensures s'[i].idx !in trainable {
            assert s'[i] == s[i];
          }
        }
      }
    }
  }

  // ---------------------------------------------------------------------------
  // Layering builds a layering.

  lemma OpenKeepsLayering(s: seq<ParEntry>, trainable: set<int>, g: Digraph, layers: seq<Layer>, e: ParEntry)
    requires IsLayering(s, trainable, g, layers)
    requires e.idx in trainable
    requires Conflict(layers[|layers| - 1].ops, Ancestors(g, e.op))
    ensures IsLayering(s + [e], trainable, g, layers + [Layer([e.op], [e.idx])])
  {
    var l := Layer([e.op], [e.idx]);
    var r := layers + [l];
    ConcatSnoc(layers, l);
    TrainableSnoc(s, e, trainable);
    assert forall i :: 0 <= i < |layers| ==> r[i] == layers[i];
    assert IndependentLayer(g, l);
    forall i | 0 < i < |r|
      ensures OpensAt(g, r, i)
    {
      if i < |layers| {
        assert OpensAt(g, layers, i);
      }
    }
  }

  /** A prefix of an independent layer is independent. */
  lemma PrefixIndependent(g: Digraph, c: Layer, m: nat, inds: seq<int>)
    requires IndependentLayer(g, c) && m <= |c.ops|
    ensures IndependentLayer(g, Layer(c.ops[..m], inds))
  {
    var c' := Layer(c.ops[..m], inds);
    forall j, k | 0 <= j < k < |c'.ops|
      ensures c'.ops[j] !in Ancestors(g, c'.ops[k])
    {
      assert c'.ops[j] == c.ops[j] && c'.ops[k] == c.ops[k];
    }
  }

  /** Appending an operation none of whose ancestors is in an independent
      layer keeps it independent. */
  lemma JoinIndependent(g: Digraph, c: Layer, e: ParEntry)
    requires IndependentLayer(g, c) && !Conflict(c.ops, Ancestors(g, e.op))
    ensures IndependentLayer(g, Layer(c.ops + [e.op], c.paramInds + [e.idx]))
  {
    var c2 := Layer(c.ops + [e.op], c.paramInds + [e.idx]);
    forall j, k | 0 <= j < k < |c2.ops|
      ensures c2.ops[j] !in Ancestors(g, c2.ops[k])
    {
      if k < |c.ops| {
        assert c2.ops[j] == c.ops[j] && c2.ops[k] == c.ops[k];
      } else {
        assert c2.ops[j] == c.ops[j] && c2.ops[k] == e.op;
      }
    }
  }

  /** Replacing the last layer by an independent one that starts with the same
      operation keeps every layer independent and every later layer rightly opened. */
  lemma ReplaceLastLayer(g: Digraph, layers: seq<Layer>, c: Layer)
    requires |layers| >= 1
    requires forall i :: 0 <= i < |layers| ==> IndependentLayer(g, layers[i])
    requires forall i :: 0 < i < |layers| ==> OpensAt(g, layers, i)
    requires IndependentLayer(g, c)
    requires |layers| > 1 ==> |c.ops| > 0 && |layers[|layers| - 1].ops| > 0 && c.ops[0] == layers[|layers| - 1].ops[0]
    ensures var r := layers[|layers| - 1 := c];
            && (forall i :: 0 <= i < |r| ==> IndependentLayer(g, r[i]))
            && (forall i :: 0 < i < |r| ==> OpensAt(g, r, i))
  {
    var n := |layers|;
    var r := layers[n - 1 := c];
    forall i | 0 < i < n
      ensures OpensAt(g, r, i)
    {
      assert OpensAt(g, layers, i);
      assert r[i - 1] == layers[i - 1];
      if i == n - 1 {
        assert r[i].ops[0] == layers[i].ops[0];
      } else {
        assert r[i] == layers[i];
      }
    }
  }

  lemma JoinKeepsLayering(s: seq<ParEntry>, trainable: set<int>, g: Digraph, layers: seq<Layer>, e: ParEntry)
    requires IsLayering(s, trainable, g, layers)
    requires e.idx in trainable
    requires !Conflict(layers[|layers| - 1].ops, Ancestors(g, e.op))
    ensures var c := layers[|layers| - 1];
            IsLayering(s + [e], trainable, g, layers[|layers| - 1 := Layer(c.ops + [e.op], c.paramInds + [e.idx])])
  {
    var n := |layers|;
    var c := layers[n - 1];
    var c2 := Layer(c.ops + [e.op], c.paramInds + [e.idx]);
    var r := layers[n - 1 := c2];
    var front := layers[..n - 1];
    assert layers == front + [c];
    assert r == front + [c2];
    ConcatSnoc(front, c);
    ConcatSnoc(front, c2);
    TrainableSnoc(s, e, trainable);
    JoinIndependent(g, c, e);
    if n > 1 {
      assert OpensAt(g, layers, n - 1);
    }
    ReplaceLastLayer(g, layers, c2);
    assert |c2.ops| == |c2.paramInds| by { assert |c.ops| == |c.paramInds|; }
  }

  lemma {:induction false} LayeringSound(s: seq<ParEntry>, trainable: set<int>, g: Digraph)
    ensures IsLayering(s, trainable, g, Layering(s, trainable, g))
    decreases |s|
  {
    if |s| == 0 {
      assert ConcatInds([EmptyLayer]) == [] by { ConcatSnoc([], EmptyLayer); }
      assert ConcatOps([EmptyLayer]) == [] by { ConcatSnoc([], EmptyLayer); }
    } else {
      var s' := s[..|s| - 1];
      var e := s[|s| - 1];
      assert s == s' + [e];
      var layers := Layering(s', trainable, g);
      LayeringSound(s', trainable, g);
      TrainableSnoc(s', e, trainable);
      if e.idx in trainable {
        if Conflict(layers[|layers| - 1].ops, Ancestors(g, e.op)) {
          OpenKeepsLayering(s', trainable, g, layers, e);
        } else {
          JoinKeepsLayering(s', trainable, g, layers, e);
        }
      }
    }
  }

  // ---------------------------------------------------------------------------
  // Layering builds the only layering.

  /** With nothing trainable, the only layering is one empty layer. */
  lemma NothingTrainableLayering(s: seq<ParEntry>, trainable: set<int>, g: Digraph, layers: seq<Layer>)
    requires IsLayering(s, trainable, g, layers)
    requires TrainableKeys(s, trainable) == []
    ensures layers == [EmptyLayer]
  {
    TrainableLengths(s, trainable);
    ConcatOpsEmpty(layers);
    assert |layers| == 1 by {
      assert 1 < |layers| ==> OpensAt(g, layers, 1);
    }
    assert layers[0].paramInds == [];
  }

  /** Splits off the last element of a concatenation that ends in `x`. */
  lemma SplitLast<T>(a: seq<T>, b: seq<T>, c: seq<T>, x: T)
    requires |b| > 0 && a + b == c + [x]
    ensures b[|b| - 1] == x && a + b[..|b| - 1] == c
  {
    assert (a + b)[|a + b| - 1] == b[|b| - 1];
    assert a + b[..|b| - 1] == (a + b)[..|a + b| - 1];
  }

  lemma {:induction false} LayeringUnique(s: seq<ParEntry>, trainable: set<int>, g: Digraph, layers: seq<Layer>)
    requires IsLayering(s, trainable, g, layers)
    ensures layers == Layering(s, trainable, g)
    decreases |s|, 2
  {
    if TrainableKeys(s, trainable) == [] {
      NothingTrainableLayering(s, trainable, g, layers);
      LayeringSound(s, trainable, g);
      NothingTrainableLayering(s, trainable, g, Layering(s, trainable, g));
    } else {
      var s' := s[..|s| - 1];
      var e := s[|s| - 1];
      assert s == s' + [e];
      TrainableSnoc(s', e, trainable);
      if e.idx !in trainable {
        LayeringUnique(s', trainable, g, layers);
      } else {
        UniqueLastStep(s', trainable, g, layers, e);
      }
    }
  }

  /** When the concatenated layers end with `e`, a non-empty last layer ends
      with `e` and everything before that covers the rest. */
  lemma CoverSplitLast(front: seq<Layer>, c: Layer, keys: seq<int>, ops: seq<Op>, e: ParEntry)
    requires |c.ops| == |c.paramInds| > 0
    requires ConcatInds(front) + c.paramInds == keys + [e.idx]
    requires ConcatOps(front) + c.ops == ops + [e.op]
    ensures var m := |c.ops|;
            && c.ops[m - 1] == e.op && c.paramInds[m - 1] == e.idx
            && ConcatOps(front) + c.ops[..m - 1] == ops
            && ConcatInds(front) + c.paramInds[..m - 1] == keys
  {
    SplitLast(ConcatOps(front), c.ops, ops, e.op);
    SplitLast(ConcatInds(front), c.paramInds, keys, e.idx);
  }

  /** The last layer `c` of a layering of `s + [e]`, with `e` trainable, ends
      with `e`, and what comes before `e` covers `s`. */
  lemma LastLayerEndsWith(s: seq<ParEntry>, trainable: set<int>, g: Digraph, layers: seq<Layer>, e: ParEntry)
    requires IsLayering(s + [e], trainable, g, layers)
    requires e.idx in trainable
    ensures var n := |layers|;
            var c := layers[n - 1];
            var m := |c.ops|;
            && m > 0 && |c.paramInds| == m
            && c.ops[m - 1] == e.op && c.paramInds[m - 1] == e.idx
            && ConcatOps(layers[..n - 1]) + c.ops[..m - 1] == TrainableOps(s, trainable)
            && ConcatInds(layers[..n - 1]) + c.paramInds[..m - 1] == TrainableKeys(s, trainable)
  {
    var n := |layers|;
    assert |layers[n - 1].ops| == |layers[n - 1].paramInds|;
    if n > 1 {
      assert OpensAt(g, layers, n - 1);
    }
    LastLayerCovers(s, trainable, layers, e);
  }

  lemma LastLayerCovers(s: seq<ParEntry>, trainable: set<int>, layers: seq<Layer>, e: ParEntry)
    requires Covers(s + [e], trainable, layers) && e.idx in trainable
    requires |layers| >= 1 && |layers[|layers| - 1].ops| == |layers[|layers| - 1].paramInds|
    requires |layers| > 1 ==> |layers[|layers| - 1].ops| > 0
    ensures var n := |layers|;
            var c := layers[n - 1];
            var m := |c.ops|;
            && m > 0 && |c.paramInds| == m
            && c.ops[m - 1] == e.op && c.paramInds[m - 1] == e.idx
            && ConcatOps(layers[..n - 1]) + c.ops[..m - 1] == TrainableOps(s, trainable)
            && ConcatInds(layers[..n - 1]) + c.paramInds[..m - 1] == TrainableKeys(s, trainable)
  {
    TrainableSnoc(s, e, trainable);
    var n := |layers|;
    var c := layers[n - 1];
    var front := layers[..n - 1];
    assert layers == front + [c];
    ConcatSnoc(front, c);
    if n == 1 {
      assert front == [];
    }
    CoverSplitLast(front, c, TrainableKeys(s, trainable), TrainableOps(s, trainable), e);
  }

  /** Dropping a last layer that holds only `e` leaves a layering of `s`. */
  lemma DropLastLayer(s: seq<ParEntry>, trainable: set<int>, g: Digraph, layers: seq<Layer>, e: ParEntry)
    requires IsLayering(s + [e], trainable, g, layers)
    requires e.idx in trainable
    requires |layers| > 1 && |layers[|layers| - 1].ops| == 1
    ensures var front := layers[..|layers| - 1];
            && IsLayering(s, trainable, g, front)
            && layers == front + [Layer([e.op], [e.idx])]
            && Conflict(front[|front| - 1].ops, Ancestors(g, e.op))
  {
    LastLayerEndsWith(s, trainable, g, layers, e);
    var front := layers[..|layers| - 1];
    var c := layers[|layers| - 1];
    assert c.ops[..0] == [] && c.paramInds[..0] == [];
    assert c == Layer([e.op], [e.idx]);
    assert layers == front + [c];
    assert OpensAt(g, layers, |layers| - 1);
    assert front[|front| - 1] == layers[|layers| - 2];
    forall i | 0 < i < |front|
      ensures OpensAt(g, front, i)
    {
      assert OpensAt(g, layers, i);
    }
    forall i | 0 <= i < |front|
      ensures IndependentLayer(g, front[i])
    {
      assert IndependentLayer(g, layers[i]);
    }
  }

  /** Without its last operation, an independent layer holds no ancestor of it. */
  lemma TrimNoConflict(g: Digraph, c: Layer)
    requires IndependentLayer(g, c) && |c.ops| > 0
    ensures !Conflict(c.ops[..|c.ops| - 1], Ancestors(g, c.ops[|c.ops| - 1]))
  {
    var m := |c.ops|;
    var front := c.ops[..m - 1];
    forall j | 0 <= j < |front|
      ensures front[j] !in Ancestors(g, c.ops[m - 1])
    {
      assert front[j] == c.ops[j];
    }
  }

  /** Removing `e` from a last layer that holds more leaves a layering of `s`
      whose last layer has no ancestor of `e`'s operation. */
  lemma TrimLastLayer(s: seq<ParEntry>, trainable: set<int>, g: Digraph, layers: seq<Layer>, e: ParEntry)
    requires IsLayering(s + [e], trainable, g, layers)
    requires e.idx in trainable
    requires |layers[|layers| - 1].ops| > 1
    ensures var n := |layers|;
            var c := layers[n - 1];
            var m := |c.ops|;
            var c' := Layer(c.ops[..m - 1], c.paramInds[..m - 1]);
            IsLayering(s, trainable, g, layers[n - 1 := c'])
            && !Conflict(c'.ops, Ancestors(g, e.op))
  {
    var n := |layers|;
    var c := layers[n - 1];
    var m := |c.ops|;
    assert |c.ops| == |c.paramInds|;
    TrimCovers(s, trainable, layers, e);
    TrimChain(g, layers, c.paramInds[..m - 1]);
  }

  /** The table part of TrimLastLayer: the trimmed layers cover `s`. */
  lemma TrimCovers(s: seq<ParEntry>, trainable: set<int>, layers: seq<Layer>, e: ParEntry)
    requires Covers(s + [e], trainable, layers) && WellFormed(layers) && e.idx in trainable
    requires |layers| >= 1 && |layers[|layers| - 1].ops| > 1
    ensures var n := |layers|;
            var c := layers[n - 1];
            var m := |c.ops|;
            var r := layers[n - 1 := Layer(c.ops[..m - 1], c.paramInds[..m - 1])];
            && c.ops[m - 1] == e.op
            && WellFormed(r) && Covers(s, trainable, r)
  {
    var n := |layers|;
    var c := layers[n - 1];
    assert |c.ops| == |c.paramInds|;
    LastLayerCovers(s, trainable, layers, e);
    var m := |c.ops|;
    var c' := Layer(c.ops[..m - 1], c.paramInds[..m - 1]);
    var front := layers[..n - 1];
    var r := layers[n - 1 := c'];
    assert r == front + [c'];
    ConcatSnoc(front, c');
    forall i | 0 <= i < n
      ensures |r[i].ops| == |r[i].paramInds|
    {
      if i < n - 1 {
        assert r[i] == layers[i];
      }
    }
  }

  /** The graph part of TrimLastLayer: the trimmed layers stay independent and
      rightly opened, and the trimmed last layer holds no ancestor of the
      operation removed from it. */
  lemma TrimChain(g: Digraph, layers: seq<Layer>, inds: seq<int>)
    requires |layers| >= 1 && |layers[|layers| - 1].ops| > 1
    requires forall i :: 0 <= i < |layers| ==> IndependentLayer(g, layers[i])
    requires forall i :: 0 < i < |layers| ==> OpensAt(g, layers, i)
    ensures var n := |layers|;
            var c := layers[n - 1];
            var m := |c.ops|;
            var c' := Layer(c.ops[..m - 1], inds);
            var r := layers[n - 1 := c'];
            && (forall i :: 0 <= i < |r| ==> IndependentLayer(g, r[i]))
            && (forall i :: 0 < i < |r| ==> OpensAt(g, r, i))
            && !Conflict(c'.ops, Ancestors(g, c.ops[m - 1]))
  {
    var n := |layers|;
    var c := layers[n - 1];
    var m := |c.ops|;
    assert IndependentLayer(g, c);
    PrefixIndependent(g, c, m - 1, inds);
    TrimNoConflict(g, c);
    if n > 1 {
      assert OpensAt(g, layers, n - 1);
    }
    ReplaceLastLayer(g, layers, Layer(c.ops[..m - 1], inds));
  }

  /** Layering of a table extended by one entry. */
  lemma LayeringSnoc(s: seq<ParEntry>, e: ParEntry, trainable: set<int>, g: Digraph)
    ensures Layering(s + [e], trainable, g)
            == if e.idx in trainable then Place(Layering(s, trainable, g), e, g) else Layering(s, trainable, g)
  {
    assert (s + [e])[..|s|] == s;
  }

  /** One round of the loop over the table, as the loop does it: when the next
      entry is trainable, open an empty layer if the last layer holds an
      ancestor of its operation, then extend the last layer with it. */
  lemma LayeringLoopStep(s: seq<ParEntry>, i: nat, trainable: set<int>, g: Digraph, openNew: bool)
    requires i < |s| && s[i].idx in trainable
    requires var layers := Layering(s[..i], trainable, g);
             openNew == Conflict(layers[|layers| - 1].ops, Ancestors(g, s[i].op))
    ensures var layers := Layering(s[..i], trainable, g);
            var grown := if openNew then layers + [EmptyLayer] else layers;
            var cur := grown[|grown| - 1];
            Layering(s[..i + 1], trainable, g)
            == grown[|grown| - 1 := Layer(cur.ops + [s[i].op], cur.paramInds + [s[i].idx])]
  {
    assert s[..i + 1][..i] == s[..i];
    if openNew {
      assert EmptyLayer.ops + [s[i].op] == [s[i].op] && EmptyLayer.paramInds + [s[i].idx] == [s[i].idx];
    }
  }

  /** A table entry that is not trainable leaves the layering unchanged. */
  lemma LayeringLoopSkip(s: seq<ParEntry>, i: nat, trainable: set<int>, g: Digraph)
    requires i < |s| && s[i].idx !in trainable
    ensures Layering(s[..i + 1], trainable, g) == Layering(s[..i], trainable, g)
  {
    assert s[..i + 1][..i] == s[..i];
  }

  /** The inductive step of uniqueness when the last entry `e` is trainable. */
  lemma {:induction false} UniqueLastStep(s: seq<ParEntry>, trainable: set<int>, g: Digraph, layers: seq<Layer>, e: ParEntry)
    requires IsLayering(s + [e], trainable, g, layers)
    requires e.idx in trainable
    ensures layers == Layering(s + [e], trainable, g)
    decreases |s| + 1, 1
  {
    LastLayerEndsWith(s, trainable, g, layers, e);
    var n := |layers|;
    var m := |layers[n - 1].ops|;
    if m == 1 && n == 1 {
      UniqueOnlyEntry(s, trainable, g, layers, e);
    } else if m == 1 {
      UniqueOpened(s, trainable, g, layers, e);
    } else {
      UniqueJoined(s, trainable, g, layers, e);
    }
  }

  /** With no trainable entry, the single empty layer is a layering. */
  lemma EmptyOnlyLayering(s: seq<ParEntry>, trainable: set<int>, g: Digraph)
    requires TrainableKeys(s, trainable) == []
    ensures IsLayering(s, trainable, g, [EmptyLayer])
  {
    TrainableLengths(s, trainable);
    ConcatSnoc([], EmptyLayer);
  }

  /** Placing an entry into the single empty layer fills it with that entry. */
  lemma PlaceIntoEmpty(e: ParEntry, g: Digraph)
    ensures Place([EmptyLayer], e, g) == [Layer([e.op], [e.idx])]
  {
    assert !Conflict(EmptyLayer.ops, Ancestors(g, e.op));
    assert EmptyLayer.ops + [e.op] == [e.op] && EmptyLayer.paramInds + [e.idx] == [e.idx];
  }

  /** Place opens a layer for `e` when the last layer holds one of its ancestors. */
  lemma PlaceOpens(layers: seq<Layer>, e: ParEntry, g: Digraph)
    requires |layers| >= 1 && Conflict(layers[|layers| - 1].ops, Ancestors(g, e.op))
    ensures Place(layers, e, g) == layers + [Layer([e.op], [e.idx])]
  {
  }

  /** Place appends `e` to the last layer when that layer holds none of its ancestors. */
  lemma PlaceJoins(layers: seq<Layer>, e: ParEntry, g: Digraph)
    requires |layers| >= 1 && !Conflict(layers[|layers| - 1].ops, Ancestors(g, e.op))
    ensures var c := layers[|layers| - 1];
            Place(layers, e, g) == layers[|layers| - 1 := Layer(c.ops + [e.op], c.paramInds + [e.idx])]
  {
  }

  /** Uniqueness when `e` is the first trainable entry. */
  lemma {:induction false} UniqueOnlyEntry(s: seq<ParEntry>, trainable: set<int>, g: Digraph, layers: seq<Layer>, e: ParEntry)
    requires IsLayering(s + [e], trainable, g, layers)
    requires e.idx in trainable
    requires |layers| == 1 && |layers[0].ops| == 1
    ensures layers == Layering(s + [e], trainable, g)
    decreases |s| + 1, 0
  {
    LastLayerEndsWith(s, trainable, g, layers, e);
    assert layers[..0] == [];
    assert layers[0] == Layer([e.op], [e.idx]);
    EmptyOnlyLayering(s, trainable, g);
    LayeringUnique(s, trainable, g, [EmptyLayer]);
    LayeringSnoc(s, e, trainable, g);
    PlaceIntoEmpty(e, g);
  }

  /** Uniqueness when `e` alone makes up the last of several layers. */
  lemma {:induction false} UniqueOpened(s: seq<ParEntry>, trainable: set<int>, g: Digraph, layers: seq<Layer>, e: ParEntry)
    requires IsLayering(s + [e], trainable, g, layers)
    requires e.idx in trainable
    requires |layers| > 1 && |layers[|layers| - 1].ops| == 1
    ensures layers == Layering(s + [e], trainable, g)
    decreases |s| + 1, 0
  {
    var prev := layers[..|layers| - 1];
    DropLastLayer(s, trainable, g, layers, e);
    LayeringUnique(s, trainable, g, prev);
    LayeringSnoc(s, e, trainable, g);
    PlaceOpens(prev, e, g);
  }

  /** Uniqueness when `e` joined a last layer that already held other entries. */
  lemma {:induction false} UniqueJoined(s: seq<ParEntry>, trainable: set<int>, g: Digraph, layers: seq<Layer>, e: ParEntry)
    requires IsLayering(s + [e], trainable, g, layers)
    requires e.idx in trainable
    requires |layers[|layers| - 1].ops| > 1
    ensures layers == Layering(s + [e], trainable, g)
    decreases |s| + 1, 0
  {
    LastLayerEndsWith(s, trainable, g, layers, e);
    TrimLastLayer(s, trainable, g, layers, e);
    var n := |layers|;
    var c := layers[n - 1];
    var m := |c.ops|;
    var c' := Layer(c.ops[..m - 1], c.paramInds[..m - 1]);
    assert c == Layer(c'.ops + [e.op], c'.paramInds + [e.idx]);
    var prev := layers[n - 1 := c'];
    LayeringUnique(s, trainable, g, prev);
    LayeringSnoc(s, e, trainable, g);
    assert layers == prev[n - 1 := c];
  }

  /** A sequence of layers is a layering of the table exactly when it is the one
      built by walking the table. */
  lemma LayeringCharacterised(s: seq<ParEntry>, trainable: set<int>, g: Digraph, layers: seq<Layer>)
    ensures IsLayering(s, trainable, g, layers) <==> layers == Layering(s, trainable, g)
  {
    if IsLayering(s, trainable, g, layers) {
      LayeringUnique(s, trainable, g, layers);
    }
    if layers == Layering(s, trainable, g) {
      LayeringSound(s, trainable, g);
    }
  }

  // ---------------------------------------------------------------------------
  // Consequences for the layers that are built.

  /** When no parameter is trainable, the result is exactly one empty layer. */
  lemma NoTrainableOneEmptyLayer(s: seq<ParEntry>, trainable: set<int>, g: Digraph)
    requires forall i :: 0 <= i < |s| ==> s[i].idx !in trainable
    ensures Layering(s, trainable, g) == [Layer([], [])]
  {
    NoTrainableKeys(s, trainable);
    LayeringSound(s, trainable, g);
    NothingTrainableLayering(s, trainable, g, Layering(s, trainable, g));
  }

  /** Each position of `l` pairs a trainable index with the operation the
      table `s` records for it. */
  ghost predicate LayerRecorded(s: seq<ParEntry>, trainable: set<int>, l: Layer)
  {
    |l.ops| == |l.paramInds|
    && forall j :: 0 <= j < |l.ops| ==> l.paramInds[j] in trainable && ParEntry(l.paramInds[j], l.ops[j]) in s
  }

  ghost predicate AllRecorded(s: seq<ParEntry>, trainable: set<int>, layers: seq<Layer>)
  {
    forall i :: 0 <= i < |layers| ==> LayerRecorded(s, trainable, layers[i])
  }

  lemma RecordedGrow(s: seq<ParEntry>, e: ParEntry, trainable: set<int>, l: Layer)
    requires LayerRecorded(s, trainable, l) && e.idx in trainable
    ensures LayerRecorded(s + [e], trainable, l)
    ensures LayerRecorded(s + [e], trainable, Layer(l.ops + [e.op], l.paramInds + [e.idx]))
  {
    var l2 := Layer(l.ops + [e.op], l.paramInds + [e.idx]);
    forall j | 0 <= j < |l2.ops|
      ensures l2.paramInds[j] in trainable && ParEntry(l2.paramInds[j], l2.ops[j]) in s + [e]
    {
      if j < |l.ops| {
        assert l2.ops[j] == l.ops[j] && l2.paramInds[j] == l.paramInds[j];
        assert ParEntry(l.paramInds[j], l.ops[j]) in s;
      }
    }
    forall j | 0 <= j < |l.ops|
      ensures ParEntry(l.paramInds[j], l.ops[j]) in s + [e]
    {
      assert ParEntry(l.paramInds[j], l.ops[j]) in s;
    }
  }

  /** One more table entry keeps every layer recorded. */
  lemma RecordedStep(s: seq<ParEntry>, e: ParEntry, trainable: set<int>, g: Digraph, prev: seq<Layer>)
    requires |prev| >= 1
    requires AllRecorded(s, trainable, prev)
    ensures AllRecorded(s + [e], trainable, if e.idx in trainable then Place(prev, e, g) else prev)
  {
    if e.idx in trainable {
      var cur := prev[|prev| - 1];
      var next := Place(prev, e, g);
      forall i | 0 <= i < |prev|
        ensures LayerRecorded(s + [e], trainable, prev[i])
      {
        RecordedGrow(s, e, trainable, prev[i]);
      }
      if Conflict(cur.ops, Ancestors(g, e.op)) {
        assert next == prev + [Layer([e.op], [e.idx])];
        RecordedGrow(s, e, trainable, EmptyLayer);
        assert Layer(EmptyLayer.ops + [e.op], EmptyLayer.paramInds + [e.idx]) == Layer([e.op], [e.idx]);
        assert forall i :: 0 <= i < |prev| ==> next[i] == prev[i];
      } else {
        assert next == prev[|prev| - 1 := Layer(cur.ops + [e.op], cur.paramInds + [e.idx])];
        RecordedGrow(s, e, trainable, cur);
        assert forall i :: 0 <= i < |prev| - 1 ==> next[i] == prev[i];
      }
    } else {
      forall i | 0 <= i < |prev|
        ensures LayerRecorded(s + [e], trainable, prev[i])
      {
        forall j | 0 <= j < |prev[i].ops|
          ensures ParEntry(prev[i].paramInds[j], prev[i].ops[j]) in s + [e]
        {
          assert ParEntry(prev[i].paramInds[j], prev[i].ops[j]) in s;
        }
      }
    }
  }

  lemma {:induction false} LayersRecorded(s: seq<ParEntry>, trainable: set<int>, g: Digraph)
    ensures AllRecorded(s, trainable, Layering(s, trainable, g))
  {
    if |s| == 0 {
      assert LayerRecorded(s, trainable, EmptyLayer);
    } else {
      var s' := s[..|s| - 1];
      var e := s[|s| - 1];
      assert s == s' + [e];
      LayersRecorded(s', trainable, g);
      RecordedStep(s', e, trainable, g, Layering(s', trainable, g));
      LayeringSnoc(s', e, trainable, g);
    }
  }

  /** Every position of every layer pairs a trainable index with the operation
      the table records for that index. */
  lemma LayerEntriesRecorded(s: seq<ParEntry>, trainable: set<int>, g: Digraph)
    ensures var layers := Layering(s, trainable, g);
            forall i, j :: 0 <= i < |layers| && 0 <= j < |layers[i].ops| ==>
              j < |layers[i].paramInds| && layers[i].paramInds[j] in trainable
              && ParEntry(layers[i].paramInds[j], layers[i].ops[j]) in s
  {
    LayersRecorded(s, trainable, g);
  }

  /** What the loop over the table promises about its result. */
  lemma LayeringGuarantees(s: seq<ParEntry>, trainable: set<int>, g: Digraph)
    ensures IsLayering(s, trainable, g, Layering(s, trainable, g))
    ensures KeysDistinct(s) ==> Distinct(ConcatInds(Layering(s, trainable, g)))
  {
    LayeringSound(s, trainable, g);
    if KeysDistinct(s) {
      LayeringIndicesDistinct(s, trainable, g);
    }
  }

  /** A table without repeated indices yields layers without repeated indices. */
  lemma LayeringIndicesDistinct(s: seq<ParEntry>, trainable: set<int>, g: Digraph)
    requires KeysDistinct(s)
    ensures Distinct(ConcatInds(Layering(s, trainable, g)))
  {
    LayeringSound(s, trainable, g);
    TrainableKeysDistinct(s, trainable);
  }
}
