/**
  The transfer function of the shape analysis for the instruction `x := nil`:
  x stops pointing anywhere, so its variable edges go and x is removed from
  the name of every node.
*/
module AssignNil {
  import opened Shape

  type Selector = string

  /** Variable v points to node n. */
  datatype VariableEdge = VariableEdge(v: PointerVariable, n: ShapeNode)

  /** Field sel of node s points to node t. */
  datatype SelectorEdge = SelectorEdge(s: ShapeNode, sel: Selector, t: ShapeNode)

  /** The value of a static shape graph. */
  datatype ShapeGraph = ShapeGraph(
    variableEdges: set<VariableEdge>,
    selectorEdges: set<SelectorEdge>,
    isShared: map<ShapeNode, bool>)

  /** What an evaluation step reports to the fixed-point solver. */
  datatype Status = Changed | NotChanged

  /** A static shape graph as a mutable object. */
  class StaticShapeGraph {
    var variableEdges: set<VariableEdge>
    var selectorEdges: set<SelectorEdge>
    var isShared: map<ShapeNode, bool>

    function Value(): ShapeGraph
      reads this
    {
      ShapeGraph(variableEdges, selectorEdges, isShared)
    }

    constructor ()
      ensures Value() == ShapeGraph({}, {}, map[])
    {
      variableEdges := {};
      selectorEdges := {};
      isShared := map[];
    }

    method AddVariableEdge(e: VariableEdge)
      modifies this
      ensures Value() == old(Value()).(variableEdges := old(variableEdges) + {e})
    {
      variableEdges := variableEdges + {e};
    }

    method AddSelectorEdge(e: SelectorEdge)
      modifies this
      ensures Value() == old(Value()).(selectorEdges := old(selectorEdges) + {e})
    {
      selectorEdges := selectorEdges + {e};
    }

    /** Records whether node n is shared, replacing any earlier entry for n. */
    method PutIsShared(n: ShapeNode, shared: bool)
      modifies this
      ensures Value() == old(Value()).(isShared := old(isShared)[n := shared])
    {
      isShared := isShared[n := shared];
    }

    predicate SameValue(other: StaticShapeGraph)
      reads this, other
    {
      Value() == other.Value()
    }

    method CopyState(other: StaticShapeGraph)
      modifies this
      ensures Value() == old(other.Value())
    {
      variableEdges, selectorEdges, isShared := other.variableEdges, other.selectorEdges, other.isShared;
    }
  }

  /** The variable edges after `lhs := nil`: those of lhs are gone, and lhs is
      removed from the name of every remaining target. */
  function NilVariableEdges(lhs: PointerVariable, edges: set<VariableEdge>): set<VariableEdge> {
    set e | e in edges && e.v != lhs :: VariableEdge(e.v, e.n.RemoveName(lhs))
  }

  /** The selector edges after `lhs := nil`: all kept, lhs removed from both ends. */
  function NilSelectorEdges(lhs: PointerVariable, edges: set<SelectorEdge>): set<SelectorEdge> {
    set e | e in edges :: SelectorEdge(e.s.RemoveName(lhs), e.sel, e.t.RemoveName(lhs))
  }

  /** One more input edge adds at most its own image. */
  lemma NilVariableEdgesStep(lhs: PointerVariable, done: set<VariableEdge>, e: VariableEdge)
    ensures NilVariableEdges(lhs, done + {e})
         == NilVariableEdges(lhs, done) + if e.v != lhs then {VariableEdge(e.v, e.n.RemoveName(lhs))} else {}
  {
  }

  /** One more input edge adds exactly its own image. */
  lemma NilSelectorEdgesStep(lhs: PointerVariable, done: set<SelectorEdge>, e: SelectorEdge)
    ensures NilSelectorEdges(lhs, done + {e})
         == NilSelectorEdges(lhs, done) + {SelectorEdge(e.s.RemoveName(lhs), e.sel, e.t.RemoveName(lhs))}
  {
  }

  /** One more key copies one more entry of the sharing map. */
  lemma SharedStep(m: map<ShapeNode, bool>, done: set<ShapeNode>, s: ShapeNode)
    requires done <= m.Keys && s in m
    ensures (map k | k in done + {s} :: m[k]) == (map k | k in done :: m[k])[s := m[s]]
  {
  }

  /** The graph the transfer function computes from its input. */
  function AssignNilGraph(lhs: PointerVariable, g: ShapeGraph): ShapeGraph {
    ShapeGraph(NilVariableEdges(lhs, g.variableEdges), NilSelectorEdges(lhs, g.selectorEdges), g.isShared)
  }

  /** One evaluation: the new output and the reported status, from the
      previous output and the input. */
  function Step(lhs: PointerVariable, prior: ShapeGraph, input: ShapeGraph): (ShapeGraph, Status) {
    var next := AssignNilGraph(lhs, input);
    if prior != next then (next, Changed) else (prior, NotChanged)
  }

  /** The argument of the operator's equals. */
  datatype OperatorObject = NullOperator | AssignNilOperator(op: SSGAssignNil) | OtherOperator(className: string)

  /** The instruction `lhs := nil`. */
  datatype AssignNilInstruction = AssignNilInstruction(lhs: PointerVariable)
  {
    function GetTransferFunction(): SSGAssignNil {
      SSGAssignNil(lhs)
    }
  }

  /** The transfer function of `lhs := nil`, as an operator of the solver. */
  datatype SSGAssignNil = SSGAssignNil(lhs: PointerVariable)
  {
    /** Rebuilds the shape graph from input into a fresh graph, then copies it
        into output and reports Changed unless output already held that value. */
    method Evaluate(output: StaticShapeGraph, input: StaticShapeGraph) returns (status: Status)
      modifies output
      ensures (output.Value(), status) == Step(lhs, old(output.Value()), old(input.Value()))
      ensures status == NotChanged ==> output.Value() == old(output.Value())
    {
      var next := new StaticShapeGraph();
      ghost var source := input.Value();

      // Variable edges
      var pendingVariables := input.variableEdges;
      ghost var doneVariables: set<VariableEdge> := {};
      while pendingVariables != {}
        invariant pendingVariables + doneVariables == source.variableEdges
        invariant pendingVariables !! doneVariables
        invariant next.variableEdges == NilVariableEdges(lhs, doneVariables)
        invariant next.selectorEdges == {} && next.isShared == map[]
        modifies next
        decreases pendingVariables
      {
        var ve :| ve in pendingVariables;
        NilVariableEdgesStep(lhs, doneVariables, ve);
        if ve.v != lhs {
          var newName := ve.n.RemoveName(lhs);
          next.AddVariableEdge(VariableEdge(ve.v, newName));
        }
        pendingVariables := pendingVariables - {ve};
        doneVariables := doneVariables + {ve};
      }

      // Selector edges
      var pendingSelectors := input.selectorEdges;
      ghost var doneSelectors: set<SelectorEdge> := {};
      while pendingSelectors != {}
        invariant pendingSelectors + doneSelectors == source.selectorEdges
        invariant pendingSelectors !! doneSelectors
        invariant next.variableEdges == NilVariableEdges(lhs, source.variableEdges)
        invariant next.selectorEdges == NilSelectorEdges(lhs, doneSelectors)
        invariant next.isShared == map[]
        modifies next
        decreases pendingSelectors
      {
        var se :| se in pendingSelectors;
        NilSelectorEdgesStep(lhs, doneSelectors, se);
        var newFrom := se.s.RemoveName(lhs);
        var newTo := se.t.RemoveName(lhs);
        next.AddSelectorEdge(SelectorEdge(newFrom, se.sel, newTo));
        pendingSelectors := pendingSelectors - {se};
        doneSelectors := doneSelectors + {se};
      }

      // isShared, copied entry by entry under a copy of each key
      var pendingShared := input.isShared.Keys;
      ghost var doneShared: set<ShapeNode> := {};
      while pendingShared != {}
        invariant pendingShared + doneShared == source.isShared.Keys
        invariant pendingShared !! doneShared
        invariant next.variableEdges == NilVariableEdges(lhs, source.variableEdges)
        invariant next.selectorEdges == NilSelectorEdges(lhs, source.selectorEdges)
        invariant next.isShared == map s | s in doneShared :: source.isShared[s]
        modifies next
        decreases pendingShared
      {
        var s :| s in pendingShared;
        var key := Copy(s);
        assert key == s;
        SharedStep(source.isShared, doneShared, s);
        next.PutIsShared(key, input.isShared[s]);
        pendingShared := pendingShared - {s};
        doneShared := doneShared + {s};
      }
      assert next.isShared == source.isShared;

      if !output.SameValue(next) {
        output.CopyState(next);
        status := Changed;
      } else {
        status := NotChanged;
      }
    }

    /** Every SSGAssignNil equals every other, whatever the variables. */
    predicate Equals(o: OperatorObject) {
      o.AssignNilOperator?
    }

    /** The hash of the operator's class name, given the string hash. */
    function HashCode(stringHash: string -> int): int {
      stringHash("SSGAssignNil")
    }
  }

  // ---------------------------------------------------------------------------
  // Properties of the transfer function

  /** After `lhs := nil`, lhs has no variable edge and names no node at
      either end of an edge. */
  lemma LhsUnbound(lhs: PointerVariable, g: ShapeGraph)
    ensures forall e :: e in AssignNilGraph(lhs, g).variableEdges ==> e.v != lhs && lhs !in e.n.name
    ensures forall e :: e in AssignNilGraph(lhs, g).selectorEdges ==> lhs !in e.s.name && lhs !in e.t.name
  {
  }

  /** (v, n) is a variable edge of the result exactly when v is not lhs and
      the input has an edge (v, m) with n the name of m less lhs. */
  lemma VariableEdgesCarried(lhs: PointerVariable, g: ShapeGraph, v: PointerVariable, n: ShapeNode)
    ensures VariableEdge(v, n) in AssignNilGraph(lhs, g).variableEdges <==>
      v != lhs && exists m :: VariableEdge(v, m) in g.variableEdges && n == m.RemoveName(lhs)
  {
    if v != lhs && exists m :: VariableEdge(v, m) in g.variableEdges && n == m.RemoveName(lhs) {
      var m :| VariableEdge(v, m) in g.variableEdges && n == m.RemoveName(lhs);
      assert VariableEdge(v, m).v != lhs;
    }
  }

  /** Every selector edge of the input reappears with lhs removed from both
      ends, and the result has no other selector edge. */
  lemma SelectorEdgesCarried(lhs: PointerVariable, g: ShapeGraph, e: SelectorEdge)
    ensures e in g.selectorEdges ==>
      SelectorEdge(e.s.RemoveName(lhs), e.sel, e.t.RemoveName(lhs)) in AssignNilGraph(lhs, g).selectorEdges
    ensures e in AssignNilGraph(lhs, g).selectorEdges <==>
      exists f :: f in g.selectorEdges && e == SelectorEdge(f.s.RemoveName(lhs), f.sel, f.t.RemoveName(lhs))
  {
  }

  /** The sharing map is carried over unchanged. */
  lemma IsSharedCarried(lhs: PointerVariable, g: ShapeGraph)
    ensures AssignNilGraph(lhs, g).isShared == g.isShared
  {
  }

  /** Assigning nil to the same variable twice is the same as once. */
  lemma AssignNilIdempotent(lhs: PointerVariable, g: ShapeGraph)
    ensures AssignNilGraph(lhs, AssignNilGraph(lhs, g)) == AssignNilGraph(lhs, g)
  {
    var once := AssignNilGraph(lhs, g);
    var twice := AssignNilGraph(lhs, once);
    forall e | e in once.variableEdges
      ensures e in twice.variableEdges
    {
      var f :| f in g.variableEdges && f.v != lhs && e == VariableEdge(f.v, f.n.RemoveName(lhs));
      assert e.n.RemoveName(lhs) == e.n;
    }
    forall e | e in once.selectorEdges
      ensures e in twice.selectorEdges
    {
      var f :| f in g.selectorEdges && e == SelectorEdge(f.s.RemoveName(lhs), f.sel, f.t.RemoveName(lhs));
      assert e.s.RemoveName(lhs) == e.s && e.t.RemoveName(lhs) == e.t;
    }
    forall e | e in twice.variableEdges
      ensures e in once.variableEdges
    {
      var f :| f in once.variableEdges && f.v != lhs && e == VariableEdge(f.v, f.n.RemoveName(lhs));
      assert f.n.RemoveName(lhs) == f.n;
    }
    forall e | e in twice.selectorEdges
      ensures e in once.selectorEdges
    {
      var f :| f in once.selectorEdges && e == SelectorEdge(f.s.RemoveName(lhs), f.sel, f.t.RemoveName(lhs));
      assert f.s.RemoveName(lhs) == f.s && f.t.RemoveName(lhs) == f.t;
    }
    assert twice.variableEdges == once.variableEdges;
    assert twice.selectorEdges == once.selectorEdges;
  }

  /** The computed graph depends on the input alone; the previous output
      only decides the status. */
  lemma ResultIgnoresPrior(lhs: PointerVariable, prior1: ShapeGraph, prior2: ShapeGraph, input: ShapeGraph)
    ensures Step(lhs, prior1, input).0 == Step(lhs, prior2, input).0 == AssignNilGraph(lhs, input)
  {
  }

  /** Changed is reported exactly when the previous output differed from the
      new one; NotChanged leaves the output as it was. */
  lemma StatusReportsChange(lhs: PointerVariable, prior: ShapeGraph, input: ShapeGraph)
    ensures Step(lhs, prior, input).1 == Changed <==> prior != AssignNilGraph(lhs, input)
    ensures Step(lhs, prior, input).1 == NotChanged ==> Step(lhs, prior, input).0 == prior
  {
  }

  /** Evaluating again with the same input right after a step reports NotChanged. */
  lemma ReevaluationStable(lhs: PointerVariable, prior: ShapeGraph, input: ShapeGraph)
    ensures Step(lhs, Step(lhs, prior, input).0, input) == (Step(lhs, prior, input).0, NotChanged)
  {
  }

  /** Any two assign-nil operators are equal and hash alike, whatever their
      variables, and no operator equals null or another kind of operator. */
  lemma OperatorsAllEqual(a: SSGAssignNil, b: SSGAssignNil, stringHash: string -> int, name: string)
    ensures a.Equals(AssignNilOperator(b)) && b.Equals(AssignNilOperator(a))
    ensures a.HashCode(stringHash) == b.HashCode(stringHash)
    ensures !a.Equals(NullOperator) && !a.Equals(OtherOperator(name))
  {
  }

  /** Equality of operators ignores the variable, so two equal operators can
      compute different graphs from the same input. */
  lemma EqualOperatorsMayDiffer()
    ensures SSGAssignNil("x").Equals(AssignNilOperator(SSGAssignNil("y")))
    ensures AssignNilGraph("x", ShapeGraph({VariableEdge("x", NamedBy("x"))}, {}, map[]))
         != AssignNilGraph("y", ShapeGraph({VariableEdge("x", NamedBy("x"))}, {}, map[]))
  {
    var g := ShapeGraph({VariableEdge("x", NamedBy("x"))}, {}, map[]);
    assert VariableEdge("x", NamedBy("x")) in AssignNilGraph("y", g).variableEdges by {
      assert NamedBy("x").RemoveName("y") == NamedBy("x");
    }
    LhsUnbound("x", g);
  }

  /** A solver that evaluates the same operator twice over unchanged input
      sees NotChanged the second time, also when output and input are the
      same graph object. */
  method EvaluateTwice(op: SSGAssignNil, output: StaticShapeGraph, input: StaticShapeGraph)
    returns (first: Status, second: Status)
    modifies output
    ensures second == NotChanged
    ensures output.Value() == AssignNilGraph(op.lhs, old(input.Value()))
  {
    ghost var g := input.Value();
    first := op.Evaluate(output, input);
    AssignNilIdempotent(op.lhs, g);
    second := op.Evaluate(output, input);
  }
}
