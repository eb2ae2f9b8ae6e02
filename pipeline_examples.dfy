/**
  Concrete dependence graphs with the shapes the PDG tests expect, and the
  stages the analysis extracts from them. Line numbers are illustrative: node
  k of each graph lies on line k + 3.
*/
module PipelineExamples {
  import opened Pdg
  import opened PipelineSpec
  import opened PipelineStageModel

  const LabelA := DataDependence("<Primordial,I>", {"a"})
  const LabelB := DataDependence("<Primordial,I>", {"b"})
  const LabelParam := DataDependence("<Primordial,Ljava/util/List>", {"param"})
  const LabelObjectTemp := DataDependence("<Primordial,Ljava/lang/Object>", {})
  const LabelIntegerTemp := DataDependence("<Primordial,Ljava/lang/Integer>", {})

  /** a = f(x); b = g(a); c = h(b): a parameter node with no edges, then
      edges a -> b and b -> c with one label each. */
  function SequentialGraph(): Graph {
    Graph(
      [ PdgNode(false, {}, {"args"}, []),
        PdgNode(true, {4}, {"a"}, [10]),
        PdgNode(true, {5}, {"b"}, [11]),
        PdgNode(true, {6}, {"c"}, [12]) ],
      [[], [2], [3], []],
      [[], [], [1], [2]],
      map[(1, 2) := [LabelA], (2, 3) := [LabelB]])
  }

  /** A container parameter: param -> a, a self-loop on a carrying two
      internal temporaries, then a -> b and b -> c. */
  function ContainerGraph(): Graph {
    Graph(
      [ PdgNode(false, {}, {"param"}, []),
        PdgNode(true, {4}, {"a"}, [10, 11, 12]),
        PdgNode(true, {5}, {"b"}, [13]),
        PdgNode(true, {6}, {"c"}, [14]) ],
      [[1], [1, 2], [3], []],
      [[], [0, 1], [1], [2]],
      map[(0, 1) := [LabelParam], (1, 1) := [LabelObjectTemp, LabelIntegerTemp], (1, 2) := [LabelA], (2, 3) := [LabelB]])
  }

  lemma SequentialMirror(a: nat, b: nat)
    requires a < 4 && b < 4
    ensures b in SequentialGraph().succs[a] <==> a in SequentialGraph().preds[b]
  {
    var g := SequentialGraph();
    if a == 0 {
    } else if a == 1 {
    } else if a == 2 {
    } else {
    }
  }

  lemma SequentialGraphValid()
    ensures SequentialGraph().Valid()
  {
    var g := SequentialGraph();
    forall a: nat, b: nat | a < 4 && b < 4
      ensures b in g.succs[a] <==> a in g.preds[b]
    {
      SequentialMirror(a, b);
    }
  }

  lemma ContainerMirror(a: nat, b: nat)
    requires a < 4 && b < 4
    ensures b in ContainerGraph().succs[a] <==> a in ContainerGraph().preds[b]
  {
    var g := ContainerGraph();
    if a == 0 {
    } else if a == 1 {
    } else if a == 2 {
    } else {
    }
  }

  lemma ContainerGraphValid()
    ensures ContainerGraph().Valid()
  {
    var g := ContainerGraph();
    forall a: nat, b: nat | a < 4 && b < 4
      ensures b in g.succs[a] <==> a in g.preds[b]
    {
      ContainerMirror(a, b);
    }
  }

  /** Selecting the lines of b and c selects exactly those two nodes. */
  lemma SequentialSelection()
    ensures Selected(SequentialGraph(), [5, 6]) == [2, 3]
  {
    var g := SequentialGraph();
    assert [5, 6][..1] == [5];
    assert LineHits(g, 0, [5, 6]) == [];
    assert LineHits(g, 1, [5, 6]) == [];
    assert LineHits(g, 2, [5, 6]) == [2];
    assert LineHits(g, 3, [5, 6]) == [3];
    assert SelectedUpTo(g, [5, 6], 2) == [];
    assert SelectedUpTo(g, [5, 6], 3) == [2];
  }

  /** The shape of SequentialGraph that the stage lemmas below rely on. */
  lemma SequentialFacts()
    ensures SequentialGraph().Valid() && SequentialGraph().Size() == 4
    ensures SequentialGraph().preds[2] == [1] && SequentialGraph().preds[3] == [2]
    ensures SequentialGraph().succs[2] == [3] && SequentialGraph().succs[3] == []
    ensures SequentialGraph().EdgeLabels(1, 2) == [LabelA] && SequentialGraph().EdgeLabels(2, 3) == [LabelB]
    ensures SequentialGraph().nodes[2].defs == {"b"} && SequentialGraph().nodes[3].defs == {"c"}
  {
    SequentialGraphValid();
  }

  /** For that selection only a comes in ... */
  lemma SequentialInputs()
    ensures SequentialGraph().Valid()
    ensures Inputs(SequentialGraph(), [2, 3]) == [LabelA]
  {
    SequentialFacts();
    var g := SequentialGraph();
    InputsOverTwo(g, [2, 3], 2, 3);
    InputsFromOne(g, [2, 3], 2, 1);
    InputsFromOne(g, [2, 3], 3, 2);
  }

  /** ... and nothing goes out. */
  lemma SequentialOutputs()
    ensures SequentialGraph().Valid()
    ensures Outputs(SequentialGraph(), [2, 3]) == []
  {
    SequentialFacts();
    var g := SequentialGraph();
    OutputsOverTwo(g, [2, 3], 2, 3);
    OutputsFromOne(g, [2, 3], 2, 3);
    assert OutputsFrom(g, [2, 3], 3, []) == [];
  }

  /** For that selection a comes in, nothing goes out, and the names b and c
      are defined inside without being passed in. */
  lemma SequentialStage()
    ensures SequentialGraph().Valid()
    ensures Inputs(SequentialGraph(), [2, 3]) == [LabelA]
    ensures Outputs(SequentialGraph(), [2, 3]) == []
    ensures ClosureLocals(SequentialGraph(), [2, 3], [LabelA]) == {"b", "c"}
  {
    SequentialInputs();
    SequentialOutputs();
    SequentialLocals();
  }

  lemma SequentialLocals()
    ensures ClosureLocals(SequentialGraph(), [2, 3], [LabelA]) == {"b", "c"}
  {
    SequentialFacts();
    var g := SequentialGraph();
    assert [2, 3][..1] == [2];
    assert DefsOf(g, [2]) == {"b"};
    assert DefsOf(g, [2, 3]) == {"b", "c"};
    assert ParameterNames([LabelA]) == {"a"};
  }

  /** Selecting b's line selects b alone. */
  lemma SingleSelection()
    ensures Selected(SequentialGraph(), [5]) == [2]
  {
    var g := SequentialGraph();
    assert LineHits(g, 0, [5]) == [] && LineHits(g, 1, [5]) == [];
    assert LineHits(g, 2, [5]) == [2] && LineHits(g, 3, [5]) == [];
    assert SelectedUpTo(g, [5], 2) == [];
    assert SelectedUpTo(g, [5], 3) == [2];
  }

  lemma SingleInputs()
    ensures SequentialGraph().Valid()
    ensures Inputs(SequentialGraph(), [2]) == [LabelA]
  {
    SequentialFacts();
    var g := SequentialGraph();
    InputsOverOne(g, [2], 2);
    InputsFromOne(g, [2], 2, 1);
  }

  lemma SingleOutputs()
    ensures SequentialGraph().Valid()
    ensures Outputs(SequentialGraph(), [2]) == [LabelB]
  {
    SequentialFacts();
    var g := SequentialGraph();
    OutputsOverOne(g, [2], 2);
    OutputsFromOne(g, [2], 2, 3);
  }

  lemma SingleLocals()
    ensures ClosureLocals(SequentialGraph(), [2], [LabelA]) == {"b"}
  {
    SequentialFacts();
    var g := SequentialGraph();
    assert DefsOf(g, [2]) == {"b"};
    assert ParameterNames([LabelA]) == {"a"};
  }

  /** Selecting b alone: a comes in and b goes out, yet b is also a closure
      local, since only the names carried by inputs are subtracted. The
      returned value is declared as private stage state as well. */
  lemma OutputAlsoClosureLocal()
    ensures SequentialGraph().Valid()
    ensures Selected(SequentialGraph(), [5]) == [2]
    ensures Inputs(SequentialGraph(), [2]) == [LabelA]
    ensures Outputs(SequentialGraph(), [2]) == [LabelB]
    ensures ClosureLocals(SequentialGraph(), [2], [LabelA]) == {"b"}
    ensures "b" in LabelB.localVariableNames
  {
    SingleSelection();
    SingleInputs();
    SingleOutputs();
    SingleLocals();
  }

  /** Selecting only a's line selects a alone. */
  lemma ContainerSelection()
    ensures Selected(ContainerGraph(), [4]) == [1]
    ensures Selected(ContainerGraph(), [4, 4]) == [1, 1]
  {
    var g := ContainerGraph();
    assert [4, 4][..1] == [4];
    assert LineHits(g, 0, [4]) == [] && LineHits(g, 1, [4]) == [1];
    assert LineHits(g, 2, [4]) == [] && LineHits(g, 3, [4]) == [];
    assert LineHits(g, 0, [4, 4]) == [] && LineHits(g, 1, [4, 4]) == [1, 1];
    assert LineHits(g, 2, [4, 4]) == [] && LineHits(g, 3, [4, 4]) == [];
    assert SelectedUpTo(g, [4], 1) == [];
    assert SelectedUpTo(g, [4], 2) == [1];
    assert SelectedUpTo(g, [4], 3) == [1];
    assert SelectedUpTo(g, [4, 4], 1) == [];
    assert SelectedUpTo(g, [4, 4], 2) == [1, 1];
    assert SelectedUpTo(g, [4, 4], 3) == [1, 1];
  }

  /** The shape of ContainerGraph that the stage lemmas below rely on. */
  lemma ContainerFacts()
    ensures ContainerGraph().Valid() && ContainerGraph().Size() == 4
    ensures ContainerGraph().preds[1] == [0, 1] && ContainerGraph().succs[1] == [1, 2]
    ensures ContainerGraph().EdgeLabels(0, 1) == [LabelParam] && ContainerGraph().EdgeLabels(1, 2) == [LabelA]
  {
    ContainerGraphValid();
  }

  /** For that selection the self-loop on a stays internal: the parameter
      comes in and a goes out, and nothing else. */
  lemma ContainerStage()
    ensures ContainerGraph().Valid()
    ensures Inputs(ContainerGraph(), [1]) == [LabelParam]
    ensures Outputs(ContainerGraph(), [1]) == [LabelA]
  {
    ContainerFacts();
    var g := ContainerGraph();
    InputsOverOne(g, [1], 1);
    InputsFromTwo(g, [1], 1, 0, 1);
    InputsFromOne(g, [1], 1, 0);
    OutputsOverOne(g, [1], 1);
    OutputsFromTwo(g, [1], 1, 1, 2);
    OutputsFromOne(g, [1], 1, 1);
  }

  /** A line listed twice selects its node twice (ContainerSelection), and
      the node's input labels are then reported twice. */
  lemma RepeatedLineInputs()
    ensures ContainerGraph().Valid()
    ensures Inputs(ContainerGraph(), [1, 1]) == [LabelParam, LabelParam]
  {
    ContainerFacts();
    var g := ContainerGraph();
    InputsOverTwo(g, [1, 1], 1, 1);
    InputsFromTwo(g, [1, 1], 1, 0, 1);
    InputsFromOne(g, [1, 1], 1, 0);
  }

  /** ... and its output labels twice as well. */
  lemma RepeatedLineOutputs()
    ensures ContainerGraph().Valid()
    ensures Outputs(ContainerGraph(), [1, 1]) == [LabelA, LabelA]
  {
    ContainerFacts();
    var g := ContainerGraph();
    OutputsOverTwo(g, [1, 1], 1, 1);
    OutputsFromTwo(g, [1, 1], 1, 1, 2);
    OutputsFromOne(g, [1, 1], 1, 1);
  }

  /** Analysing the same stage twice appends the selection a second time. */
  method AnalyzeTwice(pdg: Graph, lines: seq<Line>) returns (first: seq<NodeId>, second: seq<NodeId>)
    requires pdg.Valid()
    ensures first == Selected(pdg, lines)
    ensures second == first + first
  {
    var stage := PipelineStage.MakePipelineStage(pdg, lines);
    first := stage.selectedStatements;
    stage.AnalyzeSelection();
    second := stage.selectedStatements;
  }

  // ---------------------------------------------------------------------------
  // Unfolding the scans over short lists

  lemma OutputsFromOne(g: Graph, selected: seq<NodeId>, a: NodeId, p: NodeId)
    ensures OutputsFrom(g, selected, a, [p]) == if p in selected then [] else g.EdgeLabels(a, p)
  {
    assert [p][..0] == [];
  }

  lemma OutputsFromTwo(g: Graph, selected: seq<NodeId>, a: NodeId, p: NodeId, q: NodeId)
    ensures OutputsFrom(g, selected, a, [p, q])
         == OutputsFrom(g, selected, a, [p]) + if q in selected then [] else g.EdgeLabels(a, q)
  {
    assert [p, q][..1] == [p];
  }

  lemma InputsFromOne(g: Graph, selected: seq<NodeId>, b: NodeId, p: NodeId)
    ensures InputsFrom(g, selected, b, [p]) == if p in selected then [] else g.EdgeLabels(p, b)
  {
    assert [p][..0] == [];
  }

  lemma InputsFromTwo(g: Graph, selected: seq<NodeId>, b: NodeId, p: NodeId, q: NodeId)
    ensures InputsFrom(g, selected, b, [p, q])
         == InputsFrom(g, selected, b, [p]) + if q in selected then [] else g.EdgeLabels(q, b)
  {
    assert [p, q][..1] == [p];
  }

  lemma OutputsOverOne(g: Graph, selected: seq<NodeId>, x: NodeId)
    requires g.Shaped() && x < g.Size()
    ensures AllNodes(g, [x])
    ensures OutputsOver(g, selected, [x]) == OutputsFrom(g, selected, x, g.succs[x])
  {
    assert [x][..0] == [];
  }

  lemma OutputsOverTwo(g: Graph, selected: seq<NodeId>, x: NodeId, y: NodeId)
    requires g.Shaped() && x < g.Size() && y < g.Size()
    ensures AllNodes(g, [x, y])
    ensures OutputsOver(g, selected, [x, y])
         == OutputsFrom(g, selected, x, g.succs[x]) + OutputsFrom(g, selected, y, g.succs[y])
  {
    OutputsOverOne(g, selected, x);
    assert [x, y][..1] == [x];
  }

  lemma InputsOverOne(g: Graph, selected: seq<NodeId>, x: NodeId)
    requires g.Shaped() && x < g.Size()
    ensures AllNodes(g, [x])
    ensures InputsOver(g, selected, [x]) == InputsFrom(g, selected, x, g.preds[x])
  {
    assert [x][..0] == [];
  }

  lemma InputsOverTwo(g: Graph, selected: seq<NodeId>, x: NodeId, y: NodeId)
    requires g.Shaped() && x < g.Size() && y < g.Size()
    ensures AllNodes(g, [x, y])
    ensures InputsOver(g, selected, [x, y])
         == InputsFrom(g, selected, x, g.preds[x]) + InputsFrom(g, selected, y, g.preds[y])
  {
    InputsOverOne(g, selected, x);
    assert [x, y][..1] == [x];
  }
}
