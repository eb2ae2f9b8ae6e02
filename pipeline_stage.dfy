/**
  One stage of a prospective pipeline: the statements selected in the editor,
  the data dependences that cross into and out of them, the names private to
  the stage, and the heap locations the stage reads and writes. Each loop
  method is proved to compute the matching function of module PipelineSpec.
*/
module PipelineStageModel {
  import opened Pdg
  import opened PipelineSpec

  class PipelineStage {
    const pdg: Graph
    /** 1-based, as the lines appear in the editor. */
    const selectedLines: seq<Line>
    /** Appended to by every analysis and never cleared. */
    var selectedStatements: seq<NodeId>
    /** What must be passed in: the parameters of the extracted stage. */
    var inputDataDependences: seq<DataDependence>
    /** What must be passed out: the values the extracted stage returns. */
    var outputDataDependences: seq<DataDependence>
    var closureLocalVariableNames: set<VarName>
    var refs: set<PointerKey>
    var mods: set<PointerKey>

    ghost predicate Valid()
      reads this
    {
      pdg.Valid() && AllNodes(pdg, selectedStatements)
    }

    constructor (pdg: Graph, selectedLines: seq<Line>)
      requires pdg.Valid()
      ensures Valid() && this.pdg == pdg && this.selectedLines == selectedLines
      ensures selectedStatements == [] && inputDataDependences == [] && outputDataDependences == []
      ensures closureLocalVariableNames == {} && refs == {} && mods == {}
    {
      this.pdg := pdg;
      this.selectedLines := selectedLines;
      selectedStatements := [];
      inputDataDependences := [];
      outputDataDependences := [];
      closureLocalVariableNames := {};
      refs := {};
      mods := {};
    }

    /** Creates a stage and analyses the selection at once. */
    static method MakePipelineStage(pdg: Graph, selectedLines: seq<Line>) returns (stage: PipelineStage)
      requires pdg.Valid()
      ensures fresh(stage) && stage.Valid() && stage.pdg == pdg && stage.selectedLines == selectedLines
      ensures stage.selectedStatements == Selected(pdg, selectedLines)
      ensures stage.inputDataDependences == Inputs(pdg, stage.selectedStatements)
      ensures stage.outputDataDependences == Outputs(pdg, stage.selectedStatements)
      ensures stage.closureLocalVariableNames
        == ClosureLocals(pdg, stage.selectedStatements, stage.inputDataDependences)
      ensures stage.refs == {} && stage.mods == {}
    {
      stage := new PipelineStage(pdg, selectedLines);
      stage.AnalyzeSelection();
    }

    /** Selects the statements, then computes inputs, outputs and closure
        locals, in that order: the locals are filtered by the inputs just
        computed. */
    method AnalyzeSelection()
      requires Valid()
      modifies this
      ensures Valid()
      ensures selectedStatements == old(selectedStatements) + Selected(pdg, selectedLines)
      ensures inputDataDependences == Inputs(pdg, selectedStatements)
      ensures outputDataDependences == Outputs(pdg, selectedStatements)
      ensures closureLocalVariableNames == ClosureLocals(pdg, selectedStatements, inputDataDependences)
      ensures refs == old(refs) && mods == old(mods)
    {
      ComputeSelectedStatements();
      inputDataDependences := ComputeInput();
      outputDataDependences := ComputeOutput();
      var localVariables := ComputeLocalVariables();
      closureLocalVariableNames := FilterMethodParameters(localVariables);
    }

    /** Appends every node, in graph order, once for each selected line it lies on. */
    method ComputeSelectedStatements()
      requires pdg.Shaped() && AllNodes(pdg, selectedStatements)
      modifies this`selectedStatements
      ensures AllNodes(pdg, selectedStatements)
      ensures selectedStatements == old(selectedStatements) + Selected(pdg, selectedLines)
    {
      ghost var before := selectedStatements;
      var node := 0;
      while node < pdg.Size()
        invariant node <= pdg.Size()
        invariant selectedStatements == before + SelectedUpTo(pdg, selectedLines, node)
      {
        var j := 0;
        while j < |selectedLines|
          invariant j <= |selectedLines|
          invariant selectedStatements
            == before + SelectedUpTo(pdg, selectedLines, node) + LineHits(pdg, node, selectedLines[..j])
        {
          assert selectedLines[..j + 1][..j] == selectedLines[..j];
          if pdg.IsOnLine(node, selectedLines[j]) {
            selectedStatements := selectedStatements + [node];
          }
          j := j + 1;
        }
        assert selectedLines[..j] == selectedLines;
        node := node + 1;
      }
      SelectedShape(pdg, selectedLines);
      AllNodesConcat(pdg, before, Selected(pdg, selectedLines));
    }

    /** Is node outside the selection? A linear search by node identity. */
    method NotPartOfInternalNodes(node: NodeId) returns (r: bool)
      ensures r <==> node !in selectedStatements
    {
      for i := 0 to |selectedStatements|
        invariant forall k :: 0 <= k < i ==> selectedStatements[k] != node
      {
        if selectedStatements[i] == node {
          return false;
        }
      }
      return true;
    }

    /** The labels of every edge from a selected node to a successor outside
        the selection. */
    method ComputeOutput() returns (outputs: seq<DataDependence>)
      requires pdg.Shaped() && AllNodes(pdg, selectedStatements)
      ensures outputs == Outputs(pdg, selectedStatements)
    {
      outputs := [];
      for i := 0 to |selectedStatements|
        invariant AllNodes(pdg, selectedStatements[..i])
        invariant outputs == OutputsOver(pdg, selectedStatements, selectedStatements[..i])
      {
        AllNodesPrefix(pdg, selectedStatements, i + 1);
        var node := selectedStatements[i];
        var succs := pdg.succs[node];
        ghost var before := outputs;
        for j := 0 to |succs|
          invariant outputs == before + OutputsFrom(pdg, selectedStatements, node, succs[..j])
        {
          assert succs[..j + 1][..j] == succs[..j];
          var succ := succs[j];
          assert OutputsFrom(pdg, selectedStatements, node, succs[..j + 1])
              == OutputsFrom(pdg, selectedStatements, node, succs[..j])
               + (if succ !in selectedStatements then pdg.EdgeLabels(node, succ) else []);
          var outside := NotPartOfInternalNodes(succ);
          if outside {
            outputs := outputs + pdg.EdgeLabels(node, succ);
          }
        }
        assert succs[..|succs|] == succs;
        assert selectedStatements[..i + 1][..i] == selectedStatements[..i];
        assert OutputsOver(pdg, selectedStatements, selectedStatements[..i + 1])
            == OutputsOver(pdg, selectedStatements, selectedStatements[..i])
             + OutputsFrom(pdg, selectedStatements, node, pdg.succs[node]);
      }
      assert selectedStatements[..|selectedStatements|] == selectedStatements;
    }

    /** The labels of every edge from a predecessor outside the selection to
        a selected node. */
    method ComputeInput() returns (inputs: seq<DataDependence>)
      requires pdg.Shaped() && AllNodes(pdg, selectedStatements)
      ensures inputs == Inputs(pdg, selectedStatements)
    {
      inputs := [];
      for i := 0 to |selectedStatements|
        invariant AllNodes(pdg, selectedStatements[..i])
        invariant inputs == InputsOver(pdg, selectedStatements, selectedStatements[..i])
      {
        AllNodesPrefix(pdg, selectedStatements, i + 1);
        var node := selectedStatements[i];
        var preds := pdg.preds[node];
        ghost var before := inputs;
        for j := 0 to |preds|
          invariant inputs == before + InputsFrom(pdg, selectedStatements, node, preds[..j])
        {
          assert preds[..j + 1][..j] == preds[..j];
          var pred := preds[j];
          assert InputsFrom(pdg, selectedStatements, node, preds[..j + 1])
              == InputsFrom(pdg, selectedStatements, node, preds[..j])
               + (if pred !in selectedStatements then pdg.EdgeLabels(pred, node) else []);
          var outside := NotPartOfInternalNodes(pred);
          if outside {
            inputs := inputs + pdg.EdgeLabels(pred, node);
          }
        }
        assert preds[..|preds|] == preds;
        assert selectedStatements[..i + 1][..i] == selectedStatements[..i];
        assert InputsOver(pdg, selectedStatements, selectedStatements[..i + 1])
            == InputsOver(pdg, selectedStatements, selectedStatements[..i])
             + InputsFrom(pdg, selectedStatements, node, pdg.preds[node]);
      }
      assert selectedStatements[..|selectedStatements|] == selectedStatements;
    }

    /** Everything the selected nodes define. */
    method ComputeLocalVariables() returns (localVariables: set<VarName>)
      requires pdg.Shaped() && AllNodes(pdg, selectedStatements)
      ensures localVariables == DefsOf(pdg, selectedStatements)
    {
      localVariables := {};
      for i := 0 to |selectedStatements|
        invariant localVariables == DefsOf(pdg, selectedStatements[..i])
      {
        assert selectedStatements[..i + 1][..i] == selectedStatements[..i];
        localVariables := localVariables + pdg.nodes[selectedStatements[i]].defs;
      }
      assert selectedStatements[..|selectedStatements|] == selectedStatements;
    }

    /** Removes from localVariables every name an input dependence carries. */
    method FilterMethodParameters(localVariables: set<VarName>) returns (r: set<VarName>)
      ensures r == localVariables - ParameterNames(inputDataDependences)
    {
      var parameterNames: set<VarName> := {};
      for i := 0 to |inputDataDependences|
        invariant parameterNames == ParameterNames(inputDataDependences[..i])
      {
        assert inputDataDependences[..i + 1][..i] == inputDataDependences[..i];
        parameterNames := parameterNames + inputDataDependences[i].localVariableNames;
      }
      assert inputDataDependences[..|inputDataDependences|] == inputDataDependences;
      r := localVariables - parameterNames;
    }

    /** The SSA instructions of the selected statement nodes, in selection
        order; parameter nodes contribute none. */
    method RetrieveAllSSAInstructions() returns (instructions: seq<Instruction>)
      requires pdg.Shaped() && AllNodes(pdg, selectedStatements)
      ensures instructions == InstructionsOf(pdg, selectedStatements)
    {
      instructions := [];
      for i := 0 to |selectedStatements|
        invariant instructions == InstructionsOf(pdg, selectedStatements[..i])
      {
        assert selectedStatements[..i + 1][..i] == selectedStatements[..i];
        var node := pdg.nodes[selectedStatements[i]];
        if node.isStatement {
          instructions := instructions + node.instructions;
        }
      }
      assert selectedStatements[..|selectedStatements|] == selectedStatements;
    }

    /** Adds the heap locations the selected instructions may read (refOf)
        and write (modOf) to refs and mods. */
    method ComputeHeapDependencies(refOf: Instruction -> set<PointerKey>, modOf: Instruction -> set<PointerKey>)
      requires Valid()
      modifies this`refs, this`mods
      ensures refs == old(refs) + UnionOver(refOf, InstructionsOf(pdg, selectedStatements))
      ensures mods == old(mods) + UnionOver(modOf, InstructionsOf(pdg, selectedStatements))
    {
      var modRef := new PipelineStageModRef(this, refOf, modOf);
      modRef.ComputeHeapDependencies();
    }
  }

  /** The mod/ref computation of one stage against a pointer-analysis oracle,
      given as the per-instruction read and write sets it reports. */
  class PipelineStageModRef {
    const stage: PipelineStage
    const refOf: Instruction -> set<PointerKey>
    const modOf: Instruction -> set<PointerKey>

    constructor (stage: PipelineStage, refOf: Instruction -> set<PointerKey>, modOf: Instruction -> set<PointerKey>)
      ensures this.stage == stage && this.refOf == refOf && this.modOf == modOf
    {
      this.stage := stage;
      this.refOf := refOf;
      this.modOf := modOf;
    }

    method ComputeHeapDependencies()
      requires stage.Valid()
      modifies stage`refs, stage`mods
      ensures stage.refs == old(stage.refs) + UnionOver(refOf, InstructionsOf(stage.pdg, stage.selectedStatements))
      ensures stage.mods == old(stage.mods) + UnionOver(modOf, InstructionsOf(stage.pdg, stage.selectedStatements))
    {
      ComputeRefs();
      ComputeMods();
    }

    method ComputeMods()
      requires stage.Valid()
      modifies stage`mods
      ensures stage.mods == old(stage.mods) + UnionOver(modOf, InstructionsOf(stage.pdg, stage.selectedStatements))
    {
      var instructions := stage.RetrieveAllSSAInstructions();
      ghost var before := stage.mods;
      for i := 0 to |instructions|
        invariant stage.mods == before + UnionOver(modOf, instructions[..i])
      {
        assert instructions[..i + 1][..i] == instructions[..i];
        stage.mods := stage.mods + modOf(instructions[i]);
      }
      assert instructions[..|instructions|] == instructions;
    }

    method ComputeRefs()
      requires stage.Valid()
      modifies stage`refs
      ensures stage.refs == old(stage.refs) + UnionOver(refOf, InstructionsOf(stage.pdg, stage.selectedStatements))
    {
      var instructions := stage.RetrieveAllSSAInstructions();
      ghost var before := stage.refs;
      for i := 0 to |instructions|
        invariant stage.refs == before + UnionOver(refOf, instructions[..i])
      {
        assert instructions[..i + 1][..i] == instructions[..i];
        stage.refs := stage.refs + refOf(instructions[i]);
      }
      assert instructions[..|instructions|] == instructions;
    }
  }
}
