# JFlow pipeline stages and the `x := nil` shape transfer function, in Dafny

JFlow looks for ways to split a sequential Java method into the stages of a
concurrent pipeline. This project models two pieces of it.

**Pipeline-stage extraction** (`PipelineStage.java`). The editor selects some
lines. The stage picks the program-dependence-graph nodes on those lines, in
graph order, once per selected line a node lies on. It then collects:

- the labels of edges entering the selection (the stage's parameters);
- the labels of edges leaving it (its results);
- the closure-local names: what the selected nodes define, minus every name
  an input dependence carries;
- the heap locations the selected statements' SSA instructions may read
  (`refs`) and write (`mods`), as reported by a pointer-analysis oracle.

**The shape-analysis transfer function for `x := nil`**
(`AssignNilInstruction.java`, `ShapeNode.java`). A shape-graph node is named
by the set of pointer variables that point to it. The transfer function
drops x's variable edges and removes x from every node name on the remaining
edges. It carries the sharing map over unchanged. It then reports whether
the output graph changed.

Files:

- `pdg.dfy` (module `Pdg`): the graph as the analysis queries it. Nodes are
  indices in iteration order. The graph has successor and predecessor lists
  and one label list per edge. Each node has its lines, its defined names,
  and (for statement nodes) its SSA instructions. `Graph.Valid` requires the
  predecessor lists to mirror the successor lists exactly.
- `pipeline_spec.dfy` (module `PipelineSpec`): the stage's results as
  functions. Each is defined in the same order the Java loops append, and
  the lemmas here state the properties of those functions.
- `pipeline_stage.dfy` (module `PipelineStageModel`): the classes
  `PipelineStage` and `PipelineStageModRef`. Their fields are sequences and
  sets, and their loop methods are proved to compute the functions of
  `PipelineSpec`.
- `pipeline_examples.dfy` (module `PipelineExamples`): two graphs shaped like
  the ones the PDG tests expect, the stages extracted from them, and a
  client that runs the analysis twice.
- `shape_node.dfy` (module `Shape`): `ShapeNode` as an immutable value, with
  its two constructors, `equals` and `hashCode`.
- `assign_nil.dfy` (module `AssignNil`): the shape graph as a mutable object,
  the transfer function `SSGAssignNil.Evaluate`, and the operator's
  `equals`/`hashCode`.

Collaborators whose code is not part of this model are given the following
meanings:

- `ShapeNode.removeName(x)` returns the node named by the old name set
  minus `{x}`.
- `StaticShapeGraph` holds a set of variable edges, a set of selector edges
  and a sharing map. `sameValue` is equality of those three values, and
  `copyState` assigns them.
- A copy of a `PointerVariable` equals its source. A variable is therefore
  represented by its name.
- A copy of a `Selector` equals its source. A selector is therefore
  represented by its field name.
- `VariableEdge` and `SelectorEdge` are equal when their components are
  equal. The edge sets compare by value. Without this, `sameValue` would fail
  after every step and the solver would never report `NotChanged`.

Properties of the code worth knowing:

- Inputs and outputs are lists, not sets. A label appears once per crossing
  edge, and again each extra time its node is selected (`RepeatedLineInputs`,
  `RepeatedLineOutputs`).
- Selecting `b = g(a); c = h(b)` gives closure locals `{b, c}`. Only the
  names carried by inputs are subtracted from what the selected nodes
  define (`SequentialStage`).
- Outputs are not subtracted, so a closure local can also leave the stage as
  an output. Selecting `b = g(a)` alone gives output `b` and closure local `b`
  (`OutputAlsoClosureLocal`).

Equality of `SSGAssignNil` operators ignores the variable being assigned.
Two operators that compare equal can therefore compute different graphs
from the same input (`EqualOperatorsMayDiffer`).

## Model

| member | source | states |
|---|---|---|
| `PipelineSpec.SelectedShape` | edu.illinois.jflow.wala.core.ui/src/edu/illinois/jflow/jflow/wala/dataflowanalysis/PipelineStage.java:66-73 | The selection lists only nodes of the graph, in iteration order. Each node occurs exactly as many times as there are entries of the line list that it lies on. |
| `PipelineSpec.SelectedMembership` | edu.illinois.jflow.wala.core.ui/src/edu/illinois/jflow/jflow/wala/dataflowanalysis/PipelineStage.java:66-73 | A node is selected if and only if it lies on one of the selected lines. |
| `PipelineSpec.SelectedMonotonic` | edu.illinois.jflow.wala.core.ui/src/edu/illinois/jflow/jflow/wala/dataflowanalysis/PipelineStage.java:66-73 | Selecting a superset of lines never drops a node from the selection. |
| `PipelineSpec.OutputsMembership` | edu.illinois.jflow.wala.core.ui/src/edu/illinois/jflow/jflow/wala/dataflowanalysis/PipelineStage.java:76-87 | A label is an output if and only if it labels an edge whose source is selected and whose target is not. |
| `PipelineSpec.InputsMembership` | edu.illinois.jflow.wala.core.ui/src/edu/illinois/jflow/jflow/wala/dataflowanalysis/PipelineStage.java:90-100 | A label is an input if and only if it labels an edge whose target is selected and whose source is not. |
| `PipelineSpec.OutputsMonotonic` | edu.illinois.jflow.wala.core.ui/src/edu/illinois/jflow/jflow/wala/dataflowanalysis/PipelineStage.java:76-87 | Widening the selection loses no output silently. An output of a selection is still an output of any larger selection, or it labels an edge with both ends inside the larger one. |
| `PipelineSpec.InputsMonotonic` | edu.illinois.jflow.wala.core.ui/src/edu/illinois/jflow/jflow/wala/dataflowanalysis/PipelineStage.java:90-100 | Widening the selection loses no input silently. An input of a selection is still an input of any larger selection, or it labels an edge with both ends inside the larger one. |
| `PipelineSpec.OutputsOverAppend` | edu.illinois.jflow.wala.core.ui/src/edu/illinois/jflow/jflow/wala/dataflowanalysis/PipelineStage.java:79-84 | Outputs are appended per occurrence of a selected node: scanning xs + ys yields the outputs of xs followed by those of ys. |
| `PipelineSpec.InputsOverAppend` | edu.illinois.jflow.wala.core.ui/src/edu/illinois/jflow/jflow/wala/dataflowanalysis/PipelineStage.java:93-98 | Inputs are appended per occurrence of a selected node, in the same way. |
| `PipelineSpec.InternalEdgeIgnored` | edu.illinois.jflow.wala.core.ui/src/edu/illinois/jflow/jflow/wala/dataflowanalysis/PipelineStage.java:81-82 | Relabelling an edge whose two ends are both selected (a self-loop included) changes neither the inputs nor the outputs. |
| `PipelineSpec.ClosureLocalsMembership` | edu.illinois.jflow.wala.core.ui/src/edu/illinois/jflow/jflow/wala/dataflowanalysis/PipelineStage.java:110-125 | A name is a closure local if and only if some selected node defines it and no input dependence carries it. |
| `PipelineSpec.ClosureLocalsNotParameters` | edu.illinois.jflow.wala.core.ui/src/edu/illinois/jflow/jflow/wala/dataflowanalysis/PipelineStage.java:118-124 | No name carried by an input dependence is a closure local, so a stage parameter is never redeclared. |
| `PipelineSpec.NoMatchingLines` | edu.illinois.jflow.wala.core.ui/src/edu/illinois/jflow/jflow/wala/dataflowanalysis/PipelineStage.java:59-73 | When no node lies on any selected line (an empty line list included), the selection, inputs, outputs and closure locals are all empty. |
| `PipelineSpec.HeapSetMembership` | edu.illinois.jflow.wala.core.ui/src/edu/illinois/jflow/jflow/wala/dataflowanalysis/PipelineStage.java:143-154 | A location is in the stage's heap set if and only if the oracle reports it for an instruction of a selected statement node. Parameter nodes contribute nothing. |
| `PipelineStageModel.PipelineStage.constructor` | edu.illinois.jflow.wala.core.ui/src/edu/illinois/jflow/jflow/wala/dataflowanalysis/PipelineStage.java:54-57 | Records the graph and the lines. The selection, dependences, locals and heap sets start empty. |
| `PipelineStageModel.PipelineStage.MakePipelineStage` | edu.illinois.jflow.wala.core.ui/src/edu/illinois/jflow/jflow/wala/dataflowanalysis/PipelineStage.java:48-52 | A new stage, already analysed: the selection of its lines and the inputs, outputs and closure locals of that selection. |
| `PipelineStageModel.PipelineStage.AnalyzeSelection` | edu.illinois.jflow.wala.core.ui/src/edu/illinois/jflow/jflow/wala/dataflowanalysis/PipelineStage.java:59-64 | Appends the selection to the previous one, without clearing it. Sets inputs and outputs for the whole accumulated selection. The closure locals are filtered by the inputs just computed. refs and mods are untouched. |
| `PipelineStageModel.PipelineStage.ComputeSelectedStatements` | edu.illinois.jflow.wala.core.ui/src/edu/illinois/jflow/jflow/wala/dataflowanalysis/PipelineStage.java:66-73 | The new selection is the old one followed by every node in graph order, once per selected line it lies on. |
| `PipelineStageModel.PipelineStage.NotPartOfInternalNodes` | edu.illinois.jflow.wala.core.ui/src/edu/illinois/jflow/jflow/wala/dataflowanalysis/PipelineStage.java:102-108 | True if and only if the node, compared by identity, is not in the selection. |
| `PipelineStageModel.PipelineStage.ComputeOutput` | edu.illinois.jflow.wala.core.ui/src/edu/illinois/jflow/jflow/wala/dataflowanalysis/PipelineStage.java:76-87 | Returns exactly the stage's output dependences. What those are is stated by `OutputsMembership` and `OutputsOverAppend`. |
| `PipelineStageModel.PipelineStage.ComputeInput` | edu.illinois.jflow.wala.core.ui/src/edu/illinois/jflow/jflow/wala/dataflowanalysis/PipelineStage.java:90-100 | Returns exactly the stage's input dependences. What those are is stated by `InputsMembership` and `InputsOverAppend`. |
| `PipelineStageModel.PipelineStage.ComputeLocalVariables` | edu.illinois.jflow.wala.core.ui/src/edu/illinois/jflow/jflow/wala/dataflowanalysis/PipelineStage.java:110-116 | Returns the union of the defined names of the selected nodes. |
| `PipelineStageModel.PipelineStage.FilterMethodParameters` | edu.illinois.jflow.wala.core.ui/src/edu/illinois/jflow/jflow/wala/dataflowanalysis/PipelineStage.java:118-125 | Returns the given names minus every local-variable name carried by the current input dependences. |
| `PipelineStageModel.PipelineStage.RetrieveAllSSAInstructions` | edu.illinois.jflow.wala.core.ui/src/edu/illinois/jflow/jflow/wala/dataflowanalysis/PipelineStage.java:143-154 | Returns the instructions of the selected statement nodes in selection order. Parameter nodes contribute none. |
| `PipelineStageModel.PipelineStage.ComputeHeapDependencies` | edu.illinois.jflow.wala.core.ui/src/edu/illinois/jflow/jflow/wala/dataflowanalysis/PipelineStage.java:160-163 | refs and mods each grow by the union of the oracle's read and write sets over those instructions. |
| `PipelineStageModel.PipelineStageModRef.constructor` | edu.illinois.jflow.wala.core.ui/src/edu/illinois/jflow/jflow/wala/dataflowanalysis/PipelineStage.java:176-181 | Records the stage and the oracle. |
| `PipelineStageModel.PipelineStageModRef.ComputeHeapDependencies` | edu.illinois.jflow.wala.core.ui/src/edu/illinois/jflow/jflow/wala/dataflowanalysis/PipelineStage.java:183-186 | Computes refs and then mods, each as the old set plus the union of the oracle's sets over the stage's instructions. |
| `PipelineStageModel.PipelineStageModRef.ComputeMods` | edu.illinois.jflow.wala.core.ui/src/edu/illinois/jflow/jflow/wala/dataflowanalysis/PipelineStage.java:188-193 | mods becomes the old mods plus the union of the oracle's write sets over the stage's instructions. |
| `PipelineStageModel.PipelineStageModRef.ComputeRefs` | edu.illinois.jflow.wala.core.ui/src/edu/illinois/jflow/jflow/wala/dataflowanalysis/PipelineStage.java:195-200 | refs becomes the old refs plus the union of the oracle's read sets over the stage's instructions. |
| `PipelineExamples.SequentialGraphValid` | edu.illinois.jflow.wala.core.ui.tests/src/edu/illinois/jflow/wala/core/ui/tests/PDGTests.java:79-97 | The four-node graph with edges a -> b and b -> c is well formed. |
| `PipelineExamples.ContainerGraphValid` | edu.illinois.jflow.wala.core.ui.tests/src/edu/illinois/jflow/wala/core/ui/tests/PDGTests.java:231-256 | The container-parameter graph with a two-label self-loop is well formed. |
| `PipelineExamples.SequentialSelection` | edu.illinois.jflow.wala.core.ui/src/edu/illinois/jflow/jflow/wala/dataflowanalysis/PipelineStage.java:66-73 | Selecting the lines of b and c selects nodes 2 and 3. |
| `PipelineExamples.SequentialInputs` | edu.illinois.jflow.wala.core.ui/src/edu/illinois/jflow/jflow/wala/dataflowanalysis/PipelineStage.java:90-100 | Selecting b and c: the only input is a's label. |
| `PipelineExamples.SequentialOutputs` | edu.illinois.jflow.wala.core.ui/src/edu/illinois/jflow/jflow/wala/dataflowanalysis/PipelineStage.java:76-87 | Selecting b and c: there are no outputs. |
| `PipelineExamples.SequentialStage` | edu.illinois.jflow.wala.core.ui/src/edu/illinois/jflow/jflow/wala/dataflowanalysis/PipelineStage.java:59-125 | That stage has input [a-label], no outputs, and closure locals {b, c}. |
| `PipelineExamples.OutputAlsoClosureLocal` | edu.illinois.jflow.wala.core.ui/src/edu/illinois/jflow/jflow/wala/dataflowanalysis/PipelineStage.java:59-125 | Selecting b alone: input [a-label], output [b-label], and closure locals {b}. The name b leaves the stage and is also private to it. |
| `PipelineExamples.ContainerSelection` | edu.illinois.jflow.wala.core.ui/src/edu/illinois/jflow/jflow/wala/dataflowanalysis/PipelineStage.java:66-73 | Line [4] selects [1]. Line [4, 4] selects [1, 1]. |
| `PipelineExamples.ContainerStage` | edu.illinois.jflow.wala.core.ui/src/edu/illinois/jflow/jflow/wala/dataflowanalysis/PipelineStage.java:76-100 | Selecting the node with the self-loop gives input [param-label] and output [a-label]. The self-loop's labels appear in neither. |
| `PipelineExamples.RepeatedLineInputs` | edu.illinois.jflow.wala.core.ui/src/edu/illinois/jflow/jflow/wala/dataflowanalysis/PipelineStage.java:90-100 | A node selected twice has its input labels reported twice. |
| `PipelineExamples.RepeatedLineOutputs` | edu.illinois.jflow.wala.core.ui/src/edu/illinois/jflow/jflow/wala/dataflowanalysis/PipelineStage.java:76-87 | A node selected twice has its output labels reported twice. |
| `PipelineExamples.AnalyzeTwice` | edu.illinois.jflow.wala.core.ui/src/edu/illinois/jflow/jflow/wala/dataflowanalysis/PipelineStage.java:29 | Analysing a stage a second time appends the same selection again. |
| `Shape.NamedBy` | edu.illinois.jflow.shapeanalysis.core/src/edu/illinois/jflow/shapenalaysis/shapegraph/structures/ShapeNode.java:15-17 | A node built from variable v contains v, and no other variable. |
| `Shape.Copy` | edu.illinois.jflow.shapeanalysis.core/src/edu/illinois/jflow/shapenalaysis/shapegraph/structures/ShapeNode.java:19-24 | The copy built variable by variable equals the original, in both directions of `equals`. |
| `Shape.ShapeNode.Equals` | edu.illinois.jflow.shapeanalysis.core/src/edu/illinois/jflow/shapenalaysis/shapegraph/structures/ShapeNode.java:35-49 | Compares name sets and rejects null and other classes. Its meaning is stated by `EqualsExactly` and `EqualsIsEquivalence`. |
| `Shape.ShapeNode.HashCode` | edu.illinois.jflow.shapeanalysis.core/src/edu/illinois/jflow/shapenalaysis/shapegraph/structures/ShapeNode.java:27-32 | Prime plus the hash of the name set. Its agreement with `Equals` is stated by `EqualsImpliesSameHash`. |
| `Shape.EqualsExactly` | edu.illinois.jflow.shapeanalysis.core/src/edu/illinois/jflow/shapenalaysis/shapegraph/structures/ShapeNode.java:35-49 | A node equals an object if and only if that object is a shape node with the same name set. It never equals null or an object of another class. |
| `Shape.EqualsIsEquivalence` | edu.illinois.jflow.shapeanalysis.core/src/edu/illinois/jflow/shapenalaysis/shapegraph/structures/ShapeNode.java:35-49 | `equals` is reflexive, symmetric and transitive. |
| `Shape.EqualsImpliesSameHash` | edu.illinois.jflow.shapeanalysis.core/src/edu/illinois/jflow/shapenalaysis/shapegraph/structures/ShapeNode.java:27-32 | Equal nodes have equal hash codes. |
| `Shape.NamedByEquals` | edu.illinois.jflow.shapeanalysis.core/src/edu/illinois/jflow/shapenalaysis/shapegraph/structures/ShapeNode.java:15-17 | Two single-variable nodes are equal if and only if their variables are. |
| `AssignNil.StaticShapeGraph.constructor` | edu.illinois.jflow.shapeanalysis.core/src/edu/illinois/jflow/shapeanalysis/example/ir/AssignNilInstruction.java:38 | A new shape graph is empty. |
| `AssignNil.StaticShapeGraph.AddVariableEdge` | edu.illinois.jflow.shapeanalysis.core/src/edu/illinois/jflow/shapeanalysis/example/ir/AssignNilInstruction.java:44 | Adds one variable edge and changes nothing else. |
| `AssignNil.StaticShapeGraph.AddSelectorEdge` | edu.illinois.jflow.shapeanalysis.core/src/edu/illinois/jflow/shapeanalysis/example/ir/AssignNilInstruction.java:52 | Adds one selector edge and changes nothing else. |
| `AssignNil.StaticShapeGraph.PutIsShared` | edu.illinois.jflow.shapeanalysis.core/src/edu/illinois/jflow/shapeanalysis/example/ir/AssignNilInstruction.java:58 | Sets one entry of the sharing map and changes nothing else. |
| `AssignNil.StaticShapeGraph.SameValue` | edu.illinois.jflow.shapeanalysis.core/src/edu/illinois/jflow/shapeanalysis/example/ir/AssignNilInstruction.java:61 | Two graphs have the same value when their edge sets and sharing maps are equal. `Evaluate` and `StatusReportsChange` rely on it to decide the status. |
| `AssignNil.StaticShapeGraph.CopyState` | edu.illinois.jflow.shapeanalysis.core/src/edu/illinois/jflow/shapeanalysis/example/ir/AssignNilInstruction.java:62 | The graph takes on the other graph's value. |
| `AssignNil.AssignNilInstruction.GetTransferFunction` | edu.illinois.jflow.shapeanalysis.core/src/edu/illinois/jflow/shapeanalysis/example/ir/AssignNilInstruction.java:30-33 | The instruction's operator, for the instruction's own variable. What it computes is stated by `Evaluate`. |
| `AssignNil.SSGAssignNil.Evaluate` | edu.illinois.jflow.shapeanalysis.core/src/edu/illinois/jflow/shapeanalysis/example/ir/AssignNilInstruction.java:37-67 | The output becomes the assign-nil graph of the input, and the status is `Changed` if and only if the output did not already hold that value. On `NotChanged` the output is untouched. |
| `AssignNil.LhsUnbound` | edu.illinois.jflow.shapeanalysis.core/src/edu/illinois/jflow/shapeanalysis/example/ir/AssignNilInstruction.java:41-53 | The result has no variable edge of lhs. lhs names no node at either end of any edge. |
| `AssignNil.VariableEdgesCarried` | edu.illinois.jflow.shapeanalysis.core/src/edu/illinois/jflow/shapeanalysis/example/ir/AssignNilInstruction.java:38-46 | (v, n) is a result variable edge if and only if v is not lhs and the input has an edge (v, m) with n = m without lhs. |
| `AssignNil.SelectorEdgesCarried` | edu.illinois.jflow.shapeanalysis.core/src/edu/illinois/jflow/shapeanalysis/example/ir/AssignNilInstruction.java:49-53 | Every input selector edge reappears with lhs removed from both ends. There are no other result selector edges. |
| `AssignNil.IsSharedCarried` | edu.illinois.jflow.shapeanalysis.core/src/edu/illinois/jflow/shapeanalysis/example/ir/AssignNilInstruction.java:57-59 | The sharing map is carried over with every entry unchanged. |
| `AssignNil.AssignNilIdempotent` | edu.illinois.jflow.shapeanalysis.core/src/edu/illinois/jflow/shapeanalysis/example/ir/AssignNilInstruction.java:41-59 | Applying the transfer function twice for the same variable gives the same graph as applying it once. |
| `AssignNil.ResultIgnoresPrior` | edu.illinois.jflow.shapeanalysis.core/src/edu/illinois/jflow/shapeanalysis/example/ir/AssignNilInstruction.java:38-60 | The computed graph depends only on the input. The previous output matters only for the status. |
| `AssignNil.StatusReportsChange` | edu.illinois.jflow.shapeanalysis.core/src/edu/illinois/jflow/shapeanalysis/example/ir/AssignNilInstruction.java:61-66 | `Changed` if and only if the previous output differs from the new graph. `NotChanged` keeps the previous output. |
| `AssignNil.ReevaluationStable` | edu.illinois.jflow.shapeanalysis.core/src/edu/illinois/jflow/shapeanalysis/example/ir/AssignNilInstruction.java:61-66 | Evaluating again with the same input right after a step reports `NotChanged`. |
| `AssignNil.EvaluateTwice` | edu.illinois.jflow.shapeanalysis.core/src/edu/illinois/jflow/shapeanalysis/example/ir/AssignNilInstruction.java:61-66 | Two evaluations with the same input: the second reports `NotChanged`, and the output is the assign-nil graph of the original input. This holds also when output and input are one object. |
| `AssignNil.SSGAssignNil.Equals` | edu.illinois.jflow.shapeanalysis.core/src/edu/illinois/jflow/shapeanalysis/example/ir/AssignNilInstruction.java:74-77 | True for every assign-nil operator and nothing else. `OperatorsAllEqual` and `EqualOperatorsMayDiffer` state its consequences. |
| `AssignNil.SSGAssignNil.HashCode` | edu.illinois.jflow.shapeanalysis.core/src/edu/illinois/jflow/shapeanalysis/example/ir/AssignNilInstruction.java:69-72 | The hash of the class-name string, identical for every operator (`OperatorsAllEqual`). |
| `AssignNil.OperatorsAllEqual` | edu.illinois.jflow.shapeanalysis.core/src/edu/illinois/jflow/shapeanalysis/example/ir/AssignNilInstruction.java:69-77 | Any two assign-nil operators are equal (both ways) and hash alike, whatever their variables. None equals null or another kind of operator. |
| `AssignNil.EqualOperatorsMayDiffer` | edu.illinois.jflow.shapeanalysis.core/src/edu/illinois/jflow/shapeanalysis/example/ir/AssignNilInstruction.java:74-77 | The operators for x and y are equal, yet they transform the graph {x -> [x]} differently. |

## Left out

- The program dependence graph's construction (`ProgramDependenceGraph`, `PDGNode`, `Statement`, `DataDependence`) is not part of this model. The graph is an input value with the queries the stage uses. A node's lines, defined names and instructions are given per node.
- The pointer analysis (`ModRef.getMod`/`getRef`, `PointerAnalysis`, the heap model, the call-graph node) is foreign code. Each is one function from an instruction to a set of abstract locations. The unused `HeapExclusions` field is dropped.
- Before `analyzeSelection` runs, the Java dependence and locals fields are null. The model starts them empty.
- The getters of `PipelineStage` are plain field reads. The model's fields are read directly.
- The graph's successor, predecessor and label iteration orders are fixed by the given lists. The Java label sets have some fixed iteration order that is not specified.
- `toString` of both classes, and the concrete hash values: the prime-plus-set-hash formula of `ShapeNode.hashCode` is kept over unbounded integers, without Java's 32-bit wrap-around. The set hash and the string hash are oracle parameters.
- `ShapeNode.equals` has an identity shortcut and `name == null` branches. With value semantics the shortcut gives the same answer as comparing names. The name set is never null, so those branches are unreachable and not modelled.
- Ownership of `ShapeNode` name sets (an original and its copy never share state) is immediate for values and is not stated separately.
- `Evaluate` visits the sets in an arbitrary order, chosen nondeterministically. The results are sets and maps, so the order does not affect them.
- The solver's status bytes are the two-valued `Status` datatype. The WALA constants' numeric values are not modelled.
- `ExceptionAnalyzer.java`, `ReceiverStringContext.java` and `PipelineCase0.java` are not part of this model: an Eclipse AST visitor, a WALA context adapter and a concurrency example with console output.
