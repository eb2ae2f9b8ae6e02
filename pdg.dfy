/**
  The query surface of a program dependence graph, as the pipeline-stage
  analysis sees it. Nodes are identified by their index, which is also the
  order in which the graph iterates over them; predecessor and successor
  lists, the label list of each edge, the lines a node lies on, the names it
  defines and (for statement nodes) its SSA instructions are all the analysis
  ever asks of the graph.
*/
module Pdg {

  type NodeId = nat
  /** A 1-based editor line. */
  type Line = int
  type VarName = string
  /** An SSA instruction, by identity. */
  type Instruction = nat

  /** An edge label: the declared type of the value flowing along a
      dependence edge, and the source-level names that carry it. */
  datatype DataDependence = DataDependence(declaredType: string, localVariableNames: set<VarName>)

  /** What the analysis needs to know about one node. Parameter nodes have
      isStatement == false; statement nodes carry their SSA instructions. */
  datatype PdgNode = PdgNode(isStatement: bool, lines: set<Line>, defs: set<VarName>, instructions: seq<Instruction>)

  /** The graph. labels[(a, b)] lists the labels of edge a -> b in the order
      the graph's label set yields them; an absent pair means no labels. The
      model is more general than a set: it does not forbid a repeated label. */
  datatype Graph = Graph(
    nodes: seq<PdgNode>,
    succs: seq<seq<NodeId>>,
    preds: seq<seq<NodeId>>,
    labels: map<(NodeId, NodeId), seq<DataDependence>>)
  {
    function Size(): nat { |nodes| }

    /** One successor and one predecessor list per node. */
    predicate Shaped() {
      |succs| == |nodes| && |preds| == |nodes|
    }

    /** Well-formed: one adjacency list per node, every listed neighbour is a
        node, no neighbour is listed twice, and the predecessor lists are the
        exact mirror of the successor lists. */
    ghost predicate Valid() {
      && Shaped()
      && (forall a, i :: 0 <= a < |succs| && 0 <= i < |succs[a]| ==> succs[a][i] < |nodes|)
      && (forall b, i :: 0 <= b < |preds| && 0 <= i < |preds[b]| ==> preds[b][i] < |nodes|)
      && (forall a, i, j :: 0 <= a < |succs| && 0 <= i < j < |succs[a]| ==> succs[a][i] != succs[a][j])
      && (forall b, i, j :: 0 <= b < |preds| && 0 <= i < j < |preds[b]| ==> preds[b][i] != preds[b][j])
      && (forall a, b :: 0 <= a < |nodes| && 0 <= b < |nodes| ==> (b in succs[a] <==> a in preds[b]))
    }

    predicate IsOnLine(v: NodeId, line: Line)
      requires v < |nodes|
    {
      line in nodes[v].lines
    }

    /** There is a dependence edge a -> b. */
    ghost predicate HasEdge(a: NodeId, b: NodeId)
      requires Valid() && a < |nodes|
    {
      b in succs[a]
    }

    /** The labels of edge a -> b; empty, not an error, when there is none. */
    function EdgeLabels(a: NodeId, b: NodeId): seq<DataDependence> {
      if (a, b) in labels then labels[(a, b)] else []
    }
  }
}
