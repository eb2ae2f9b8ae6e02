/**
  What a pipeline stage computes, as functions of the dependence graph and
  the selection, and the properties of those functions. Each function is
  defined the way the corresponding loop builds its result: by appending one
  element's contribution after those of the elements before it. The class in
  module PipelineStageModel is proved to compute exactly these values.
*/
module PipelineSpec {
  import opened Pdg

  /** An abstract heap location, as named by the pointer analysis. */
  type PointerKey = nat

  /** Every id in s names a node of g. */
  predicate AllNodes(g: Graph, s: seq<NodeId>) {
    forall i :: 0 <= i < |s| ==> s[i] < g.Size()
  }

  // ---------------------------------------------------------------------------
  // Selection

  /** The copies of node v appended by the inner loop over `lines`: one for
      each entry of `lines` (duplicates included) that v lies on. */
  function LineHits(g: Graph, v: NodeId, lines: seq<Line>): seq<NodeId>
    requires v < g.Size()
  {
    if lines == [] then []
    else LineHits(g, v, lines[..|lines| - 1]) + (if g.IsOnLine(v, lines[|lines| - 1]) then [v] else [])
  }

  /** The selection built by visiting nodes 0 .. k-1 in iteration order. */
  function SelectedUpTo(g: Graph, lines: seq<Line>, k: nat): seq<NodeId>
    requires k <= g.Size()
  {
    if k == 0 then [] else SelectedUpTo(g, lines, k - 1) + LineHits(g, k - 1, lines)
  }

  /** The selected statements for the given editor lines. */
  function Selected(g: Graph, lines: seq<Line>): seq<NodeId> {
    SelectedUpTo(g, lines, g.Size())
  }

  /** The positions of `lines` naming a line that v lies on. */
  ghost function HitPositions(g: Graph, v: NodeId, lines: seq<Line>): set<nat>
    requires v < g.Size()
  {
    set j: nat | j < |lines| && g.IsOnLine(v, lines[j])
  }

  lemma {:induction false} LineHitsCount(g: Graph, v: NodeId, lines: seq<Line>)
    requires v < g.Size()
    ensures forall w: NodeId :: multiset(LineHits(g, v, lines))[w] == if w == v then |HitPositions(g, v, lines)| else 0
    ensures forall i :: 0 <= i < |LineHits(g, v, lines)| ==> LineHits(g, v, lines)[i] == v
  {
    if lines != [] {
      var n := |lines| - 1;
      var front := lines[..n];
      LineHitsCount(g, v, front);
      HitPositionsSnoc(g, v, lines);
    }
  }

  /** Extending the line list by one entry adds at most its position. */
  lemma HitPositionsSnoc(g: Graph, v: NodeId, lines: seq<Line>)
    requires v < g.Size() && lines != []
    ensures HitPositions(g, v, lines)
         == HitPositions(g, v, lines[..|lines| - 1]) + (if g.IsOnLine(v, lines[|lines| - 1]) then {|lines| - 1} else {})
  {
    var n := |lines| - 1;
    var front := lines[..n];
    forall j | j in HitPositions(g, v, lines) && j < n
      ensures j in HitPositions(g, v, front)
    {
      assert front[j] == lines[j];
    }
    forall j | j in HitPositions(g, v, front)
      ensures j in HitPositions(g, v, lines)
    {
      assert front[j] == lines[j];
    }
  }

  lemma {:induction false} SelectedUpToFacts(g: Graph, lines: seq<Line>, k: nat)
    requires k <= g.Size()
    ensures forall i :: 0 <= i < |SelectedUpTo(g, lines, k)| ==> SelectedUpTo(g, lines, k)[i] < k
    ensures forall i, j :: 0 <= i <= j < |SelectedUpTo(g, lines, k)| ==>
      SelectedUpTo(g, lines, k)[i] <= SelectedUpTo(g, lines, k)[j]
    ensures forall v: NodeId :: multiset(SelectedUpTo(g, lines, k))[v] == if v < k then |HitPositions(g, v, lines)| else 0
  {
    if k > 0 {
      SelectedUpToFacts(g, lines, k - 1);
      LineHitsCount(g, k - 1, lines);
      var front := SelectedUpTo(g, lines, k - 1);
      var hits := LineHits(g, k - 1, lines);
      assert SelectedUpTo(g, lines, k) == front + hits;
      forall i, j | 0 <= i <= j < |front + hits|
        ensures (front + hits)[i] <= (front + hits)[j]
      {
        if j >= |front| {
          assert (front + hits)[j] == hits[j - |front|] == k - 1;
          if i < |front| {
            assert (front + hits)[i] == front[i];
          } else {
            assert (front + hits)[i] == hits[i - |front|];
          }
        }
      }
    }
  }

  /** The selection lists nodes of g in iteration order, and each node as
      many times as there are entries of `lines` that it lies on. */
  lemma SelectedShape(g: Graph, lines: seq<Line>)
    ensures AllNodes(g, Selected(g, lines))
    ensures forall i, j :: 0 <= i <= j < |Selected(g, lines)| ==> Selected(g, lines)[i] <= Selected(g, lines)[j]
    ensures forall v: NodeId :: v < g.Size() ==> multiset(Selected(g, lines))[v] == |HitPositions(g, v, lines)|
    ensures forall v: NodeId :: v >= g.Size() ==> v !in Selected(g, lines)
  {
    SelectedUpToFacts(g, lines, g.Size());
  }

  /** A node is selected exactly when it lies on one of the selected lines. */
  lemma SelectedMembership(g: Graph, lines: seq<Line>, v: NodeId)
    ensures v in Selected(g, lines) <==> v < g.Size() && exists j :: 0 <= j < |lines| && g.IsOnLine(v, lines[j])
  {
    SelectedShape(g, lines);
    if v < g.Size() {
      assert v in Selected(g, lines) <==> multiset(Selected(g, lines))[v] > 0;
      if exists j :: 0 <= j < |lines| && g.IsOnLine(v, lines[j]) {
        var j :| 0 <= j < |lines| && g.IsOnLine(v, lines[j]);
        assert j in HitPositions(g, v, lines);
      }
    }
  }

  /** Selecting more lines never drops a node from the selection. */
  lemma SelectedMonotonic(g: Graph, lines: seq<Line>, more: seq<Line>)
    requires forall j :: 0 <= j < |lines| ==> lines[j] in more
    ensures forall v :: v in Selected(g, lines) ==> v in Selected(g, more)
  {
    forall v | v in Selected(g, lines)
      ensures v in Selected(g, more)
    {
      SelectedMembership(g, lines, v);
      var j :| 0 <= j < |lines| && g.IsOnLine(v, lines[j]);
      var k :| 0 <= k < |more| && more[k] == lines[j];
      SelectedMembership(g, more, v);
    }
  }

  // ---------------------------------------------------------------------------
  // Output and input dependences

  /** Labels appended for selected node a while scanning its successors. */
  function OutputsFrom(g: Graph, selected: seq<NodeId>, a: NodeId, succs: seq<NodeId>): seq<DataDependence> {
    if succs == [] then []
    else
      OutputsFrom(g, selected, a, succs[..|succs| - 1])
      + (if succs[|succs| - 1] !in selected then g.EdgeLabels(a, succs[|succs| - 1]) else [])
  }

  /** Labels appended while scanning `nodes`, where `selected` decides what is internal. */
  function OutputsOver(g: Graph, selected: seq<NodeId>, nodes: seq<NodeId>): seq<DataDependence>
    requires g.Shaped() && AllNodes(g, nodes)
  {
    if nodes == [] then []
    else
      var a := nodes[|nodes| - 1];
      OutputsOver(g, selected, nodes[..|nodes| - 1]) + OutputsFrom(g, selected, a, g.succs[a])
  }

  /** The output dependences of a selection. */
  function Outputs(g: Graph, selected: seq<NodeId>): seq<DataDependence>
    requires g.Shaped() && AllNodes(g, selected)
  {
    OutputsOver(g, selected, selected)
  }

  /** Labels appended for selected node b while scanning its predecessors. */
  function InputsFrom(g: Graph, selected: seq<NodeId>, b: NodeId, preds: seq<NodeId>): seq<DataDependence> {
    if preds == [] then []
    else
      InputsFrom(g, selected, b, preds[..|preds| - 1])
      + (if preds[|preds| - 1] !in selected then g.EdgeLabels(preds[|preds| - 1], b) else [])
  }

  function InputsOver(g: Graph, selected: seq<NodeId>, nodes: seq<NodeId>): seq<DataDependence>
    requires g.Shaped() && AllNodes(g, nodes)
  {
    if nodes == [] then []
    else
      var b := nodes[|nodes| - 1];
      InputsOver(g, selected, nodes[..|nodes| - 1]) + InputsFrom(g, selected, b, g.preds[b])
  }

  /** The input dependences of a selection. */
  function Inputs(g: Graph, selected: seq<NodeId>): seq<DataDependence>
    requires g.Shaped() && AllNodes(g, selected)
  {
    InputsOver(g, selected, selected)
  }

  lemma {:induction false} OutputsFromMembership(g: Graph, selected: seq<NodeId>, a: NodeId, succs: seq<NodeId>, d: DataDependence)
    ensures d in OutputsFrom(g, selected, a, succs) <==>
      exists i :: 0 <= i < |succs| && succs[i] !in selected && d in g.EdgeLabels(a, succs[i])
  {
    if succs != [] {
      var n := |succs| - 1;
      OutputsFromMembership(g, selected, a, succs[..n], d);
      if exists i :: 0 <= i < |succs| && succs[i] !in selected && d in g.EdgeLabels(a, succs[i]) {
        var i :| 0 <= i < |succs| && succs[i] !in selected && d in g.EdgeLabels(a, succs[i]);
        if i < n {
          assert succs[..n][i] == succs[i];
        }
      }
    }
  }

  lemma {:induction false} InputsFromMembership(g: Graph, selected: seq<NodeId>, b: NodeId, preds: seq<NodeId>, d: DataDependence)
    ensures d in InputsFrom(g, selected, b, preds) <==>
      exists i :: 0 <= i < |preds| && preds[i] !in selected && d in g.EdgeLabels(preds[i], b)
  {
    if preds != [] {
      var n := |preds| - 1;
      InputsFromMembership(g, selected, b, preds[..n], d);
      if exists i :: 0 <= i < |preds| && preds[i] !in selected && d in g.EdgeLabels(preds[i], b) {
        var i :| 0 <= i < |preds| && preds[i] !in selected && d in g.EdgeLabels(preds[i], b);
        if i < n {
          assert preds[..n][i] == preds[i];
        }
      }
    }
  }

  lemma {:induction false} OutputsOverSound(g: Graph, selected: seq<NodeId>, nodes: seq<NodeId>, d: DataDependence)
    requires g.Shaped() && AllNodes(g, nodes)
    requires d in OutputsOver(g, selected, nodes)
    ensures exists a: NodeId, b: NodeId :: a < g.Size() && a in nodes && b in g.succs[a] && b !in selected && d in g.EdgeLabels(a, b)
  {
    var n := |nodes| - 1;
    var a := nodes[n];
    AllNodesPrefix(g, nodes, n);
    if d in OutputsOver(g, selected, nodes[..n]) {
      OutputsOverSound(g, selected, nodes[..n], d);
      var x: NodeId, b: NodeId :| x < g.Size() && x in nodes[..n] && b in g.succs[x] && b !in selected && d in g.EdgeLabels(x, b);
      assert x in nodes;
    } else {
      OutputsFromMembership(g, selected, a, g.succs[a], d);
      var i :| 0 <= i < |g.succs[a]| && g.succs[a][i] !in selected && d in g.EdgeLabels(a, g.succs[a][i]);
      assert a in nodes;
    }
  }

  lemma {:induction false} OutputsOverComplete(g: Graph, selected: seq<NodeId>, nodes: seq<NodeId>, d: DataDependence, a: NodeId, b: NodeId)
    requires g.Shaped() && AllNodes(g, nodes)
    requires a < g.Size() && a in nodes && b in g.succs[a] && b !in selected && d in g.EdgeLabels(a, b)
    ensures d in OutputsOver(g, selected, nodes)
  {
    var n := |nodes| - 1;
    AllNodesPrefix(g, nodes, n);
    if a == nodes[n] {
      OutputsFromMembership(g, selected, a, g.succs[a], d);
      var i :| 0 <= i < |g.succs[a]| && g.succs[a][i] == b;
    } else {
      assert a in nodes[..n];
      OutputsOverComplete(g, selected, nodes[..n], d, a, b);
    }
  }

  lemma {:induction false} InputsOverSound(g: Graph, selected: seq<NodeId>, nodes: seq<NodeId>, d: DataDependence)
    requires g.Shaped() && AllNodes(g, nodes)
    requires d in InputsOver(g, selected, nodes)
    ensures exists a: NodeId, b: NodeId :: b < g.Size() && b in nodes && a in g.preds[b] && a !in selected && d in g.EdgeLabels(a, b)
  {
    var n := |nodes| - 1;
    var b := nodes[n];
    AllNodesPrefix(g, nodes, n);
    if d in InputsOver(g, selected, nodes[..n]) {
      InputsOverSound(g, selected, nodes[..n], d);
      var a: NodeId, y: NodeId :| y < g.Size() && y in nodes[..n] && a in g.preds[y] && a !in selected && d in g.EdgeLabels(a, y);
      assert y in nodes;
    } else {
      InputsFromMembership(g, selected, b, g.preds[b], d);
      var i :| 0 <= i < |g.preds[b]| && g.preds[b][i] !in selected && d in g.EdgeLabels(g.preds[b][i], b);
      assert b in nodes;
    }
  }

  lemma {:induction false} InputsOverComplete(g: Graph, selected: seq<NodeId>, nodes: seq<NodeId>, d: DataDependence, a: NodeId, b: NodeId)
    requires g.Shaped() && AllNodes(g, nodes)
    requires b < g.Size() && b in nodes && a in g.preds[b] && a !in selected && d in g.EdgeLabels(a, b)
    ensures d in InputsOver(g, selected, nodes)
  {
    var n := |nodes| - 1;
    AllNodesPrefix(g, nodes, n);
    if b == nodes[n] {
      InputsFromMembership(g, selected, b, g.preds[b], d);
      var i :| 0 <= i < |g.preds[b]| && g.preds[b][i] == a;
    } else {
      assert b in nodes[..n];
      InputsOverComplete(g, selected, nodes[..n], d, a, b);
    }
  }

  /** An output label is a label of an edge whose source is selected and
      whose target is not, and every such label is an output. */
  lemma OutputsMembership(g: Graph, selected: seq<NodeId>, d: DataDependence)
    requires g.Valid() && AllNodes(g, selected)
    ensures d in Outputs(g, selected) <==>
      exists a: NodeId, b: NodeId :: a in selected && b < g.Size() && g.HasEdge(a, b) && b !in selected && d in g.EdgeLabels(a, b)
  {
    if d in Outputs(g, selected) {
      OutputsOverSound(g, selected, selected, d);
      var a: NodeId, b: NodeId :| a < g.Size() && a in selected && b in g.succs[a] && b !in selected && d in g.EdgeLabels(a, b);
      var i :| 0 <= i < |g.succs[a]| && g.succs[a][i] == b;
      assert b < g.Size() && g.HasEdge(a, b);
    }
    if exists a: NodeId, b: NodeId :: a in selected && b < g.Size() && g.HasEdge(a, b) && b !in selected && d in g.EdgeLabels(a, b) {
      var a: NodeId, b: NodeId :| a in selected && b < g.Size() && g.HasEdge(a, b) && b !in selected && d in g.EdgeLabels(a, b);
      OutputsOverComplete(g, selected, selected, d, a, b);
    }
  }

  /** An input label is a label of an edge whose target is selected and whose
      source is not, and every such label is an input. */
  lemma InputsMembership(g: Graph, selected: seq<NodeId>, d: DataDependence)
    requires g.Valid() && AllNodes(g, selected)
    ensures d in Inputs(g, selected) <==>
      exists a: NodeId, b: NodeId :: b in selected && a < g.Size() && g.HasEdge(a, b) && a !in selected && d in g.EdgeLabels(a, b)
  {
    if d in Inputs(g, selected) {
      InputsOverSound(g, selected, selected, d);
      var a: NodeId, b: NodeId :| b < g.Size() && b in selected && a in g.preds[b] && a !in selected && d in g.EdgeLabels(a, b);
      var i :| 0 <= i < |g.preds[b]| && g.preds[b][i] == a;
      assert a < g.Size();
      assert g.HasEdge(a, b);
    }
    if exists a: NodeId, b: NodeId :: b in selected && a < g.Size() && g.HasEdge(a, b) && a !in selected && d in g.EdgeLabels(a, b) {
      var a: NodeId, b: NodeId :| b in selected && a < g.Size() && g.HasEdge(a, b) && a !in selected && d in g.EdgeLabels(a, b);
      var k :| 0 <= k < |selected| && selected[k] == b;
      assert b < g.Size() && a in g.preds[b];
      InputsOverComplete(g, selected, selected, d, a, b);
    }
  }

  /** Widening the selection loses no output silently: an output of s is
      still an output of the larger t, or it labels an edge inside t. */
  lemma OutputsMonotonic(g: Graph, s: seq<NodeId>, t: seq<NodeId>, d: DataDependence)
    requires g.Valid() && AllNodes(g, s) && AllNodes(g, t)
    requires forall v :: v in s ==> v in t
    requires d in Outputs(g, s)
    ensures || d in Outputs(g, t)
            || exists a: NodeId, b: NodeId :: a < g.Size() && b < g.Size() && a in t && b in t
                 && g.HasEdge(a, b) && d in g.EdgeLabels(a, b)
  {
    OutputsMembership(g, s, d);
    var a: NodeId, b: NodeId :| a in s && b < g.Size() && g.HasEdge(a, b) && b !in s && d in g.EdgeLabels(a, b);
    assert a in t;
    if b !in t {
      OutputsMembership(g, t, d);
    }
  }

  /** Widening the selection loses no input silently: an input of s is still
      an input of the larger t, or it labels an edge inside t. */
  lemma InputsMonotonic(g: Graph, s: seq<NodeId>, t: seq<NodeId>, d: DataDependence)
    requires g.Valid() && AllNodes(g, s) && AllNodes(g, t)
    requires forall v :: v in s ==> v in t
    requires d in Inputs(g, s)
    ensures || d in Inputs(g, t)
            || exists a: NodeId, b: NodeId :: a < g.Size() && b < g.Size() && a in t && b in t
                 && g.HasEdge(a, b) && d in g.EdgeLabels(a, b)
  {
    InputsMembership(g, s, d);
    var a: NodeId, b: NodeId :| b in s && a < g.Size() && g.HasEdge(a, b) && a !in s && d in g.EdgeLabels(a, b);
    assert b in t;
    if a !in t {
      InputsMembership(g, t, d);
    }
  }

  lemma AllNodesConcat(g: Graph, xs: seq<NodeId>, ys: seq<NodeId>)
    requires AllNodes(g, xs) && AllNodes(g, ys)
    ensures AllNodes(g, xs + ys)
  {
    forall i | 0 <= i < |xs + ys|
      ensures (xs + ys)[i] < g.Size()
    {
      if i < |xs| {
        assert (xs + ys)[i] == xs[i];
      } else {
        assert (xs + ys)[i] == ys[i - |xs|];
      }
    }
  }

  lemma AllNodesPrefix(g: Graph, s: seq<NodeId>, n: nat)
    requires AllNodes(g, s) && n <= |s|
    ensures AllNodes(g, s[..n])
  {
    forall i | 0 <= i < n
      ensures s[..n][i] < g.Size()
    {
      assert s[..n][i] == s[i];
    }
  }

  /** Outputs are appended node occurrence by node occurrence: scanning
      xs + ys appends the labels of xs, then those of ys. */
  lemma {:induction false} OutputsOverAppend(g: Graph, selected: seq<NodeId>, xs: seq<NodeId>, ys: seq<NodeId>)
    requires g.Shaped() && AllNodes(g, xs) && AllNodes(g, ys)
    ensures AllNodes(g, xs + ys)
    ensures OutputsOver(g, selected, xs + ys) == OutputsOver(g, selected, xs) + OutputsOver(g, selected, ys)
  {
    AllNodesConcat(g, xs, ys);
    if ys == [] {
      assert xs + ys == xs;
    } else {
      var n := |ys| - 1;
      AllNodesPrefix(g, ys, n);
      OutputsOverAppend(g, selected, xs, ys[..n]);
      var zs := xs + ys;
      assert zs[..|zs| - 1] == xs + ys[..n];
      assert zs[|zs| - 1] == ys[n];
    }
  }


  /** Inputs are appended node occurrence by node occurrence. */
  lemma {:induction false} InputsOverAppend(g: Graph, selected: seq<NodeId>, xs: seq<NodeId>, ys: seq<NodeId>)
    requires g.Shaped() && AllNodes(g, xs) && AllNodes(g, ys)
    ensures AllNodes(g, xs + ys)
    ensures InputsOver(g, selected, xs + ys) == InputsOver(g, selected, xs) + InputsOver(g, selected, ys)
  {
    AllNodesConcat(g, xs, ys);
    if ys == [] {
      assert xs + ys == xs;
    } else {
      var n := |ys| - 1;
      AllNodesPrefix(g, ys, n);
      InputsOverAppend(g, selected, xs, ys[..n]);
      var zs := xs + ys;
      assert zs[..|zs| - 1] == xs + ys[..n];
      assert zs[|zs| - 1] == ys[n];
    }
  }


  /** h is g with the labels of edge a -> b replaced. */
  ghost predicate RelabelledAt(g: Graph, h: Graph, a: NodeId, b: NodeId) {
    && h.nodes == g.nodes && h.succs == g.succs && h.preds == g.preds
    && forall x: NodeId, y: NodeId :: (x, y) != (a, b) ==> h.EdgeLabels(x, y) == g.EdgeLabels(x, y)
  }

  lemma {:induction false} OutputsFromRelabel(g: Graph, h: Graph, a: NodeId, b: NodeId, selected: seq<NodeId>, x: NodeId, succs: seq<NodeId>)
    requires RelabelledAt(g, h, a, b) && b in selected
    ensures OutputsFrom(h, selected, x, succs) == OutputsFrom(g, selected, x, succs)
  {
    if succs != [] {
      OutputsFromRelabel(g, h, a, b, selected, x, succs[..|succs| - 1]);
    }
  }

  lemma {:induction false} InputsFromRelabel(g: Graph, h: Graph, a: NodeId, b: NodeId, selected: seq<NodeId>, y: NodeId, preds: seq<NodeId>)
    requires RelabelledAt(g, h, a, b) && a in selected
    ensures InputsFrom(h, selected, y, preds) == InputsFrom(g, selected, y, preds)
  {
    if preds != [] {
      InputsFromRelabel(g, h, a, b, selected, y, preds[..|preds| - 1]);
    }
  }

  lemma {:induction false} OverRelabel(g: Graph, h: Graph, a: NodeId, b: NodeId, selected: seq<NodeId>, nodes: seq<NodeId>)
    requires RelabelledAt(g, h, a, b) && a in selected && b in selected
    requires g.Shaped() && h.Shaped() && AllNodes(g, nodes)
    ensures AllNodes(h, nodes)
    ensures OutputsOver(h, selected, nodes) == OutputsOver(g, selected, nodes)
    ensures InputsOver(h, selected, nodes) == InputsOver(g, selected, nodes)
  {
    if nodes != [] {
      var n := |nodes| - 1;
      OverRelabel(g, h, a, b, selected, nodes[..n]);
      OutputsFromRelabel(g, h, a, b, selected, nodes[n], g.succs[nodes[n]]);
      InputsFromRelabel(g, h, a, b, selected, nodes[n], g.preds[nodes[n]]);
    }
  }

  /** The labels on an edge whose two ends are both selected (a self-loop on
      a selected node included) reach neither the inputs nor the outputs:
      relabelling that edge changes neither. */
  lemma InternalEdgeIgnored(g: Graph, selected: seq<NodeId>, a: NodeId, b: NodeId, ls: seq<DataDependence>)
    requires g.Valid() && AllNodes(g, selected) && a in selected && b in selected
    ensures g.(labels := g.labels[(a, b) := ls]).Valid()
    ensures Outputs(g.(labels := g.labels[(a, b) := ls]), selected) == Outputs(g, selected)
    ensures Inputs(g.(labels := g.labels[(a, b) := ls]), selected) == Inputs(g, selected)
  {
    var h := g.(labels := g.labels[(a, b) := ls]);
    OverRelabel(g, h, a, b, selected, selected);
  }

  // ---------------------------------------------------------------------------
  // Closure locals

  /** The union of defs() over `nodes`. */
  function DefsOf(g: Graph, nodes: seq<NodeId>): set<VarName>
    requires AllNodes(g, nodes)
  {
    if nodes == [] then {}
    else DefsOf(g, nodes[..|nodes| - 1]) + g.nodes[nodes[|nodes| - 1]].defs
  }

  /** The union of the local-variable names carried by `deps`. */
  function ParameterNames(deps: seq<DataDependence>): set<VarName> {
    if deps == [] then {}
    else ParameterNames(deps[..|deps| - 1]) + deps[|deps| - 1].localVariableNames
  }

  /** The closure-local names: what the selection defines, minus what is passed in. */
  function ClosureLocals(g: Graph, selected: seq<NodeId>, inputs: seq<DataDependence>): set<VarName>
    requires AllNodes(g, selected)
  {
    DefsOf(g, selected) - ParameterNames(inputs)
  }

  lemma {:induction false} DefsOfMembership(g: Graph, nodes: seq<NodeId>, x: VarName)
    requires AllNodes(g, nodes)
    ensures x in DefsOf(g, nodes) <==> exists v: NodeId :: v in nodes && x in g.nodes[v].defs
  {
    if nodes != [] {
      var n := |nodes| - 1;
      DefsOfMembership(g, nodes[..n], x);
      if exists v: NodeId :: v in nodes && x in g.nodes[v].defs {
        var v :| v in nodes && x in g.nodes[v].defs;
        if v != nodes[n] {
          assert v in nodes[..n];
        }
      }
    }
  }

  lemma {:induction false} ParameterNamesMembership(deps: seq<DataDependence>, x: VarName)
    ensures x in ParameterNames(deps) <==> exists d :: d in deps && x in d.localVariableNames
  {
    if deps != [] {
      var n := |deps| - 1;
      ParameterNamesMembership(deps[..n], x);
      if exists d :: d in deps && x in d.localVariableNames {
        var d :| d in deps && x in d.localVariableNames;
        if d != deps[n] {
          assert d in deps[..n];
        }
      }
    }
  }

  /** A closure local is a name some selected node defines and that no
      input dependence carries, and every such name is a closure local. */
  lemma ClosureLocalsMembership(g: Graph, selected: seq<NodeId>, x: VarName)
    requires g.Valid() && AllNodes(g, selected)
    ensures x in ClosureLocals(g, selected, Inputs(g, selected)) <==>
      (exists v: NodeId :: v in selected && x in g.nodes[v].defs)
      && !(exists d :: d in Inputs(g, selected) && x in d.localVariableNames)
  {
    DefsOfMembership(g, selected, x);
    ParameterNamesMembership(Inputs(g, selected), x);
  }

  /** No closure local is also carried in by an input dependence, so a
      parameter of the extracted stage is never redeclared. */
  lemma ClosureLocalsNotParameters(g: Graph, selected: seq<NodeId>, d: DataDependence, x: VarName)
    requires g.Valid() && AllNodes(g, selected)
    requires d in Inputs(g, selected) && x in d.localVariableNames
    ensures x !in ClosureLocals(g, selected, Inputs(g, selected))
  {
    ParameterNamesMembership(Inputs(g, selected), x);
  }

  /** Lines that match no node give an empty stage: no selected statements,
      no inputs, no outputs, no closure locals. */
  lemma NoMatchingLines(g: Graph, lines: seq<Line>)
    requires g.Valid()
    requires forall v: NodeId, j :: v < g.Size() && 0 <= j < |lines| ==> !g.IsOnLine(v, lines[j])
    ensures Selected(g, lines) == []
    ensures Inputs(g, Selected(g, lines)) == [] && Outputs(g, Selected(g, lines)) == []
    ensures ClosureLocals(g, Selected(g, lines), Inputs(g, Selected(g, lines))) == {}
  {
    if Selected(g, lines) != [] {
      SelectedMembership(g, lines, Selected(g, lines)[0]);
      assert false;
    }
  }

  // ---------------------------------------------------------------------------
  // Heap dependences

  /** The SSA instructions of the statement nodes among `nodes`, in order. */
  function InstructionsOf(g: Graph, nodes: seq<NodeId>): seq<Instruction>
    requires AllNodes(g, nodes)
  {
    if nodes == [] then []
    else
      var v := g.nodes[nodes[|nodes| - 1]];
      InstructionsOf(g, nodes[..|nodes| - 1]) + (if v.isStatement then v.instructions else [])
  }

  /** The union of the oracle's per-instruction sets over `instrs`. */
  function UnionOver(oracle: Instruction -> set<PointerKey>, instrs: seq<Instruction>): set<PointerKey> {
    if instrs == [] then {}
    else UnionOver(oracle, instrs[..|instrs| - 1]) + oracle(instrs[|instrs| - 1])
  }

  lemma {:induction false} InstructionsOfMembership(g: Graph, nodes: seq<NodeId>, i: Instruction)
    requires AllNodes(g, nodes)
    ensures i in InstructionsOf(g, nodes) <==>
      exists v: NodeId :: v in nodes && g.nodes[v].isStatement && i in g.nodes[v].instructions
  {
    if nodes != [] {
      var n := |nodes| - 1;
      InstructionsOfMembership(g, nodes[..n], i);
      if exists v: NodeId :: v in nodes && g.nodes[v].isStatement && i in g.nodes[v].instructions {
        var v :| v in nodes && g.nodes[v].isStatement && i in g.nodes[v].instructions;
        if v != nodes[n] {
          assert v in nodes[..n];
        }
      }
    }
  }

  lemma {:induction false} UnionOverMembership(oracle: Instruction -> set<PointerKey>, instrs: seq<Instruction>, k: PointerKey)
    ensures k in UnionOver(oracle, instrs) <==> exists i: Instruction :: i in instrs && k in oracle(i)
  {
    if instrs != [] {
      var n := |instrs| - 1;
      UnionOverMembership(oracle, instrs[..n], k);
      if exists i: Instruction :: i in instrs && k in oracle(i) {
        var i :| i in instrs && k in oracle(i);
        if i != instrs[n] {
          assert i in instrs[..n];
        }
      }
    }
  }

  /** A location is in the stage's heap set exactly when the oracle reports
      it for some instruction of some selected statement node; parameter
      nodes contribute nothing. */
  lemma HeapSetMembership(g: Graph, selected: seq<NodeId>, oracle: Instruction -> set<PointerKey>, k: PointerKey)
    requires AllNodes(g, selected)
    ensures k in UnionOver(oracle, InstructionsOf(g, selected)) <==>
      exists v: NodeId, i: Instruction :: v in selected && g.nodes[v].isStatement && i in g.nodes[v].instructions && k in oracle(i)
  {
    UnionOverMembership(oracle, InstructionsOf(g, selected), k);
    if exists i: Instruction :: i in InstructionsOf(g, selected) && k in oracle(i) {
      var i :| i in InstructionsOf(g, selected) && k in oracle(i);
      InstructionsOfMembership(g, selected, i);
    }
    if exists v: NodeId, i: Instruction :: v in selected && g.nodes[v].isStatement && i in g.nodes[v].instructions && k in oracle(i) {
      var v, i :| v in selected && g.nodes[v].isStatement && i in g.nodes[v].instructions && k in oracle(i);
      InstructionsOfMembership(g, selected, i);
    }
  }
}
