/**
 * The cyclomatic-complexity counter: a module pass that only reads the IR.
 * Every function is one connected component, every placed block a node and
 * every successor of a block's terminator an edge; the complexity reported is
 * edges minus nodes plus twice the components.
 */
module Cyclomatic {
  import opened Ir

  /** The successor count of every block of `layout`, summed. */
  function EdgesIn(st: IrState, layout: seq<BlockId>): nat
    decreases |layout|
  {
    if layout == [] then 0 else EdgesIn(st, layout[..|layout| - 1]) + |Succs(st, layout[|layout| - 1])|
  }

  /** The edges of the functions `fns`, function by function. */
  function Edges(st: IrState, fns: seq<Fn>): nat
    decreases |fns|
  {
    if fns == [] then 0 else Edges(st, fns[..|fns| - 1]) + EdgesIn(st, fns[|fns| - 1].layout)
  }

  /** The blocks of the functions `fns`. */
  function Nodes(fns: seq<Fn>): nat
    decreases |fns|
  {
    if fns == [] then 0 else Nodes(fns[..|fns| - 1]) + |fns[|fns| - 1].layout|
  }

  /** `E - N + 2P` of one function on its own. */
  function FunctionComplexity(st: IrState, f: Fn): int
  {
    EdgesIn(st, f.layout) - |f.layout| + 2
  }

  /** The complexities of the functions `fns`, each on its own, summed. */
  function SumOfComplexities(st: IrState, fns: seq<Fn>): int
    decreases |fns|
  {
    if fns == [] then 0 else SumOfComplexities(st, fns[..|fns| - 1]) + FunctionComplexity(st, fns[|fns| - 1])
  }

  datatype Report = Report(components: nat, edges: nat, nodes: nat, complexity: int)

  /**
   * `CountCyclomaticComplexity::run`: one component per function of the
   * module, declarations included, one node per block and as many edges as
   * the block's terminator has successors.  The module is only read.
   */
  method CountCyclomaticComplexity(st: IrState) returns (r: Report)
    ensures r.components == |st.fns| && r.edges == Edges(st, st.fns) && r.nodes == Nodes(st.fns)
    ensures r.complexity == r.edges - r.nodes + 2 * r.components
  {
    var components, edges, nodes := 0, 0, 0;
    for i := 0 to |st.fns|
      invariant components == i && edges == Edges(st, st.fns[..i]) && nodes == Nodes(st.fns[..i])
    {
      assert st.fns[..i + 1][..i] == st.fns[..i];
      components := components + 1;
      var layout := st.fns[i].layout;
      ghost var edges0, nodes0 := edges, nodes;
      for j := 0 to |layout|
        invariant edges == edges0 + EdgesIn(st, layout[..j]) && nodes == nodes0 + j
      {
        assert layout[..j + 1][..j] == layout[..j];
        edges := edges + |Succs(st, layout[j])|;
        nodes := nodes + 1;
      }
      assert layout[..|layout|] == layout;
    }
    assert st.fns[..|st.fns|] == st.fns;
    r := Report(components, edges, nodes, edges - nodes + 2 * components);
  }

  /** The complexity of a module is the sum of the complexities of its functions. */
  lemma {:induction false} ComplexityIsSum(st: IrState, fns: seq<Fn>)
    ensures Edges(st, fns) - Nodes(fns) + 2 * |fns| == SumOfComplexities(st, fns)
    decreases |fns|
  {
    if fns != [] {
      ComplexityIsSum(st, fns[..|fns| - 1]);
    }
  }

  /** A function of one block that ends in a return. */
  predicate SingleReturnBlock(st: IrState, f: Fn)
  {
    |f.layout| == 1 && Succs(st, f.layout[0]) == []
  }

  /** A module whose functions are each one block ending in a return has complexity equal to its function count. */
  lemma StraightLineModule(st: IrState)
    requires forall k :: 0 <= k < |st.fns| ==> SingleReturnBlock(st, st.fns[k])
    ensures Edges(st, st.fns) - Nodes(st.fns) + 2 * |st.fns| == |st.fns|
  {
    ComplexityIsSum(st, st.fns);
    StraightLineSum(st, st.fns);
  }

  lemma {:induction false} StraightLineSum(st: IrState, fns: seq<Fn>)
    requires forall k :: 0 <= k < |fns| ==> SingleReturnBlock(st, fns[k])
    ensures SumOfComplexities(st, fns) == |fns|
    decreases |fns|
  {
    if fns != [] {
      var f := fns[|fns| - 1];
      assert SingleReturnBlock(st, f);
      assert f.layout[..0] == [];
      assert EdgesIn(st, f.layout) == 0;
      StraightLineSum(st, fns[..|fns| - 1]);
    }
  }
}
