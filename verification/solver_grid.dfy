/**
 * The depth computation shared by the 2-D and 3-D solver handlers'
 * getNetworkTemperature: for every local grid point along x, the depth of
 * that point below the surface node.
 */
module SolverGrid {

  /** The part of a solver handler that getNetworkTemperature reads. */
  datatype LocalGrid = LocalGrid(
    grid: seq<real>,         // x positions of the grid nodes
    temperature: seq<real>,  // the handler's temperature at each local x point
    localXS: int,            // first local x index of this process
    nX: int)                 // number of x grid points

  /** The last local point may be the boundary node nX + 1, which has no right neighbour. */
  predicate IsBoundaryNode(g: LocalGrid, i: int) {
    g.localXS + i == g.nX + 1
  }

  /** Every grid read of the depth loop is in range for the given surface position. */
  predicate DepthsReadable(g: LocalGrid, surfacePosition: int) {
    && 0 <= surfacePosition + 1 < |g.grid|
    && 0 <= g.localXS
    && forall i :: 0 <= i < |g.temperature| ==>
         (if IsBoundaryNode(g, i) then g.localXS + i < |g.grid| else g.localXS + i + 1 < |g.grid|)
  }

  /**
   * Depth of local point i below the surface node grid[surfacePosition + 1]:
   * the node itself at the boundary node, the cell midpoint elsewhere.
   */
  function Depth(g: LocalGrid, surfacePosition: int, i: nat): real
    requires DepthsReadable(g, surfacePosition) && i < |g.temperature|
  {
    var x := g.localXS + i;
    var surfaceNode := g.grid[surfacePosition + 1];
    if IsBoundaryNode(g, i) then g.grid[x] - surfaceNode
    else (g.grid[x + 1] + g.grid[x]) / 2.0 - surfaceNode
  }

  /**
   * getNetworkTemperature: the temperatures are overwritten by the handler's
   * temperature vector; the depths are appended to what the caller passed,
   * never cleared, one per temperature entry.
   */
  method NetworkTemperature(g: LocalGrid, surfacePosition: int, temperatures: seq<real>, depths: seq<real>)
    returns (temperatures': seq<real>, depths': seq<real>)
    requires DepthsReadable(g, surfacePosition)
    ensures temperatures' == g.temperature
    ensures |depths'| == |depths| + |g.temperature|
    ensures depths'[..|depths|] == depths
    ensures forall i :: 0 <= i < |g.temperature| ==> depths'[|depths| + i] == Depth(g, surfacePosition, i)
  {
    temperatures' := g.temperature;
    depths' := depths;
    var i := 0;
    while i < |g.temperature|
      invariant 0 <= i <= |g.temperature|
      invariant |depths'| == |depths| + i
      invariant depths'[..|depths|] == depths
      invariant forall k :: 0 <= k < i ==> depths'[|depths| + k] == Depth(g, surfacePosition, k)
    {
      var d;
      if IsBoundaryNode(g, i) {
        d := g.grid[g.localXS + i] - g.grid[surfacePosition + 1];
      } else {
        d := (g.grid[g.localXS + i + 1] + g.grid[g.localXS + i]) / 2.0 - g.grid[surfacePosition + 1];
      }
      depths' := depths' + [d];
      i := i + 1;
    }
  }

  predicate StrictlyIncreasing(s: seq<real>) {
    forall a, b :: 0 <= a < b < |s| ==> s[a] < s[b]
  }

  /** The local points stop at the boundary node nX + 1 at the latest. */
  predicate EndsByBoundary(g: LocalGrid) {
    g.localXS + |g.temperature| <= g.nX + 2
  }

  /** On an increasing grid the depths of consecutive local points strictly increase. */
  lemma DepthsIncrease(g: LocalGrid, surfacePosition: int, i: nat)
    requires DepthsReadable(g, surfacePosition) && StrictlyIncreasing(g.grid) && EndsByBoundary(g)
    requires i + 1 < |g.temperature|
    ensures Depth(g, surfacePosition, i) < Depth(g, surfacePosition, i + 1)
  {
    var x := g.localXS + i;
    assert !IsBoundaryNode(g, i);
    assert g.grid[x] < g.grid[x + 1];
    if !IsBoundaryNode(g, i + 1) {
      assert g.grid[x + 1] < g.grid[x + 2];
    }
  }

  /** Points at or beyond the surface node lie at a non-negative depth, strictly positive inside a cell. */
  lemma DepthBelowSurface(g: LocalGrid, surfacePosition: int, i: nat)
    requires DepthsReadable(g, surfacePosition) && StrictlyIncreasing(g.grid)
    requires i < |g.temperature| && g.localXS + i >= surfacePosition + 1
    ensures Depth(g, surfacePosition, i) >= 0.0
    ensures !IsBoundaryNode(g, i) ==> Depth(g, surfacePosition, i) > 0.0
  {
    var x := g.localXS + i;
    if x > surfacePosition + 1 {
      assert g.grid[surfacePosition + 1] < g.grid[x];
    }
    if !IsBoundaryNode(g, i) {
      assert g.grid[x] < g.grid[x + 1];
    }
  }
}
