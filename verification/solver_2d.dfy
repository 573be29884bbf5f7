/** Surface tracking and temperature export of the 2-D solver handler. */
module Solver2D {
  import SolverGrid

  /** The 2-D handler state modelled here: one surface position per y row and the local grid. */
  datatype Handler2D = Handler2D(surfacePosition: seq<int>, local: SolverGrid.LocalGrid, localYS: int)

  /**
   * getSurfacePosition(j): the surface position of row j. That it is row j's
   * entry, not just some stored entry, follows from GetAfterSet with the
   * position row j already holds.
   */
  function GetSurfacePosition(h: Handler2D, j: int): (r: int)
    requires 0 <= j < |h.surfacePosition|
    ensures r in h.surfacePosition
  {
    h.surfacePosition[j]
  }

  /** setSurfacePosition(pos, j): only row j's surface position changes. */
  function SetSurfacePosition(h: Handler2D, pos: int, j: int): (r: Handler2D)
    requires 0 <= j < |h.surfacePosition|
    ensures |r.surfacePosition| == |h.surfacePosition|
    ensures r.surfacePosition[j] == pos
    ensures forall k :: 0 <= k < |h.surfacePosition| && k != j ==> r.surfacePosition[k] == h.surfacePosition[k]
    ensures r.(surfacePosition := h.surfacePosition) == h
  {
    h.(surfacePosition := h.surfacePosition[j := pos])
  }

  /** A get after a set returns the position set; other rows read as before. */
  lemma GetAfterSet(h: Handler2D, pos: int, j: int, k: int)
    requires 0 <= j < |h.surfacePosition| && 0 <= k < |h.surfacePosition|
    ensures GetSurfacePosition(SetSurfacePosition(h, pos, j), j) == pos
    ensures k != j ==> GetSurfacePosition(SetSurfacePosition(h, pos, j), k) == GetSurfacePosition(h, k)
  {
  }

  /** getNetworkTemperature, with depths measured from the surface of the first local row. */
  method GetNetworkTemperature(h: Handler2D, temperatures: seq<real>, depths: seq<real>)
    returns (temperatures': seq<real>, depths': seq<real>)
    requires 0 <= h.localYS < |h.surfacePosition|
    requires SolverGrid.DepthsReadable(h.local, h.surfacePosition[h.localYS])
    ensures temperatures' == h.local.temperature
    ensures |depths'| == |depths| + |h.local.temperature|
    ensures depths'[..|depths|] == depths
    ensures forall i :: 0 <= i < |h.local.temperature| ==>
              depths'[|depths| + i] == SolverGrid.Depth(h.local, h.surfacePosition[h.localYS], i)
  {
    temperatures', depths' := SolverGrid.NetworkTemperature(h.local, h.surfacePosition[h.localYS], temperatures, depths);
  }
}
