/** Surface tracking and temperature export of the 3-D solver handler. */
module Solver3D {
  import SolverGrid

  /** The 3-D handler state modelled here: one surface position per (y, z) column and the local grid. */
  datatype Handler3D = Handler3D(surfacePosition: seq<seq<int>>, local: SolverGrid.LocalGrid, localYS: int, localZS: int)

  predicate ValidColumn(h: Handler3D, j: int, k: int) {
    0 <= j < |h.surfacePosition| && 0 <= k < |h.surfacePosition[j]|
  }

  /**
   * getSurfacePosition(j, k): the surface position of column (j, k). That it
   * is that column's entry follows from GetAfterSet with the position the
   * column already holds.
   */
  function GetSurfacePosition(h: Handler3D, j: int, k: int): (r: int)
    requires ValidColumn(h, j, k)
    ensures r in h.surfacePosition[j]
  {
    h.surfacePosition[j][k]
  }

  /** setSurfacePosition(pos, j, k): only column (j, k) changes. */
  function SetSurfacePosition(h: Handler3D, pos: int, j: int, k: int): (r: Handler3D)
    requires ValidColumn(h, j, k)
    ensures |r.surfacePosition| == |h.surfacePosition|
    ensures forall a :: 0 <= a < |h.surfacePosition| ==> |r.surfacePosition[a]| == |h.surfacePosition[a]|
    ensures r.surfacePosition[j][k] == pos
    ensures forall a, b :: ValidColumn(h, a, b) && (a, b) != (j, k) ==> r.surfacePosition[a][b] == h.surfacePosition[a][b]
    ensures r.(surfacePosition := h.surfacePosition) == h
  {
    h.(surfacePosition := h.surfacePosition[j := h.surfacePosition[j][k := pos]])
  }

  /** A get after a set returns the position set; other columns read as before. */
  lemma GetAfterSet(h: Handler3D, pos: int, j: int, k: int, a: int, b: int)
    requires ValidColumn(h, j, k) && ValidColumn(h, a, b)
    ensures GetSurfacePosition(SetSurfacePosition(h, pos, j, k), j, k) == pos
    ensures (a, b) != (j, k) ==> GetSurfacePosition(SetSurfacePosition(h, pos, j, k), a, b) == GetSurfacePosition(h, a, b)
  {
  }

  /** setSurfaceOffset does nothing in 3-D. */
  function SetSurfaceOffset(h: Handler3D, offset: int, j: int, k: int): (r: Handler3D)
    ensures r == h
  {
    h
  }

  /** getNetworkTemperature, with depths measured from the surface of the first local column. */
  method GetNetworkTemperature(h: Handler3D, temperatures: seq<real>, depths: seq<real>)
    returns (temperatures': seq<real>, depths': seq<real>)
    requires ValidColumn(h, h.localYS, h.localZS)
    requires SolverGrid.DepthsReadable(h.local, h.surfacePosition[h.localYS][h.localZS])
    ensures temperatures' == h.local.temperature
    ensures |depths'| == |depths| + |h.local.temperature|
    ensures depths'[..|depths|] == depths
    ensures forall i :: 0 <= i < |h.local.temperature| ==>
              depths'[|depths| + i] == SolverGrid.Depth(h.local, h.surfacePosition[h.localYS][h.localZS], i)
  {
    temperatures', depths' :=
      SolverGrid.NetworkTemperature(h.local, h.surfacePosition[h.localYS][h.localZS], temperatures, depths);
  }
}
