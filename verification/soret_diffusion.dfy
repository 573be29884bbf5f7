/**
 * Set-up and setters of the Soret (thermal-gradient) diffusion handler.
 *
 * At set-up the handler selects the diffusing clusters of the network (those
 * with a nonzero diffusion factor) and registers the temperature degree of
 * freedom in their rows of the two sparse fill maps, so that each diffusing
 * cluster's equation depends on temperature.
 */
module SoretDiffusion {
  import MathUtils

  /** The view of the reaction network the handler uses: its DOF count and each cluster's diffusion factor. */
  datatype Network = Network(dof: int, diffusionFactors: seq<real>)

  /** A sparse fill map: for each row, the ordered columns it touches. */
  type SparseFillMap = map<nat, seq<int>>

  datatype SoretHandler = SoretHandler(
    diffusingClusters: seq<nat>,
    dof: int,
    xGrid: seq<real>,
    heatFlux: real,
    heatConductivity: real,
    surfacePosition: int,
    beta: real,
    J: real)

  /** A freshly constructed handler. */
  function NewHandler(): (h: SoretHandler)
    ensures h.dof == 0 && h.surfacePosition == 0
    ensures h.heatConductivity == 0.0 && h.heatFlux == 0.0 && h.beta == 0.0
    ensures h.J == 1000.0
    ensures h.diffusingClusters == [] && h.xGrid == []
  {
    SoretHandler([], 0, [], 0.0, 0.0, 0, 0.0, 1.0e3)
  }

  predicate StrictlyIncreasing(s: seq<nat>) {
    forall a, b :: 0 <= a < b < |s| ==> s[a] < s[b]
  }

  /** The clusters among 0 .. n-1 with a nonzero diffusion factor, in increasing order. */
  function DiffusingBelow(factors: seq<real>, n: nat): (r: seq<nat>)
    requires n <= |factors|
    ensures forall k: nat :: k in r <==> k < n && !MathUtils.Equal(factors[k], 0.0)
    ensures StrictlyIncreasing(r)
  {
    if n == 0 then []
    else
      var prev := DiffusingBelow(factors, n - 1);
      if MathUtils.Equal(factors[n - 1], 0.0) then prev
      else
        assert forall a :: 0 <= a < |prev| ==> prev[a] in prev;
        prev + [n - 1]
  }

  /** The row of a fill map; operator[] of the map yields an empty row for a missing key. */
  function Row(m: SparseFillMap, i: nat): seq<int> {
    if i in m then m[i] else []
  }

  /**
   * Append column col to the row of every cluster in rows. The set-up loop
   * visits each cluster once, so each selected row gains exactly one entry.
   */
  function AppendColumn(m: SparseFillMap, rows: seq<nat>, col: int): (r: SparseFillMap)
    ensures r.Keys == m.Keys + (set k | k in rows)
    ensures forall k :: k in rows ==> r[k] == Row(m, k) + [col]
    ensures forall k :: k in m && k !in rows ==> r[k] == m[k]
  {
    map k | k in m.Keys + (set k | k in rows) :: if k in rows then Row(m, k) + [col] else m[k]
  }

  /** The sparse fill maps after set-up. */
  datatype FillMaps = FillMaps(ofill: SparseFillMap, dfill: SparseFillMap)

  /** How a fill map changes at set-up: the DOF column is appended once to each diffusing row, nothing else moves. */
  predicate TemperatureColumnAdded(before: SparseFillMap, after: SparseFillMap, rows: seq<nat>, col: int) {
    && after.Keys == before.Keys + (set k | k in rows)
    && (forall k :: k in rows ==> after[k] == Row(before, k) + [col])
    && (forall k :: k in before && k !in rows ==> after[k] == before[k])
  }

  /**
   * Set-up: the diffusing clusters are recomputed from scratch (the previous
   * list is cleared), the DOF and the grid are copied, and the temperature
   * column is registered in both fill maps for each diffusing cluster.
   */
  function Initialize(h: SoretHandler, network: Network, ofill: SparseFillMap, dfill: SparseFillMap, grid: seq<real>)
    : (r: (SoretHandler, FillMaps))
    ensures r.0.dof == network.dof && r.0.xGrid == grid
    ensures forall k: nat :: k in r.0.diffusingClusters <==>
              k < |network.diffusionFactors| && !MathUtils.Equal(network.diffusionFactors[k], 0.0)
    ensures StrictlyIncreasing(r.0.diffusingClusters)
    ensures r.0.(diffusingClusters := h.diffusingClusters, dof := h.dof, xGrid := h.xGrid) == h
    ensures TemperatureColumnAdded(ofill, r.1.ofill, r.0.diffusingClusters, network.dof)
    ensures TemperatureColumnAdded(dfill, r.1.dfill, r.0.diffusingClusters, network.dof)
  {
    var clusters := DiffusingBelow(network.diffusionFactors, |network.diffusionFactors|);
    var h' := h.(diffusingClusters := clusters, dof := network.dof, xGrid := grid);
    (h', FillMaps(AppendColumn(ofill, clusters, network.dof), AppendColumn(dfill, clusters, network.dof)))
  }

  /** In an increasing sequence every element other than the last lies below the last. */
  lemma BelowLast(a: seq<nat>, k: nat)
    requires StrictlyIncreasing(a) && a != []
    requires k in a[..|a| - 1]
    ensures k < a[|a| - 1]
  {
    var i :| 0 <= i < |a| - 1 && a[..|a| - 1][i] == k;
    assert a[i] == k;
  }

  /** Dropping the last element of an increasing sequence keeps it increasing. */
  lemma DropLastIncreasing(a: seq<nat>)
    requires StrictlyIncreasing(a) && a != []
    ensures StrictlyIncreasing(a[..|a| - 1])
  {
    var a' := a[..|a| - 1];
    forall i, j | 0 <= i < j < |a'|
      ensures a'[i] < a'[j]
    {
      assert a'[i] == a[i] && a'[j] == a[j];
    }
  }

  /** Two sequences with the same elements. */
  ghost predicate SameElements(a: seq<nat>, b: seq<nat>) {
    forall k :: k in a <==> k in b
  }

  /** Increasing sequences with the same elements end in the same element. */
  lemma SameLast(a: seq<nat>, b: seq<nat>)
    requires StrictlyIncreasing(a) && StrictlyIncreasing(b) && a != [] && b != []
    requires SameElements(a, b)
    ensures a[|a| - 1] == b[|b| - 1]
  {
    var la, lb := a[|a| - 1], b[|b| - 1];
    assert la in a && lb in b;
    assert a == a[..|a| - 1] + [la] && b == b[..|b| - 1] + [lb];
  }

  /** Removing that common last element leaves the same elements. */
  lemma SameWithoutLast(a: seq<nat>, b: seq<nat>)
    requires StrictlyIncreasing(a) && StrictlyIncreasing(b) && a != [] && b != []
    requires SameElements(a, b) && a[|a| - 1] == b[|b| - 1]
    ensures SameElements(a[..|a| - 1], b[..|b| - 1])
  {
    var a', b' := a[..|a| - 1], b[..|b| - 1];
    assert a == a' + [a[|a| - 1]] && b == b' + [b[|b| - 1]];
    forall k
      ensures k in a' <==> k in b'
    {
      if k in a' {
        BelowLast(a, k);
        assert k in b;
      }
      if k in b' {
        BelowLast(b, k);
        assert k in a;
      }
    }
  }

  /** Two increasing sequences with the same elements are equal. */
  lemma {:induction false} IncreasingUnique(a: seq<nat>, b: seq<nat>)
    requires StrictlyIncreasing(a) && StrictlyIncreasing(b)
    requires SameElements(a, b)
    ensures a == b
    decreases |a|
  {
    if a != [] {
      assert a[0] in b;
    }
    if b != [] {
      assert b[0] in a;
    }
    if a != [] && b != [] {
      SameLast(a, b);
      SameWithoutLast(a, b);
      DropLastIncreasing(a);
      DropLastIncreasing(b);
      IncreasingUnique(a[..|a| - 1], b[..|b| - 1]);
      assert a == a[..|a| - 1] + [a[|a| - 1]] && b == b[..|b| - 1] + [b[|b| - 1]];
    }
  }

  /**
   * The diffusing-cluster list of set-up is the only increasing list of the
   * clusters with a nonzero diffusion factor.
   */
  lemma DiffusingClustersCanonical(h: SoretHandler, network: Network, ofill: SparseFillMap,
                                   dfill: SparseFillMap, grid: seq<real>, list: seq<nat>)
    requires StrictlyIncreasing(list)
    requires forall k: nat :: k in list <==> k < |network.diffusionFactors| && !MathUtils.Equal(network.diffusionFactors[k], 0.0)
    ensures Initialize(h, network, ofill, dfill, grid).0.diffusingClusters == list
  {
    var r := Initialize(h, network, ofill, dfill, grid).0.diffusingClusters;
    IncreasingUnique(r, list);
  }

  /**
   * Because set-up clears the previous list first, its outcome depends only
   * on the network, the fill maps and the grid passed in, not on the handler's
   * earlier diffusing clusters, DOF or grid.
   */
  lemma InitializeForgetsPriorSetup(h1: SoretHandler, h2: SoretHandler, network: Network,
                                    ofill: SparseFillMap, dfill: SparseFillMap, grid: seq<real>)
    requires h1.(diffusingClusters := h2.diffusingClusters, dof := h2.dof, xGrid := h2.xGrid) == h2
    ensures Initialize(h1, network, ofill, dfill, grid) == Initialize(h2, network, ofill, dfill, grid)
  {
  }

  /** setHeatFlux stores the flux and nothing else. */
  function SetHeatFlux(h: SoretHandler, flux: real): (r: SoretHandler)
    ensures r.heatFlux == flux
    ensures r.(heatFlux := h.heatFlux) == h
  {
    h.(heatFlux := flux)
  }

  /** setHeatConductivity stores the conductivity and nothing else. */
  function SetHeatConductivity(h: SoretHandler, cond: real): (r: SoretHandler)
    ensures r.heatConductivity == cond
    ensures r.(heatConductivity := h.heatConductivity) == h
  {
    h.(heatConductivity := cond)
  }

  /** updateSurfacePosition stores the position and nothing else. */
  function UpdateSurfacePosition(h: SoretHandler, surfacePos: int): (r: SoretHandler)
    ensures r.surfacePosition == surfacePos
    ensures r.(surfacePosition := h.surfacePosition) == h
  {
    h.(surfacePosition := surfacePos)
  }
}
