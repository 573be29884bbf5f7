/**
 * The Xe reaction-channel validator of the NE (nuclear fuel) network.
 *
 * For a pair of cluster tiles (i, j) the validator computes the range of Xe
 * amounts a product of the two could hold, scans every tile k in index order,
 * and records each overlapping tile as a production triple {i, j, k} in the
 * two-slot entry prodSet(i, j); under some conditions it also records a
 * dissociation triple {k, i, j} in dissSet(i, j).
 *
 * Only the Xe axis of a tile is modelled: a tile is the half-open amount
 * interval [begin, end), whose exclusive end is the region's upper limit point.
 */
module NEReaction {

  /** One cluster tile on the Xe axis: the amounts begin, begin + 1, ..., end - 1. */
  datatype Tile = Tile(begin: nat, end: nat)

  /** The tiling never produces an empty or inverted region. */
  predicate WellFormed(t: Tile) {
    t.begin < t.end
  }

  predicate AllWellFormed(tiles: seq<Tile>) {
    forall k :: 0 <= k < |tiles| ==> WellFormed(tiles[k])
  }

  /** Xe amount a belongs to the tile. */
  predicate Contains(t: Tile, a: int) {
    t.begin <= a < t.end
  }

  /** The region's upper limit point on the Xe axis (exclusive). */
  function UpperLimit(t: Tile): nat {
    t.end
  }

  /** A simplex region holds exactly one composition. */
  predicate IsSimplex(t: Tile) {
    t.end == t.begin + 1
  }

  /** An ordered triple of cluster ids, as stored in a reaction slot. */
  datatype ClusterSet = ClusterSet(first: nat, second: nat, third: nat)

  /** One entry of prodSet or dissSet: two reaction slots. */
  datatype SlotPair = SlotPair(first: ClusterSet, second: ClusterSet)

  /** Inclusive range of Xe amounts a product may hold. */
  datatype Bounds = Bounds(low: int, high: int)

  /**
   * The product range of two tiles. The upper limits are exclusive, so the
   * largest amounts are end - 1 and the largest sum is end1 + end2 - 2; since
   * both ends are at least 1 the unsigned subtraction in the source cannot wrap.
   * The two unsigned additions are taken without wrap-around: amounts are
   * assumed far below the range of the amount type.
   * The range is exactly the set of sums of one amount from each tile.
   */
  function ProductBounds(t1: Tile, t2: Tile): (b: Bounds)
    requires WellFormed(t1) && WellFormed(t2)
    ensures b.low <= b.high
    ensures Contains(t1, t1.begin) && Contains(t2, t2.begin) && b.low == t1.begin + t2.begin
    ensures Contains(t1, t1.end - 1) && Contains(t2, t2.end - 1) && b.high == (t1.end - 1) + (t2.end - 1)
    ensures forall a1, a2 :: Contains(t1, a1) && Contains(t2, a2) ==> b.low <= a1 + a2 <= b.high
  {
    Bounds(t1.begin + t2.begin, UpperLimit(t1) + UpperLimit(t2) - 2)
  }

  /** The bounds test of the scan: reject when the tile starts above high or ends below low. */
  predicate Accepts(tk: Tile, b: Bounds) {
    if tk.begin > b.high then false
    else if tk.end - 1 < b.low then false
    else true
  }

  /** Accepting a tile means its inclusive amount range meets [low, high]. */
  lemma AcceptsIffOverlap(tk: Tile, b: Bounds)
    requires WellFormed(tk) && b.low <= b.high
    ensures Accepts(tk, b) <==> exists a :: Contains(tk, a) && b.low <= a <= b.high
  {
    if Accepts(tk, b) {
      var a := if tk.begin < b.low then b.low else tk.begin;
      assert Contains(tk, a) && b.low <= a <= b.high;
    }
  }

  /** Preconditions shared by every scan of the pair (i, j). */
  predicate ValidPair(tiles: seq<Tile>, i: nat, j: nat) {
    AllWellFormed(tiles) && i < |tiles| && j < |tiles|
  }

  /** Tile k is accepted as a product of the pair (i, j). */
  predicate IsProduct(tiles: seq<Tile>, i: nat, j: nat, k: nat)
    requires ValidPair(tiles, i, j) && k < |tiles|
  {
    Accepts(tiles[k], ProductBounds(tiles[i], tiles[j]))
  }

  /**
   * A tile is accepted exactly when it holds an amount that is the sum of one
   * amount of each reactant tile.
   */
  lemma ProductIffReachableSum(tiles: seq<Tile>, i: nat, j: nat, k: nat)
    requires ValidPair(tiles, i, j) && k < |tiles|
    ensures IsProduct(tiles, i, j, k) <==>
              exists a1, a2 :: Contains(tiles[i], a1) && Contains(tiles[j], a2) && Contains(tiles[k], a1 + a2)
  {
    var t1, t2, tk := tiles[i], tiles[j], tiles[k];
    var b := ProductBounds(t1, t2);
    AcceptsIffOverlap(tk, b);
    if IsProduct(tiles, i, j, k) {
      var a :| Contains(tk, a) && b.low <= a <= b.high;
      var a1 := if a - t2.begin <= t1.end - 1 then a - t2.begin else t1.end - 1;
      var a2 := a - a1;
      assert Contains(t1, a1) && Contains(t2, a2) && Contains(tk, a1 + a2);
    }
  }

  /** The accepted tiles among the first n. */
  function AcceptedBelow(tiles: seq<Tile>, i: nat, j: nat, n: nat): set<nat>
    requires ValidPair(tiles, i, j) && n <= |tiles|
  {
    set k: nat | k < n && IsProduct(tiles, i, j, k)
  }

  /** At least one reactant is a single composition. */
  predicate SomeSimplex(tiles: seq<Tile>, i: nat, j: nat)
    requires i < |tiles| && j < |tiles|
  {
    IsSimplex(tiles[i]) || IsSimplex(tiles[j])
  }

  /** One of the reactants starts at a single Xe atom. */
  predicate UnitReactant(tiles: seq<Tile>, i: nat, j: nat)
    requires i < |tiles| && j < |tiles|
  {
    tiles[i].begin == 1 || tiles[j].begin == 1
  }

  /** The scan's local state: the product counter and the two entries being filled. */
  datatype Scan = Scan(nProd: nat, prod: SlotPair, diss: SlotPair)

  /** Write triple c into the first slot when nothing was counted yet, else into the second. */
  function Fill(p: SlotPair, nProd: nat, c: ClusterSet): SlotPair {
    if nProd == 0 then p.(first := c) else p.(second := c)
  }

  /** One iteration of the scan, for tile k. */
  function Step(tiles: seq<Tile>, i: nat, j: nat, k: nat, s: Scan): Scan
    requires ValidPair(tiles, i, j) && k < |tiles|
  {
    if !IsProduct(tiles, i, j, k) then s
    else
      var prod := Fill(s.prod, s.nProd, ClusterSet(i, j, k));
      if !IsSimplex(tiles[i]) && !IsSimplex(tiles[j]) then
        s.(prod := prod)
      else
        var diss := if UnitReactant(tiles, i, j) then Fill(s.diss, s.nProd, ClusterSet(k, i, j)) else s.diss;
        Scan(s.nProd + 1, prod, diss)
  }

  /** The scan state after tiles 0 .. n-1, starting from the entries prod0, diss0. */
  function ScanUpTo(tiles: seq<Tile>, i: nat, j: nat, n: nat, prod0: SlotPair, diss0: SlotPair): Scan
    requires ValidPair(tiles, i, j) && n <= |tiles|
    decreases n
  {
    if n == 0 then Scan(0, prod0, diss0)
    else Step(tiles, i, j, n - 1, ScanUpTo(tiles, i, j, n - 1, prod0, diss0))
  }

  predicate IsLeast(s: set<nat>, x: nat) {
    x in s && forall y :: y in s ==> x <= y
  }

  predicate IsGreatest(s: set<nat>, x: nat) {
    x in s && forall y :: y in s ==> y <= x
  }

  /**
   * Outcome when some reactant is a simplex: one product per accepted tile is
   * counted, the first accepted tile lands in the first slot and the last one
   * in the second slot; dissociations mirror this with the triple reordered
   * to {k, i, j} when a reactant starts at one Xe atom, and are untouched
   * otherwise.
   */
  ghost predicate SimplexOutcome(tiles: seq<Tile>, i: nat, j: nat, n: nat, prod0: SlotPair, diss0: SlotPair, s: Scan)
    requires ValidPair(tiles, i, j) && n <= |tiles|
  {
    var acc := AcceptedBelow(tiles, i, j, n);
    && s.nProd == |acc|
    && (|acc| == 0 ==> s.prod == prod0 && s.diss == diss0)
    && (|acc| >= 1 ==>
          s.prod.first == ClusterSet(i, j, s.prod.first.third) && IsLeast(acc, s.prod.first.third))
    && (|acc| == 1 ==> s.prod.second == prod0.second)
    && (|acc| >= 2 ==>
          s.prod.second == ClusterSet(i, j, s.prod.second.third) && IsGreatest(acc, s.prod.second.third))
    && (UnitReactant(tiles, i, j) && |acc| >= 1 ==> s.diss.first == ClusterSet(s.prod.first.third, i, j))
    && (UnitReactant(tiles, i, j) && |acc| == 1 ==> s.diss.second == diss0.second)
    && (UnitReactant(tiles, i, j) && |acc| >= 2 ==> s.diss.second == ClusterSet(s.prod.second.third, i, j))
    && (!UnitReactant(tiles, i, j) ==> s.diss == diss0)
  }

  /**
   * Outcome when both reactants are grouped: the counter never advances, so
   * every accepted tile overwrites the first production slot (the last one
   * wins), the second slot and the dissociation entry are never written.
   */
  ghost predicate GroupedOutcome(tiles: seq<Tile>, i: nat, j: nat, n: nat, prod0: SlotPair, diss0: SlotPair, s: Scan)
    requires ValidPair(tiles, i, j) && n <= |tiles|
  {
    var acc := AcceptedBelow(tiles, i, j, n);
    && s.nProd == 0
    && (|acc| == 0 ==> s.prod == prod0)
    && (|acc| >= 1 ==>
          s.prod.first == ClusterSet(i, j, s.prod.first.third) && IsGreatest(acc, s.prod.first.third))
    && s.prod.second == prod0.second
    && s.diss == diss0
  }

  /** The accepted set grows by tile n exactly when tile n is accepted. */
  lemma AcceptedBelowSucc(tiles: seq<Tile>, i: nat, j: nat, n: nat)
    requires ValidPair(tiles, i, j) && n < |tiles|
    ensures n !in AcceptedBelow(tiles, i, j, n)
    ensures IsProduct(tiles, i, j, n) ==>
              AcceptedBelow(tiles, i, j, n + 1) == AcceptedBelow(tiles, i, j, n) + {n}
              && |AcceptedBelow(tiles, i, j, n + 1)| == |AcceptedBelow(tiles, i, j, n)| + 1
    ensures !IsProduct(tiles, i, j, n) ==> AcceptedBelow(tiles, i, j, n + 1) == AcceptedBelow(tiles, i, j, n)
  {
    var a := AcceptedBelow(tiles, i, j, n);
    var b := AcceptedBelow(tiles, i, j, n + 1);
    if IsProduct(tiles, i, j, n) {
      assert b == a + {n};
    } else {
      assert b == a;
    }
  }

  /** Every element of the accepted prefix lies below n. */
  lemma AcceptedBelowBound(tiles: seq<Tile>, i: nat, j: nat, n: nat)
    requires ValidPair(tiles, i, j) && n <= |tiles|
    ensures forall y :: y in AcceptedBelow(tiles, i, j, n) ==> y < n
  {
  }

  lemma {:induction false} ScanSimplex(tiles: seq<Tile>, i: nat, j: nat, n: nat, prod0: SlotPair, diss0: SlotPair)
    requires ValidPair(tiles, i, j) && n <= |tiles|
    requires SomeSimplex(tiles, i, j)
    ensures SimplexOutcome(tiles, i, j, n, prod0, diss0, ScanUpTo(tiles, i, j, n, prod0, diss0))
  {
    if n > 0 {
      var m := n - 1;
      ScanSimplex(tiles, i, j, m, prod0, diss0);
      AcceptedBelowSucc(tiles, i, j, m);
      AcceptedBelowBound(tiles, i, j, m);
      var acc := AcceptedBelow(tiles, i, j, m);
      if IsProduct(tiles, i, j, m) && |acc| == 0 {
        assert acc == {};
        assert AcceptedBelow(tiles, i, j, n) == {m};
      }
    }
  }

  lemma {:induction false} ScanGrouped(tiles: seq<Tile>, i: nat, j: nat, n: nat, prod0: SlotPair, diss0: SlotPair)
    requires ValidPair(tiles, i, j) && n <= |tiles|
    requires !SomeSimplex(tiles, i, j)
    ensures GroupedOutcome(tiles, i, j, n, prod0, diss0, ScanUpTo(tiles, i, j, n, prod0, diss0))
  {
    if n > 0 {
      var m := n - 1;
      ScanGrouped(tiles, i, j, m, prod0, diss0);
      AcceptedBelowSucc(tiles, i, j, m);
      AcceptedBelowBound(tiles, i, j, m);
    }
  }

  /** The triangular tables prodSet and dissSet, keyed by the pair (i, j). */
  type Table = map<(nat, nat), SlotPair>

  /** Only the entry at key may differ between the two tables. */
  predicate OnlyEntryChanged(before: Table, after: Table, key: (nat, nat)) {
    && after.Keys == before.Keys
    && forall q :: q in before && q != key ==> after[q] == before[q]
  }

  /**
   * The validator for the pair (i, j): a loop over every tile index in
   * increasing order, including i and j themselves. Only the (i, j) entries of
   * the two tables are written, and they end in the outcome stated above.
   */
  method Validate(tiles: seq<Tile>, i: nat, j: nat, prodSet: Table, dissSet: Table)
    returns (prodSet': Table, dissSet': Table)
    requires ValidPair(tiles, i, j)
    requires (i, j) in prodSet && (i, j) in dissSet
    ensures OnlyEntryChanged(prodSet, prodSet', (i, j))
    ensures OnlyEntryChanged(dissSet, dissSet', (i, j))
    ensures SomeSimplex(tiles, i, j) ==>
              exists c: nat :: SimplexOutcome(tiles, i, j, |tiles|, prodSet[(i, j)], dissSet[(i, j)],
                                              Scan(c, prodSet'[(i, j)], dissSet'[(i, j)]))
    ensures !SomeSimplex(tiles, i, j) ==>
              GroupedOutcome(tiles, i, j, |tiles|, prodSet[(i, j)], dissSet[(i, j)],
                             Scan(0, prodSet'[(i, j)], dissSet'[(i, j)]))
  {
    var prod0 := prodSet[(i, j)];
    var diss0 := dissSet[(i, j)];
    var bounds := ProductBounds(tiles[i], tiles[j]);
    var nProd: nat := 0;
    var prod := prod0;
    var diss := diss0;
    var k := 0;
    while k < |tiles|
      invariant k <= |tiles|
      invariant Scan(nProd, prod, diss) == ScanUpTo(tiles, i, j, k, prod0, diss0)
    {
      var good := true;
      if tiles[k].begin > bounds.high {
        good := false;
      } else if tiles[k].end - 1 < bounds.low {
        good := false;
      }
      if good {
        if nProd == 0 {
          prod := prod.(first := ClusterSet(i, j, k));
        } else {
          prod := prod.(second := ClusterSet(i, j, k));
        }
        if !IsSimplex(tiles[i]) && !IsSimplex(tiles[j]) {
          k := k + 1;
          continue;
        }
        if tiles[i].begin == 1 || tiles[j].begin == 1 {
          if nProd == 0 {
            diss := diss.(first := ClusterSet(k, i, j));
          } else {
            diss := diss.(second := ClusterSet(k, i, j));
          }
        }
        nProd := nProd + 1;
      }
      k := k + 1;
    }
    if SomeSimplex(tiles, i, j) {
      ScanSimplex(tiles, i, j, |tiles|, prod0, diss0);
      assert SimplexOutcome(tiles, i, j, |tiles|, prod0, diss0, Scan(nProd, prod, diss));
    } else {
      ScanGrouped(tiles, i, j, |tiles|, prod0, diss0);
    }
    prodSet' := prodSet[(i, j) := prod];
    dissSet' := dissSet[(i, j) := diss];
  }
}
