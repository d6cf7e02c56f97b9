/** The obstacle grid of the D* Lite pathfinder
    (pc/src/pathfinding/dstarlite/gridspace/GridSpace.java). Grid points are
    numbered 0 .. nbPoints-1; a directed point is a grid point with one of
    its outgoing directions. The static grid holds the points too close to a
    fixed obstacle; its working copy `staticModif` may have some of them
    released. Obstacle masks are lists of directed points, and the bit sets
    of the source are sets of directed points (the directed-point hash
    being one-to-one). The geometry the source computes (neighbours, the
    length of each direction, distances to obstacles) is given as
    functions. */
module DStarGrid {
  import opened Common

  datatype DirectedPoint = DirectedPoint(point: nat, dir: nat)

  /** `neighbour(p)` is the grid point `p` leads to (None off the grid) and
      `dirDistance(d)` the cost of a step in direction `d`. */
  datatype Geometry = Geometry(
    nbPoints: nat,
    neighbour: DirectedPoint -> Option<nat>,
    dirDistance: nat -> int)

  datatype Grid = Grid(staticGrid: set<nat>, staticModif: set<nat>)

  /** The constructor's loop: a point is static when some fixed obstacle is
      within the robot's dilated radius of it (`nearFixed`). */
  method BuildStatic(nbPoints: nat, nearFixed: nat -> bool) returns (g: Grid)
    ensures forall i: nat :: i in g.staticGrid <==> (i < nbPoints && nearFixed(i))
    ensures g.staticModif == g.staticGrid
  {
    var s: set<nat> := {};
    var i := 0;
    while i < nbPoints
      invariant 0 <= i <= nbPoints
      invariant forall k: nat :: k in s <==> (k < i && nearFixed(k))
    {
      if nearFixed(i) {
        s := s + {i};
      }
      i := i + 1;
    }
    g := Grid(s, s);
  }

  /** A directed step is statically impossible when its origin or its
      destination is in the working static grid, or it leaves the grid. */
  predicate StaticallyBlocked(geo: Geometry, g: Grid, p: DirectedPoint)
  {
    p.point in g.staticModif || geo.neighbour(p).None? || geo.neighbour(p).value in g.staticModif
  }

  /** distanceStatique: MAX_VALUE for a blocked step, else the length of
      the direction. */
  function DistanceStatique(geo: Geometry, g: Grid, p: DirectedPoint): (d: int)
    ensures StaticallyBlocked(geo, g, p) ==> d == INT_MAX
    ensures !StaticallyBlocked(geo, g, p) ==> d == geo.dirDistance(p.dir)
  {
    var voisin := geo.neighbour(p);
    if p.point in g.staticModif || voisin.None? || voisin.value in g.staticModif then INT_MAX
    else geo.dirDistance(p.dir)
  }

  /** With direction lengths below MAX_VALUE, the distance is MAX_VALUE
      exactly for the statically blocked steps. */
  lemma DistanceMaxIffBlocked(geo: Geometry, g: Grid, p: DirectedPoint)
    requires geo.dirDistance(p.dir) < INT_MAX
    ensures DistanceStatique(geo, g, p) == INT_MAX <==> StaticallyBlocked(geo, g, p)
  {
  }

  /** The filter the three obstacle loops apply. */
  predicate Kept(geo: Geometry, g: Grid, p: DirectedPoint)
  {
    DistanceStatique(geo, g, p) != INT_MAX
  }

  /** Every directed point of the masks. */
  function MaskPoints(masks: seq<seq<DirectedPoint>>): (s: set<DirectedPoint>)
    ensures forall p :: p in s <==> exists i :: 0 <= i < |masks| && p in masks[i]
  {
    if |masks| == 0 then {}
    else
      var last := masks[|masks| - 1];
      var s := MaskPoints(masks[..|masks| - 1]) + set p | p in last;
      assert forall i :: 0 <= i < |masks| - 1 ==> masks[..|masks| - 1][i] == masks[i];
      s
  }

  /** The points of the masks that the obstacle loops set in a bit set. */
  function KeptPoints(geo: Geometry, g: Grid, masks: seq<seq<DirectedPoint>>): set<DirectedPoint>
  {
    set p | p in MaskPoints(masks) && Kept(geo, g, p)
  }

  /** One obstacle loop: sets the bit of every mask point whose static
      distance is finite, starting from an empty set. */
  method CollectObstacles(geo: Geometry, g: Grid, masks: seq<seq<DirectedPoint>>)
    returns (r: set<DirectedPoint>)
    ensures forall p :: p in r <==> (p in MaskPoints(masks) && Kept(geo, g, p))
  {
    r := {};
    var i := 0;
    while i < |masks|
      invariant 0 <= i <= |masks|
      invariant r == KeptPoints(geo, g, masks[..i])
    {
      var mask := masks[i];
      var j := 0;
      ghost var before := r;
      while j < |mask|
        invariant 0 <= j <= |mask|
        invariant r == before + set p | p in mask[..j] && Kept(geo, g, p)
      {
        if DistanceStatique(geo, g, mask[j]) != INT_MAX {
          r := r + {mask[j]};
        }
        assert mask[..j + 1] == mask[..j] + [mask[j]];
        j := j + 1;
      }
      assert mask[..j] == mask;
      assert masks[..i + 1][..i] == masks[..i];
      i := i + 1;
    }
    assert masks[..i] == masks;
  }

  /** getCurrentObstacles: the kept points of the live obstacles' masks,
      whatever the bit set held before. */
  method CurrentObstacles(geo: Geometry, g: Grid, liveMasks: seq<seq<DirectedPoint>>)
    returns (r: set<DirectedPoint>)
    ensures forall p :: p in r ==> !StaticallyBlocked(geo, g, p)
    ensures forall p :: p in r <==> (p in MaskPoints(liveMasks) && Kept(geo, g, p))
  {
    r := CollectObstacles(geo, g, liveMasks);
  }

  /** getOldAndNewObstacles: the points to free (the masks of obstacles that
      died, on schedule or early) and the points to block (the new
      obstacles' masks), each without the points in both. */
  method OldAndNewObstacles(geo: Geometry, g: Grid,
                            deadMasks: seq<seq<DirectedPoint>>,
                            earlyDeadMasks: seq<seq<DirectedPoint>>,
                            newMasks: seq<seq<DirectedPoint>>)
    returns (freed: set<DirectedPoint>, blocked: set<DirectedPoint>)
    ensures freed * blocked == {}
    ensures forall p :: p in freed ==> !StaticallyBlocked(geo, g, p)
    ensures forall p :: p in blocked ==> !StaticallyBlocked(geo, g, p)
    ensures forall p :: p in freed <==>
      (Kept(geo, g, p) && p in MaskPoints(deadMasks + earlyDeadMasks) && p !in MaskPoints(newMasks))
    ensures forall p :: p in blocked <==>
      (Kept(geo, g, p) && p in MaskPoints(newMasks) && p !in MaskPoints(deadMasks + earlyDeadMasks))
  {
    var oldAll := CollectObstacles(geo, g, deadMasks + earlyDeadMasks);
    var newAll := CollectObstacles(geo, g, newMasks);
    var intersect := newAll * oldAll;
    blocked := newAll - intersect;
    freed := oldAll - intersect;
  }

  // ---------------------------------------------------------------------
  // addObstacleAndRemoveNearbyObstacles
  // ---------------------------------------------------------------------

  /** The elements of `xs` that `drop` does not select, in order. */
  function Remove<T>(xs: seq<T>, drop: T -> bool): (ys: seq<T>)
    ensures |ys| <= |xs|
    ensures forall y :: y in ys ==> y in xs && !drop(y)
    ensures forall x :: x in xs && !drop(x) ==> x in ys
  {
    if |xs| == 0 then []
    else
      var rest := Remove(xs[1..], drop);
      assert forall x :: x in xs[1..] ==> x in xs;
      assert forall x :: x in xs ==> x == xs[0] || x in xs[1..];
      if drop(xs[0]) then rest else [xs[0]] + rest
  }

  /** Removing twice with the same test removes nothing more. */
  lemma {:induction false} RemoveIdempotent<T>(xs: seq<T>, drop: T -> bool)
    ensures Remove(Remove(xs, drop), drop) == Remove(xs, drop)
  {
    if |xs| > 0 {
      RemoveIdempotent(xs[1..], drop);
    }
  }

  /** addObstacleAndRemoveNearbyObstacles: the live proximity obstacles
      whose centre is near the new one's position (`near`, the source's
      isProcheCentre at the configured distance) are removed, then the new
      obstacle is added last. */
  function AddObstacleAndRemoveNearby<T>(live: seq<T>, obstacle: T, near: T -> bool): (r: seq<T>)
    ensures |r| > 0 && r[|r| - 1] == obstacle
    ensures forall i :: 0 <= i < |r| - 1 ==> !near(r[i]) && r[i] in live
    ensures forall o :: o in live && !near(o) ==> o in r
  {
    var kept := Remove(live, near);
    assert forall i :: 0 <= i < |kept| ==> kept[i] in kept;
    kept + [obstacle]
  }

  // ---------------------------------------------------------------------
  // disableObstaclesFixes
  // ---------------------------------------------------------------------

  /** disableObstaclesFixes: the working grid restarts from the static grid
      and releases the points `release` selects (close to the given position,
      or inside the given obstacle). */
  method DisableObstaclesFixes(g: Grid, nbPoints: nat, release: nat -> bool) returns (r: Grid)
    requires forall i :: i in g.staticGrid ==> i < nbPoints
    ensures r.staticGrid == g.staticGrid
    ensures r.staticModif <= r.staticGrid
    ensures forall i: nat :: i in r.staticModif <==> (i in g.staticGrid && !release(i))
  {
    var modif := g.staticGrid;
    var i := 0;
    while i < nbPoints
      invariant 0 <= i <= nbPoints
      invariant forall k: nat :: k in modif <==> (k in g.staticGrid && !(k < i && release(k)))
    {
      if i in modif && release(i) {
        modif := modif - {i};
      }
      i := i + 1;
    }
    r := Grid(g.staticGrid, modif);
  }

  /** Disabling is not cumulative: the result depends on the static grid
      only, not on the points released before. */
  method DisableTwice(g: Grid, nbPoints: nat, first: nat -> bool, second: nat -> bool)
    returns (once: Grid, twice: Grid)
    requires forall i :: i in g.staticGrid ==> i < nbPoints
    ensures twice.staticModif == once.staticModif
    ensures forall i: nat :: i in twice.staticModif <==> (i in g.staticGrid && !second(i))
  {
    var mid := DisableObstaclesFixes(g, nbPoints, first);
    twice := DisableObstaclesFixes(mid, nbPoints, second);
    once := DisableObstaclesFixes(g, nbPoints, second);
  }
}
