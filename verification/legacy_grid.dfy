/** The connection cache of the legacy pathfinder (pc/src/pathfinding/GridSpace.java).
    The N pathfinding nodes are numbered 0 .. N-1. A static model, computed
    once, marks the node pairs whose segment crosses a fixed obstacle as
    ALWAYS_IMPOSSIBLE and leaves the others unknown (null); the cache starts
    as a copy of the model and fills unknown entries lazily, symmetrically.
    The obstacle manager's segment tests are given as values or functions. */
module LegacyGrid {
  import opened Common

  datatype Connection = AlwaysImpossible | TmpImpossible | Possible

  /** NodesConnection.isTraversable: only POSSIBLE can be travelled. */
  predicate Traversable(c: Connection)
  {
    c == Possible
  }

  type Table = seq<seq<Option<Connection>>>

  datatype Space = Space(n: nat, model: Table, cache: Table, avoidGameElement: bool, hashTable: int)

  predicate Square(n: nat, t: Table)
  {
    |t| == n && forall i :: 0 <= i < n ==> |t[i]| == n
  }

  predicate Symmetric(n: nat, t: Table)
    requires Square(n, t)
  {
    forall i, j :: 0 <= i < n && 0 <= j < n ==> t[i][j] == t[j][i]
  }

  /** The invariant of a grid space. The model only holds
      ALWAYS_IMPOSSIBLE or null and is symmetric (the fixed-obstacle test
      on a segment does not depend on its direction); the cache is symmetric
      and holds ALWAYS_IMPOSSIBLE exactly where the model does. */
  ghost predicate Valid(s: Space)
  {
    && Square(s.n, s.model) && Square(s.n, s.cache)
    && Symmetric(s.n, s.model) && Symmetric(s.n, s.cache)
    && (forall i, j :: 0 <= i < s.n && 0 <= j < s.n ==>
          s.model[i][j] == None || s.model[i][j] == Some(AlwaysImpossible))
    && (forall i, j :: 0 <= i < s.n && 0 <= j < s.n ==>
          (s.cache[i][j] == Some(AlwaysImpossible) <==> s.model[i][j] == Some(AlwaysImpossible)))
  }

  /** initStatic: ALWAYS_IMPOSSIBLE where a fixed obstacle lies in the
      segment, null elsewhere. */
  function InitStatic(n: nat, fixedInSegment: (nat, nat) -> bool): (t: Table)
    ensures Square(n, t)
    ensures forall i, j :: 0 <= i < n && 0 <= j < n ==>
      (t[i][j] == Some(AlwaysImpossible) <==> fixedInSegment(i, j)) &&
      (t[i][j] == None <==> !fixedInSegment(i, j))
  {
    seq(n, i requires 0 <= i < n =>
      seq(n, j requires 0 <= j < n => if fixedInSegment(i, j) then Some(AlwaysImpossible) else None))
  }

  /** The constructor: the model from the fixed obstacles, then a reinit. */
  function NewSpace(n: nat, fixedInSegment: (nat, nat) -> bool, hashTable: int): (s: Space)
    requires forall i: nat, j: nat :: fixedInSegment(i, j) == fixedInSegment(j, i)
    ensures Valid(s)
    ensures s.cache == s.model && s.avoidGameElement && s.hashTable == hashTable
  {
    var model := InitStatic(n, fixedInSegment);
    Space(n, model, model, true, hashTable)
  }

  /** reinitConnections: the cache becomes the model again. */
  function Reinit(s: Space): (r: Space)
    requires Valid(s)
    ensures Valid(r)
    ensures forall i, j :: 0 <= i < r.n && 0 <= j < r.n ==> r.cache[i][j] == r.model[i][j]
    ensures r.model == s.model && r.n == s.n && r.avoidGameElement == s.avoidGameElement && r.hashTable == s.hashTable
  {
    s.(cache := s.model)
  }

  /** The cache with entry (i, j) and its mirror set to `c`. */
  function SetPair(t: Table, n: nat, i: nat, j: nat, c: Option<Connection>): (r: Table)
    requires Square(n, t) && i < n && j < n
    ensures Square(n, r)
    ensures r[i][j] == c && r[j][i] == c
    ensures forall a, b :: 0 <= a < n && 0 <= b < n && !(a == i && b == j) && !(a == j && b == i) ==>
      r[a][b] == t[a][b]
  {
    var t1 := t[i := t[i][j := c]];
    t1[j := t1[j][i := c]]
  }

  /** The classification of a cache miss: a proximity obstacle in the
      segment, or a game element while they are avoided, makes it
      temporarily impossible; otherwise it is possible. */
  function Classify(proximityInSegment: bool, avoidGameElement: bool, tableInSegment: bool): Connection
  {
    if proximityInSegment then TmpImpossible
    else if avoidGameElement && tableInSegment then TmpImpossible
    else Possible
  }

  /** isTraversable(i, j): a cached entry answers without consulting the
      obstacles; a miss is classified, stored at (i, j) and (j, i), and
      answered. `proximityInSegment` and `tableInSegment` are the obstacle
      manager's answers for the segment from i to j. */
  function IsTraversable(s: Space, i: nat, j: nat, proximityInSegment: bool, tableInSegment: bool)
    : (r: (Space, bool))
    requires Valid(s) && i < s.n && j < s.n
    ensures Valid(r.0)
    ensures r.0.model == s.model && r.0.n == s.n
    ensures r.0.cache[i][j].Some? && r.0.cache[i][j] == r.0.cache[j][i]
    ensures r.1 <==> Traversable(r.0.cache[i][j].value)
    ensures s.cache[i][j].Some? ==> r.0 == s
    ensures s.cache[i][j].None? ==>
      r.0.cache[i][j] == Some(Classify(proximityInSegment, s.avoidGameElement, tableInSegment))
    ensures forall a, b :: 0 <= a < s.n && 0 <= b < s.n && !(a == i && b == j) && !(a == j && b == i) ==>
      r.0.cache[a][b] == s.cache[a][b]
  {
    match s.cache[i][j]
    case Some(c) => (s, Traversable(c))
    case None =>
      var c := Classify(proximityInSegment, s.avoidGameElement, tableInSegment);
      var cache := SetPair(s.cache, s.n, i, j, Some(c));
      var r := s.(cache := cache);
      assert s.model[i][j] != Some(AlwaysImpossible);
      assert Valid(r);
      (r, Traversable(c))
  }

  /** The model's ALWAYS_IMPOSSIBLE entries are never lost: whatever
      sequence of lookups and reinits runs, they stay in the cache. */
  lemma AlwaysImpossibleSurvives(s: Space, i: nat, j: nat, a: nat, b: nat, prox: bool, table: bool)
    requires Valid(s) && i < s.n && j < s.n && a < s.n && b < s.n
    requires s.model[a][b] == Some(AlwaysImpossible)
    ensures IsTraversable(s, i, j, prox, table).0.cache[a][b] == Some(AlwaysImpossible)
    ensures Reinit(s).cache[a][b] == Some(AlwaysImpossible)
    ensures !IsTraversable(s, a, b, prox, table).1
  {
  }

  datatype GridSpaceException = GridSpaceException

  const FLOAT_MAX: real := 340282346638528859811704183484516925440.0

  /** nearestReachableNode: the first node, in declaration order, of
      smallest squared distance among those whose segment from the point
      meets no proximity obstacle (`dist[k]` the squared distance to node
      k, `blocked[k]` the obstacle test); GridSpaceException when there is
      none. The running minimum starts at Float.MAX_VALUE and the
      comparison is strict. */
  method NearestReachableNode(dist: seq<real>, blocked: seq<bool>) returns (r: Result<nat, GridSpaceException>)
    requires |dist| == |blocked|
    ensures r.Err? <==> forall k :: 0 <= k < |dist| ==> blocked[k] || dist[k] >= FLOAT_MAX
    ensures r.Ok? ==> r.value < |dist| && !blocked[r.value] && dist[r.value] < FLOAT_MAX
    ensures r.Ok? ==> forall k :: 0 <= k < |dist| && !blocked[k] ==> dist[r.value] <= dist[k]
    ensures r.Ok? ==> forall k :: 0 <= k < r.value && !blocked[k] ==> dist[r.value] < dist[k]
  {
    var best: Option<nat> := None;
    var distanceMin := FLOAT_MAX;
    var i := 0;
    while i < |dist|
      invariant 0 <= i <= |dist|
      invariant best.None? ==> distanceMin == FLOAT_MAX
      invariant best.None? ==> forall k :: 0 <= k < i ==> blocked[k] || dist[k] >= FLOAT_MAX
      invariant best.Some? ==> best.value < i && !blocked[best.value] && dist[best.value] == distanceMin
      invariant best.Some? ==> distanceMin < FLOAT_MAX
      invariant forall k :: 0 <= k < i && !blocked[k] ==> distanceMin <= dist[k]
      invariant best.Some? ==> forall k :: 0 <= k < best.value && !blocked[k] ==> distanceMin < dist[k]
    {
      if dist[i] < distanceMin && !blocked[i] {
        distanceMin := dist[i];
        best := Some(i);
      }
      i := i + 1;
    }
    if best.None? {
      r := Err(GridSpaceException);
    } else {
      r := Ok(best.value);
    }
  }

  /** copy(other): reinits this cache when stale obstacles were removed or
      the game table's hash changed, then hands its game-element setting and
      hash to `other`, whose cache it leaves as it was. */
  function Copy(s: Space, other: Space, removedObsolete: bool, newHashTable: int): (r: (Space, Space))
    requires Valid(s) && Valid(other)
    ensures Valid(r.0) && Valid(r.1)
    ensures (removedObsolete || newHashTable != s.hashTable) ==> r.0.cache == s.model
    ensures !(removedObsolete || newHashTable != s.hashTable) ==> r.0.cache == s.cache
    ensures r.0.hashTable == newHashTable && r.1.hashTable == newHashTable
    ensures r.1.avoidGameElement == s.avoidGameElement && r.1.cache == other.cache
  {
    var hasChanged := removedObsolete || s.hashTable != newHashTable;
    var s1 := if hasChanged then Reinit(s) else s;
    (s1.(hashTable := newHashTable), other.(avoidGameElement := s.avoidGameElement, hashTable := newHashTable))
  }

  /** creer_obstacle: a new obstacle always invalidates the cache. */
  function CreerObstacle(s: Space): (r: Space)
    requires Valid(s)
    ensures Valid(r)
    ensures r.n == s.n
    ensures forall i, j :: 0 <= i < s.n && 0 <= j < s.n ==> r.cache[i][j] == s.model[i][j]
  {
    Reinit(s)
  }
}
