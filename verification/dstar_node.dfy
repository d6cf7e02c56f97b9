/** A node of the D* Lite search (pc/src/pathfinding/dstarlite/DStarLiteNode.java).
    Nodes are reused across searches: each search has a number, and a node
    whose stamp `nbPF` is not the current search's number is reset the first
    time the search touches it. */
module DStarNode {
  import opened Common

  /** `gridpoint` is the grid point's hash code; `key` is the priority key,
      which update leaves alone. */
  datatype Node = Node(gridpoint: int, key: (int, int), g: int, rhs: int, inOpenSet: bool, nbPF: int)

  /** The constructor: infinite costs, outside the open set, stamp 0. */
  function NewNode(gridpoint: int, key: (int, int)): (n: Node)
    ensures n.gridpoint == gridpoint && n.key == key
    ensures n.g == INT_MAX && n.rhs == INT_MAX && !n.inOpenSet && n.nbPF == 0
  {
    Node(gridpoint, key, INT_MAX, INT_MAX, false, 0)
  }

  /** update: resets the search fields and takes the stamp when the stamp
      differs; otherwise changes nothing. */
  function Update(node: Node, nbPF: int): (r: Node)
    ensures r.nbPF == nbPF
    ensures r.gridpoint == node.gridpoint && r.key == node.key
    ensures node.nbPF == nbPF ==> r == node
    ensures node.nbPF != nbPF ==> r.g == INT_MAX && r.rhs == INT_MAX && !r.inOpenSet
  {
    if node.nbPF != nbPF then node.(g := INT_MAX, rhs := INT_MAX, inOpenSet := false, nbPF := nbPF)
    else node
  }

  /** The search fields as search `nbPF` is entitled to see them: the
      stored ones when the node carries its stamp, the fresh ones otherwise. */
  function Observed(node: Node, nbPF: int): (int, int, bool)
  {
    if node.nbPF == nbPF then (node.g, node.rhs, node.inOpenSet) else (INT_MAX, INT_MAX, false)
  }

  /** update is idempotent. */
  lemma UpdateIdempotent(node: Node, nbPF: int)
    ensures Update(Update(node, nbPF), nbPF) == Update(node, nbPF)
  {
  }

  /** The lazy reset is invisible to the search that performs it: after
      update, the stored fields are what that search was entitled to see. */
  lemma UpdateMaterialisesObserved(node: Node, nbPF: int)
    ensures var r := Update(node, nbPF);
      (r.g, r.rhs, r.inOpenSet) == Observed(node, nbPF) && Observed(r, nbPF) == Observed(node, nbPF)
  {
  }

  /** A node touched by a later search looks fresh to it, whatever an earlier
      search left in it. */
  lemma NewSearchSeesFreshNode(node: Node, earlier: int, later: int)
    requires earlier != later
    ensures Observed(Update(node, earlier), later) == Observed(NewNode(node.gridpoint, node.key), later)
  {
  }

  /** hashCode is the grid point's hash code. */
  function HashCode(node: Node): (h: int)
    ensures h == node.gridpoint
  {
    node.gridpoint
  }

  /** equals compares hash codes only: two nodes are equal exactly when
      they stand for the same grid point, whatever their search fields. */
  function Equals(a: Node, b: Node): (e: bool)
    ensures e <==> a.gridpoint == b.gridpoint
  {
    a.gridpoint == HashCode(b)
  }

  lemma EqualsIgnoresSearchState(node: Node, n: int)
    ensures Equals(node, Update(node, n)) && Equals(Update(node, n), node)
  {
  }
}
