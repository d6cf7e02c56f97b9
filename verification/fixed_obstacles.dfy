/** The catalogue of fixed obstacles (pc/src/obstacles/ObstaclesFixes.java):
    five rectangles, of which only the test block is visible to the
    sensors, and the array of visible ones built when the class loads. */
module FixedObstacles {

  datatype ObstacleFixe = TEST | BORD_BAS | BORD_GAUCHE | BORD_DROITE | BORD_HAUT

  /** The declaration order, which `values()` follows. */
  const ALL: seq<ObstacleFixe> := [TEST, BORD_BAS, BORD_GAUCHE, BORD_DROITE, BORD_HAUT]

  /** A rectangle given by its centre and its sizes along x and y, in mm. */
  datatype Obstacle = Rectangular(cx: int, cy: int, sizeX: int, sizeY: int)

  /** getObstacle: the rectangle each entry is declared with. */
  function GetObstacle(o: ObstacleFixe): (r: Obstacle)
    ensures o != TEST ==> r.sizeX == 5 || r.sizeY == 5
    ensures o == TEST ==> r == Rectangular(0, 1000, 50, 50)
  {
    match o
    case TEST => Rectangular(0, 1000, 50, 50)
    case BORD_BAS => Rectangular(0, 0, 3000, 5)
    case BORD_GAUCHE => Rectangular(-1500, 1000, 5, 2000)
    case BORD_DROITE => Rectangular(1500, 1000, 5, 2000)
    case BORD_HAUT => Rectangular(0, 2000, 3000, 5)
  }

  /** The four borders lie along the edges of the table, which spans x from
      -1500 to 1500 and y from 0 to 2000, and each covers its whole edge. */
  lemma BordersFrameTable()
    ensures var b := GetObstacle(BORD_BAS); b.cy == 0 && b.cx - b.sizeX / 2 == -1500 && b.cx + b.sizeX / 2 == 1500
    ensures var h := GetObstacle(BORD_HAUT); h.cy == 2000 && h.cx - h.sizeX / 2 == -1500 && h.cx + h.sizeX / 2 == 1500
    ensures var g := GetObstacle(BORD_GAUCHE); g.cx == -1500 && g.cy - g.sizeY / 2 == 0 && g.cy + g.sizeY / 2 == 2000
    ensures var d := GetObstacle(BORD_DROITE); d.cx == 1500 && d.cy - d.sizeY / 2 == 0 && d.cy + d.sizeY / 2 == 2000
  {
  }

  /** The `visible` flag of each entry. */
  predicate Visible(o: ObstacleFixe)
  {
    o == TEST
  }

  /** The entries of `s` that are visible, in order. */
  function VisibleOf(s: seq<ObstacleFixe>): (r: seq<ObstacleFixe>)
    ensures |r| <= |s|
    ensures forall o :: o in r <==> o in s && Visible(o)
  {
    if |s| == 0 then [] else
      VisibleOf(s[..|s| - 1]) + (if Visible(s[|s| - 1]) then [s[|s| - 1]] else [])
  }

  /** The number of visible entries of `s`. */
  function CountVisible(s: seq<ObstacleFixe>): (n: nat)
    ensures n <= |s|
  {
    if |s| == 0 then 0 else CountVisible(s[..|s| - 1]) + (if Visible(s[|s| - 1]) then 1 else 0)
  }

  /** The count and the filter agree. */
  lemma {:induction false} CountIsLength(s: seq<ObstacleFixe>)
    ensures CountVisible(s) == |VisibleOf(s)|
  {
    if |s| > 0 {
      CountIsLength(s[..|s| - 1]);
    }
  }

  /** One more entry of a prefix extends its filter and its count by that
      entry alone. */
  lemma PrefixStep(s: seq<ObstacleFixe>, k: nat)
    requires k < |s|
    ensures VisibleOf(s[..k + 1]) == VisibleOf(s[..k]) + (if Visible(s[k]) then [s[k]] else [])
    ensures CountVisible(s[..k + 1]) == CountVisible(s[..k]) + (if Visible(s[k]) then 1 else 0)
  {
    assert s[..k + 1][..k] == s[..k];
  }

  /** A prefix never has more visible entries than the whole. */
  lemma {:induction false} CountPrefix(s: seq<ObstacleFixe>, k: nat)
    requires k <= |s|
    ensures CountVisible(s[..k]) <= CountVisible(s)
    decreases |s|
  {
    if k < |s| {
      assert s[..|s| - 1][..k] == s[..k];
      CountPrefix(s[..|s| - 1], k);
    } else {
      assert s[..k] == s;
    }
  }

  /** The first loop of the static initialiser: count the visible entries. */
  method CountVisibles(values: seq<ObstacleFixe>) returns (nbVisibles: nat)
    ensures nbVisibles == CountVisible(values)
  {
    nbVisibles := 0;
    var k := 0;
    while k < |values|
      invariant 0 <= k <= |values|
      invariant nbVisibles == CountVisible(values[..k])
    {
      PrefixStep(values, k);
      if Visible(values[k]) {
        nbVisibles := nbVisibles + 1;
      }
      k := k + 1;
    }
    assert values[..k] == values;
  }

  /** The second loop: write the visible entries into `a` in order. */
  method FillVisibles(values: seq<ObstacleFixe>, a: array<ObstacleFixe>)
    requires a.Length == CountVisible(values)
    modifies a
    ensures a[..] == VisibleOf(values)
  {
    var i := 0;
    var k := 0;
    while k < |values|
      invariant 0 <= k <= |values|
      invariant i == CountVisible(values[..k]) && i <= a.Length
      invariant a[..i] == VisibleOf(values[..k])
    {
      PrefixStep(values, k);
      CountPrefix(values, k + 1);
      if Visible(values[k]) {
        a[i] := values[k];
        i := i + 1;
      }
      k := k + 1;
    }
    assert values[..k] == values;
    assert a[..] == a[..i];
  }

  /** The static initialiser: count the visible entries, allocate an array of
      that size, then fill it with them in declaration order. */
  method VisibleArray(values: seq<ObstacleFixe>) returns (r: seq<ObstacleFixe>)
    ensures |r| == CountVisible(values)
    ensures r == VisibleOf(values)
  {
    var nbVisibles := CountVisibles(values);
    var a := new ObstacleFixe[nbVisibles];
    FillVisibles(values, a);
    r := a[..];
  }

  /** With the current declarations the visible array is [TEST]. */
  lemma OnlyTestVisible()
    ensures VisibleOf(ALL) == [TEST]
  {
    var s1 := [TEST];
    var s2 := s1 + [BORD_BAS];
    var s3 := s2 + [BORD_GAUCHE];
    var s4 := s3 + [BORD_DROITE];
    assert ALL == s4 + [BORD_HAUT];
    assert VisibleOf(s1) == [TEST] by { assert s1[..0] == []; }
    assert VisibleOf(s2) == [TEST] by { assert s2[..1] == s1; }
    assert VisibleOf(s3) == [TEST] by { assert s3[..2] == s2; }
    assert VisibleOf(s4) == [TEST] by { assert s4[..3] == s3; }
    assert ALL[..4] == s4;
  }
}
