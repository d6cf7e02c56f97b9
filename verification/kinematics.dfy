/** Robot kinematic state and its quantising hash (pc/src/robot/Cinematique.java).
    The hash files a pose into a cell of 15 mm by 15 mm, a curvature bin and
    one of twelve orientation sectors of pi/6; it doubles as the equality
    test. The maximal speed is an enumeration that is not part of this
    model; it is kept as an opaque identifier. */
module Kinematics {
  import opened Common

  datatype Cinematique = Cinematique(
    x: real, y: real, orientation: real, enMarcheAvant: bool, courbure: real,
    vitesseTranslation: real, vitesseRotation: real, vitesseMax: Option<nat>)

  /** The empty constructor: every field at its default. */
  function Empty(): (c: Cinematique)
    ensures c.x == 0.0 && c.y == 0.0 && c.orientation == 0.0 && !c.enMarcheAvant
    ensures c.courbure == 0.0 && c.vitesseTranslation == 0.0 && c.vitesseRotation == 0.0
    ensures c.vitesseMax.None?
  {
    Cinematique(0.0, 0.0, 0.0, false, 0.0, 0.0, 0.0, None)
  }

  /** The copy constructor: direction, curvature and speeds are copied;
      position and orientation are left at their defaults. */
  function CopyConstruct(c: Cinematique): (r: Cinematique)
    ensures r.enMarcheAvant == c.enMarcheAvant && r.courbure == c.courbure
    ensures r.vitesseTranslation == c.vitesseTranslation && r.vitesseRotation == c.vitesseRotation
    ensures r.vitesseMax == c.vitesseMax
    ensures r.x == 0.0 && r.y == 0.0 && r.orientation == 0.0
  {
    Empty().(enMarcheAvant := c.enMarcheAvant, courbure := c.courbure,
             vitesseTranslation := c.vitesseTranslation, vitesseRotation := c.vitesseRotation,
             vitesseMax := c.vitesseMax)
  }

  /** copy(autre): every field of `autre` takes this state's value. */
  function Copy(src: Cinematique, autre: Cinematique): (r: Cinematique)
    ensures r.x == src.x && r.y == src.y && r.orientation == src.orientation
    ensures r.enMarcheAvant == src.enMarcheAvant && r.courbure == src.courbure
    ensures r.vitesseTranslation == src.vitesseTranslation && r.vitesseRotation == src.vitesseRotation
    ensures r.vitesseMax == src.vitesseMax
  {
    autre.(x := src.x, y := src.y, orientation := src.orientation, enMarcheAvant := src.enMarcheAvant,
           courbure := src.courbure, vitesseRotation := src.vitesseRotation,
           vitesseTranslation := src.vitesseTranslation, vitesseMax := src.vitesseMax)
  }

  /** The copy constructor followed by copy gives back the whole state;
      the copy constructor alone loses the pose unless it was the origin
      facing angle 0. */
  lemma CopyCompletesCopyConstruct(c: Cinematique)
    ensures Copy(c, CopyConstruct(c)) == c
    ensures CopyConstruct(c) == c <==> c.x == 0.0 && c.y == 0.0 && c.orientation == 0.0
  {
  }

  // ---------------------------------------------------------------------
  // The orientation sector
  // ---------------------------------------------------------------------

  const TWO_PI: real := 2.0 * PI

  /** The side effect of hashCode on the orientation: the remainder modulo
      2 pi (with the sign of the orientation), plus 2 pi when negative. */
  function NormaliseOrientation(o: real): (r: real)
    ensures 0.0 <= r < TWO_PI
    ensures 0.0 <= o < TWO_PI ==> r == o
  {
    var m := RealRem(o, TWO_PI);
    if m < 0.0 then m + TWO_PI else m
  }

  /** `b` is `a` turned by `k` whole turns. */
  ghost predicate TurnedBy(a: real, b: real, k: int)
  {
    b == a + (k as real) * TWO_PI
  }

  /** The normalised orientation is the orientation up to whole turns. */
  lemma NormaliseIsWholeTurns(o: real)
    ensures exists k: int :: TurnedBy(o, NormaliseOrientation(o), k)
  {
    var q := TruncToInt(o / TWO_PI);
    var m := RealRem(o, TWO_PI);
    assert m == o - (q as real) * TWO_PI;
    if m < 0.0 {
      assert TurnedBy(o, NormaliseOrientation(o), 1 - q);
    } else {
      assert TurnedBy(o, NormaliseOrientation(o), -q);
    }
  }

  /** codeOrientation: the sector of pi/6 the normalised orientation lies in. */
  function CodeOrientation(o: real): (code: int)
    requires 0.0 <= o < TWO_PI
    ensures 0 <= code <= 11
    ensures (code as real) * (PI / 6.0) <= o < ((code + 1) as real) * (PI / 6.0)
  {
    var t := o / (PI / 6.0);
    assert t * (PI / 6.0) == o;
    assert t < 12.0;
    var code := JavaIntCast(t);
    AboveScaled(o, PI / 6.0, t, code as real);
    BelowScaled(o, PI / 6.0, t, (code + 1) as real);
    code
  }

  // ---------------------------------------------------------------------
  // The curvature bin
  // ---------------------------------------------------------------------

  /** codeCourbure as written: the assignment of 4 follows the bin tests
      unconditionally (its `else` was commented out), so it always wins. */
  function CodeCourbureAsWritten(courbure: real): (code: int)
    ensures code == 4
  {
    var binned := if courbure < -2.0 then 1 else if courbure < 0.0 then 2 else if courbure < 2.0 then 3 else 4;
    var overwritten := 4;
    overwritten
  }

  /** codeCourbure as the bin tests intend: 1 below -2, 2 below 0, 3 below
      2 and 4 from 2 on. */
  function CodeCourbure(courbure: real): (code: int)
    ensures 1 <= code <= 4
    ensures code == 1 <==> courbure < -2.0
    ensures code == 4 <==> courbure >= 2.0
    ensures code == 2 <==> -2.0 <= courbure < 0.0
  {
    if courbure < -2.0 then 1 else if courbure < 0.0 then 2 else if courbure < 2.0 then 3 else 4
  }

  /** The bins are ordered like the curvatures. */
  lemma CodeCourbureMonotone(a: real, b: real)
    requires a <= b
    ensures CodeCourbure(a) <= CodeCourbure(b)
  {
  }

  // ---------------------------------------------------------------------
  // hashCode and equals
  // ---------------------------------------------------------------------

  /** hashCode with a given curvature code: the orientation is normalised
      (and stored back), then the quantised fields are combined in 32-bit
      arithmetic. */
  function HashWith(c: Cinematique, codeCourbure: int): (r: (int, Cinematique))
    ensures r.1 == c.(orientation := NormaliseOrientation(c.orientation))
    ensures INT_MIN <= r.0 <= INT_MAX
  {
    var o := NormaliseOrientation(c.orientation);
    (HashValue(c.x, c.y, o, codeCourbure), c.(orientation := o))
  }

  /** The 32-bit combination of the quantised position, the curvature code
      and the orientation sector of a normalised orientation. */
  function HashValue(x: real, y: real, o: real, codeCourbure: int): (h: int)
    requires 0.0 <= o < TWO_PI
    ensures INT_MIN <= h <= INT_MAX
  {
    var codeOrientation := CodeOrientation(o);
    var xCell := Int32(JavaIntCast(x) + 1500);
    var a := Int32(JavaDiv(xCell, 15) * 150);
    var b := Int32(a + JavaDiv(JavaIntCast(y), 15));
    Int32(Int32(Int32(Int32(b * 6) + codeCourbure) * 16) + codeOrientation)
  }

  /** hashCode as written: the curvature code is always 4, so the hash is
      the one the corrected hash gives the same pose in the top bin. */
  function HashCodeAsWritten(c: Cinematique): (r: (int, Cinematique))
    ensures r.1 == c.(orientation := NormaliseOrientation(c.orientation))
    ensures r.0 == HashCode(c.(courbure := 2.0)).0
  {
    HashWith(c, CodeCourbureAsWritten(c.courbure))
  }

  /** hashCode with the intended curvature bins: on the table no operation
      overflows and the hash is the mixed-radix number of the pose's cell. */
  function HashCode(c: Cinematique): (r: (int, Cinematique))
    ensures r.1 == c.(orientation := NormaliseOrientation(c.orientation))
    ensures OnTable(c) ==> r.0 == Radix(CellOf(c))
  {
    if OnTable(c) then
      assert -1500 <= TruncToInt(c.x) <= 1500 && 0 <= TruncToInt(c.y) <= 2000;
      HashWith(c, CodeCourbure(c.courbure))
    else
      HashWith(c, CodeCourbure(c.courbure))
  }

  /** equals: the other state's hash against this one's; both compute their
      hash, so both have their orientation normalised. */
  function Equals(a: Cinematique, o: Cinematique): (r: (bool, Cinematique, Cinematique))
    ensures r.0 <==> HashCode(o).0 == HashCode(a).0
    ensures r.1 == HashCode(a).1 && r.2 == HashCode(o).1
  {
    var (ho, o') := HashCode(o);
    var (ha, a') := HashCode(a);
    (ho == ha, a', o')
  }

  function EqualsAsWritten(a: Cinematique, o: Cinematique): (r: (bool, Cinematique, Cinematique))
    ensures r.0 <==> HashCodeAsWritten(o).0 == HashCodeAsWritten(a).0
  {
    var (ho, o') := HashCodeAsWritten(o);
    var (ha, a') := HashCodeAsWritten(a);
    (ho == ha, a', o')
  }

  /** A pose on the table: x within the table's width, y within its depth. */
  predicate OnTable(c: Cinematique)
  {
    -1500.0 <= c.x <= 1500.0 && 0.0 <= c.y <= 2000.0
  }

  /** The quantities the hash is made of. */
  datatype Cell = Cell(xCell: int, yCell: int, codeCourbure: int, codeOrientation: int)

  function CellOf(c: Cinematique): (k: Cell)
  {
    var o := NormaliseOrientation(c.orientation);
    Cell((TruncToInt(c.x) + 1500) / 15, TruncToInt(c.y) / 15, CodeCourbure(c.courbure), CodeOrientation(o))
  }

  /** The mixed-radix number ((xCell * 150 + yCell) * 6 + codeCourbure) * 16
      + codeOrientation of a cell. */
  function Radix(k: Cell): int
  {
    ((k.xCell * 150 + k.yCell) * 6 + k.codeCourbure) * 16 + k.codeOrientation
  }

  /** On the table no operation overflows and the hash is the cell's
      mixed-radix number. */
  lemma HashOnTable(c: Cinematique)
    requires OnTable(c)
    ensures var k := CellOf(c);
      HashCode(c).0 == Radix(k)
      && 0 <= k.xCell <= 200 && 0 <= k.yCell <= 133
      && 1 <= k.codeCourbure <= 4 && 0 <= k.codeOrientation <= 11
  {
    var tx := TruncToInt(c.x);
    var ty := TruncToInt(c.y);
    assert -1500 <= tx <= 1500 && 0 <= ty <= 2000;
  }

  /** The mixed-radix number determines its digits. */
  lemma DigitsDetermined(a: Cell, b: Cell)
    requires 0 <= a.yCell < 150 && 0 <= b.yCell < 150
    requires 0 <= a.codeCourbure < 6 && 0 <= b.codeCourbure < 6
    requires 0 <= a.codeOrientation < 16 && 0 <= b.codeOrientation < 16
    ensures Radix(a) == Radix(b) <==> a == b
  {
    if Radix(a) == Radix(b) {
      var na := (a.xCell * 150 + a.yCell) * 6 + a.codeCourbure;
      var nb := (b.xCell * 150 + b.yCell) * 6 + b.codeCourbure;
      assert na == nb && a.codeOrientation == b.codeOrientation;
      var ma := a.xCell * 150 + a.yCell;
      var mb := b.xCell * 150 + b.yCell;
      assert ma == mb && a.codeCourbure == b.codeCourbure;
    }
  }

  /** On the table, two states are equal exactly when they fall in the same
      cell, curvature bin and orientation sector. */
  lemma EqualsIffSameCell(a: Cinematique, b: Cinematique)
    requires OnTable(a) && OnTable(b)
    ensures Equals(a, b).0 <==> CellOf(a) == CellOf(b)
  {
    HashOnTable(a);
    HashOnTable(b);
    DigitsDetermined(CellOf(a), CellOf(b));
  }

  /** As written, the hash ignores the curvature: two states that differ
      only by a curvature of -3 against 1 are equal, while their bins
      differ. */
  lemma CurvatureIgnoredAsWritten(c: Cinematique)
    ensures EqualsAsWritten(c.(courbure := -3.0), c.(courbure := 1.0)).0
    ensures CodeCourbure(-3.0) != CodeCourbure(1.0)
    ensures OnTable(c) ==> !Equals(c.(courbure := -3.0), c.(courbure := 1.0)).0
  {
    if OnTable(c) {
      EqualsIffSameCell(c.(courbure := -3.0), c.(courbure := 1.0));
    }
  }

  /** A copy is equal to its original. */
  lemma CopyIsEqual(src: Cinematique, autre: Cinematique)
    ensures Equals(src, Copy(src, autre)).0
  {
    assert Copy(src, autre) == src;
  }
}
