/** The catalogue of clothoid primitives
    (pc/src/pathfinding/astar/arcs/vitesses/VitesseClotho.java). Each
    primitive has a curvature speed `vitesse` (1/m^2) and an initial
    curvature; whether it is a reversal or follows a stop is read from the
    constant's name. The length of an arc in metres is a constant of a class
    that is not part of this model, so it is a parameter here, and so are
    the direction strategy's answers. */
module ClothoSpeeds {

  datatype VitesseClotho =
    | CourbureIdentique
    | Gauche0 | Droite0 | Gauche1 | Droite1 | Gauche2 | Droite2
    | CourbureIdentiqueAfterStop
    | CourbureIdentiqueG1AfterStop | CourbureIdentiqueD1AfterStop
    | CourbureIdentiqueG3AfterStop | CourbureIdentiqueD3AfterStop
    | CourbureIdentiqueRebrousse
    | CourbureIdentiqueG1Rebrousse | CourbureIdentiqueD1Rebrousse
    | CourbureIdentiqueG3Rebrousse | CourbureIdentiqueD3Rebrousse

  /** The constants in declaration order. */
  const ALL: seq<VitesseClotho> := [
    CourbureIdentique, Gauche0, Droite0, Gauche1, Droite1, Gauche2, Droite2,
    CourbureIdentiqueAfterStop,
    CourbureIdentiqueG1AfterStop, CourbureIdentiqueD1AfterStop,
    CourbureIdentiqueG3AfterStop, CourbureIdentiqueD3AfterStop,
    CourbureIdentiqueRebrousse,
    CourbureIdentiqueG1Rebrousse, CourbureIdentiqueD1Rebrousse,
    CourbureIdentiqueG3Rebrousse, CourbureIdentiqueD3Rebrousse]

  /** The constant's name, as toString gives it, is a stem followed by
      the suffix of its family. */
  function Name(v: VitesseClotho): string
  {
    Stem(v) + SuffixText(Family(v))
  }

  datatype NameFamily = Plain | AfterStop | Rebrousse

  function SuffixText(f: NameFamily): string
  {
    match f
    case Plain => ""
    case AfterStop => "_AFTER_STOP"
    case Rebrousse => "_REBROUSSE"
  }

  function Family(v: VitesseClotho): NameFamily
  {
    match v
    case CourbureIdentique | Gauche0 | Droite0 | Gauche1 | Droite1 | Gauche2 | Droite2 => Plain
    case CourbureIdentiqueAfterStop | CourbureIdentiqueG1AfterStop | CourbureIdentiqueD1AfterStop
      | CourbureIdentiqueG3AfterStop | CourbureIdentiqueD3AfterStop => AfterStop
    case _ => Rebrousse
  }

  function Stem(v: VitesseClotho): string
  {
    match v
    case CourbureIdentique => "COURBURE_IDENTIQUE"
    case Gauche0 => "GAUCHE_0"
    case Droite0 => "DROITE_0"
    case Gauche1 => "GAUCHE_1"
    case Droite1 => "DROITE_1"
    case Gauche2 => "GAUCHE_2"
    case Droite2 => "DROITE_2"
    case CourbureIdentiqueAfterStop | CourbureIdentiqueRebrousse => "COURBURE_IDENTIQUE"
    case CourbureIdentiqueG1AfterStop | CourbureIdentiqueG1Rebrousse => "COURBURE_IDENTIQUE_G1"
    case CourbureIdentiqueD1AfterStop | CourbureIdentiqueD1Rebrousse => "COURBURE_IDENTIQUE_D1"
    case CourbureIdentiqueG3AfterStop | CourbureIdentiqueG3Rebrousse => "COURBURE_IDENTIQUE_G3"
    case CourbureIdentiqueD3AfterStop | CourbureIdentiqueD3Rebrousse => "COURBURE_IDENTIQUE_D3"
  }

  /** The constructor arguments: the one-argument form gives the speed and
      an initial curvature of 0, the two-argument form gives the initial
      curvature first. */
  datatype Args = One(vitesse: int) | Two(courbureInitiale: int, vitesse: int)

  function Declared(v: VitesseClotho): Args
  {
    match v
    case CourbureIdentique => One(0)
    case Gauche0 => One(1)
    case Droite0 => One(-1)
    case Gauche1 => One(4)
    case Droite1 => One(-4)
    case Gauche2 => One(9)
    case Droite2 => One(-9)
    case CourbureIdentiqueAfterStop => One(0)
    case CourbureIdentiqueG1AfterStop => Two(1, 0)
    case CourbureIdentiqueD1AfterStop => Two(-1, 0)
    case CourbureIdentiqueG3AfterStop => Two(3, 0)
    case CourbureIdentiqueD3AfterStop => Two(-3, 0)
    case CourbureIdentiqueRebrousse => Two(0, 0)
    case CourbureIdentiqueG1Rebrousse => Two(1, 0)
    case CourbureIdentiqueD1Rebrousse => Two(-1, 0)
    case CourbureIdentiqueG3Rebrousse => Two(3, 0)
    case CourbureIdentiqueD3Rebrousse => Two(-3, 0)
  }

  predicate EndsWith(s: string, suffix: string)
  {
    |suffix| <= |s| && s[|s| - |suffix|..] == suffix
  }

  /** The largest r with r*r <= n, searching upwards from `r`. */
  function FloorSqrtFrom(n: nat, r: nat): (s: nat)
    requires r * r <= n
    ensures s * s <= n < (s + 1) * (s + 1)
    decreases n - r
  {
    if (r + 1) * (r + 1) > n then r
    else FloorSqrtFrom(n, r + 1)
  }

  /** (int) Math.sqrt(n): the square root rounded down. */
  function FloorSqrt(n: nat): (s: nat)
    ensures s * s <= n < (s + 1) * (s + 1)
  {
    FloorSqrtFrom(n, 0)
  }

  function Abs(x: int): nat
  {
    if x < 0 then -x else x
  }

  /** The fields the constructor derives. */
  datatype Fields = Fields(
    vitesse: int, courbureInitiale: int, squaredRootVitesse: nat,
    positif: bool, rebrousse: bool, arret: bool)

  function Construct(name: string, args: Args): (f: Fields)
    ensures f.vitesse == args.vitesse
    ensures f.courbureInitiale == (if args.One? then 0 else args.courbureInitiale)
    ensures f.positif <==> args.vitesse >= 0
    ensures f.rebrousse <==> EndsWith(name, "_REBROUSSE")
    ensures f.arret <==> EndsWith(name, "_AFTER_STOP")
    ensures f.squaredRootVitesse * f.squaredRootVitesse <= Abs(args.vitesse)
      < (f.squaredRootVitesse + 1) * (f.squaredRootVitesse + 1)
  {
    var courbure := match args case One(_) => 0 case Two(c, _) => c;
    Fields(args.vitesse, courbure, FloorSqrt(Abs(args.vitesse)),
           args.vitesse >= 0, EndsWith(name, "_REBROUSSE"), EndsWith(name, "_AFTER_STOP"))
  }

  function FieldsOf(v: VitesseClotho): Fields
  {
    Construct(Name(v), Declared(v))
  }

  lemma EndsWithSuffix(a: string, b: string)
    ensures EndsWith(a + b, b)
  {
    assert (a + b)[|a + b| - |b|..] == b;
  }

  /** A string whose last character differs from the suffix's does not end
      with it. */
  lemma LastCharDiffers(s: string, suffix: string)
    requires |s| > 0 && |suffix| > 0 && s[|s| - 1] != suffix[|suffix| - 1]
    ensures !EndsWith(s, suffix)
  {
  }

  /** A plain name ends in a digit or in "_IDENTIQUE". */
  lemma PlainNames(v: VitesseClotho)
    requires Family(v) == Plain
    ensures !EndsWith(Name(v), "_REBROUSSE") && !EndsWith(Name(v), "_AFTER_STOP")
  {
    var n := Name(v);
    assert n == Stem(v);
    if v == CourbureIdentique {
      assert n[8..] == "_IDENTIQUE";
      assert n[8..] != "_REBROUSSE" by { assert n[9] != 'R'; }
      LastCharDiffers(n, "_AFTER_STOP");
    } else {
      assert n[|n| - 1] in "012";
      LastCharDiffers(n, "_REBROUSSE");
      LastCharDiffers(n, "_AFTER_STOP");
    }
  }

  /** The reversal flag picks out exactly the five _REBROUSSE constants and
      the stop flag the five _AFTER_STOP ones. */
  lemma NameFlags(v: VitesseClotho)
    ensures FieldsOf(v).rebrousse <==> Family(v) == Rebrousse
    ensures FieldsOf(v).arret <==> Family(v) == AfterStop
  {
    var n := Name(v);
    match Family(v)
    case Plain =>
      PlainNames(v);
    case AfterStop =>
      EndsWithSuffix(Stem(v), "_AFTER_STOP");
      LastCharDiffers(n, "_REBROUSSE");
    case Rebrousse =>
      EndsWithSuffix(Stem(v), "_REBROUSSE");
      LastCharDiffers(n, "_AFTER_STOP");
  }

  /** The rounded-down square root of a perfect square is its root. */
  lemma {:induction false} SqrtOfSquare(r: nat)
    ensures FloorSqrt(r * r) == r
  {
    var s := FloorSqrt(r * r);
    SquareOrder(s, r);
    SquareOrder(r, s + 1);
  }

  /** Squares of naturals are ordered like the naturals. */
  lemma SquareOrder(a: nat, b: nat)
    ensures a * a <= b * b ==> a <= b
    ensures a * a < b * b ==> a < b
  {
    if b <= a {
      MulMonotone(b, a);
    }
    if b < a {
      MulMonotone(b + 1, a);
    }
  }

  lemma MulMonotone(a: nat, b: nat)
    requires a <= b
    ensures a * a <= b * b
  {
  }

  /** The catalogue: no constant is both a reversal and after a stop, every
      stop or reversal primitive keeps its curvature (speed 0), and the
      declaration order lists every constant. */
  lemma CatalogueFlags(v: VitesseClotho)
    ensures !(FieldsOf(v).rebrousse && FieldsOf(v).arret)
    ensures (FieldsOf(v).rebrousse || FieldsOf(v).arret) ==> FieldsOf(v).vitesse == 0
    ensures v in ALL
  {
    NameFlags(v);
  }

  /** The speeds are 0, 1, 4 and 9 in absolute value, so their square
      roots are exact. */
  lemma CatalogueRoots(v: VitesseClotho)
    ensures FieldsOf(v).squaredRootVitesse * FieldsOf(v).squaredRootVitesse == Abs(FieldsOf(v).vitesse)
  {
    var f := FieldsOf(v);
    var n := Abs(f.vitesse);
    var r := if n == 1 then 1 else if n == 4 then 2 else if n == 9 then 3 else 0;
    assert n == r * r;
    SquareOrder(f.squaredRootVitesse, r);
    SquareOrder(r, f.squaredRootVitesse + 1);
  }

  /** getNbArrets: one stop for a stop or reversal primitive, none otherwise. */
  function NbArrets(v: VitesseClotho): (n: nat)
    ensures n <= 1
    ensures n == 1 <==> Family(v) == Rebrousse || Family(v) == AfterStop
  {
    NameFlags(v);
    var f := FieldsOf(v);
    if f.arret || f.rebrousse then 1 else 0
  }

  /** isAcceptable, on the fields of a primitive. `fastest` says the
      direction strategy is FASTEST and `directionPossible` is its
      isPossible answer for the current direction of travel; `distanceArc`
      is the arc length in metres. */
  function IsAcceptable(f: Fields, courbureGeometrique: real, fastest: bool,
                        directionPossible: bool, courbureMax: real, distanceArc: real): (ok: bool)
    ensures ok <==>
      && (f.rebrousse ==> fastest || !directionPossible)
      && (!f.rebrousse ==> directionPossible)
      && -courbureMax <= courbureGeometrique + (f.vitesse as real) * distanceArc <= courbureMax
  {
    if f.rebrousse && (!fastest && directionPossible) then false
    else if !f.rebrousse && !directionPossible then false
    else
      var courbureFuture := courbureGeometrique + (f.vitesse as real) * distanceArc;
      if !(courbureFuture >= -courbureMax && courbureFuture <= courbureMax) then false
      else true
  }

  /** For a constant of the catalogue, the direction check depends on its
      name's family: a reversal needs the FASTEST strategy or a forbidden
      direction, any other primitive an allowed direction. */
  lemma IsAcceptableByFamily(v: VitesseClotho, courbureGeometrique: real, fastest: bool,
                             directionPossible: bool, courbureMax: real, distanceArc: real)
    ensures IsAcceptable(FieldsOf(v), courbureGeometrique, fastest, directionPossible, courbureMax, distanceArc)
      <==>
      && (Family(v) == Rebrousse ==> fastest || !directionPossible)
      && (Family(v) != Rebrousse ==> directionPossible)
      && -courbureMax <= courbureGeometrique + (Declared(v).vitesse as real) * distanceArc <= courbureMax
  {
    NameFlags(v);
  }

  /** With the current curvature within bounds, the primitive that keeps
      it is accepted exactly when the current direction is allowed and its
      reversal exactly when the strategy is FASTEST or the direction is not
      allowed, so one of the two is always accepted. */
  lemma DirectionChecksComplement(courbureGeometrique: real, fastest: bool, directionPossible: bool,
                                  courbureMax: real, distanceArc: real)
    requires -courbureMax <= courbureGeometrique <= courbureMax
    ensures IsAcceptable(FieldsOf(CourbureIdentique), courbureGeometrique, fastest, directionPossible, courbureMax, distanceArc)
      <==> directionPossible
    ensures IsAcceptable(FieldsOf(CourbureIdentiqueRebrousse), courbureGeometrique, fastest, directionPossible, courbureMax, distanceArc)
      <==> (fastest || !directionPossible)
    ensures IsAcceptable(FieldsOf(CourbureIdentique), courbureGeometrique, fastest, directionPossible, courbureMax, distanceArc)
      || IsAcceptable(FieldsOf(CourbureIdentiqueRebrousse), courbureGeometrique, fastest, directionPossible, courbureMax, distanceArc)
  {
    IsAcceptableByFamily(CourbureIdentique, courbureGeometrique, fastest, directionPossible, courbureMax, distanceArc);
    IsAcceptableByFamily(CourbureIdentiqueRebrousse, courbureGeometrique, fastest, directionPossible, courbureMax, distanceArc);
    assert (Declared(CourbureIdentique).vitesse as real) * distanceArc == 0.0;
    assert (Declared(CourbureIdentiqueRebrousse).vitesse as real) * distanceArc == 0.0;
  }
}
