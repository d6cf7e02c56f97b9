/** The clap script (pc/src/scripts/anticipables/ScriptClap.java): which of
    its three versions may be played given the state of the three claps,
    where each version starts and ends, and which claps it marks done.

    The robot's movements and arm commands are not modelled; only the
    table effects of `execute` are, including those left by a call that
    throws. The game-element status is the
    three-valued Tribool of the table. */
module ClapScript {
  import opened GameTable

  /** The status of the three claps. */
  datatype Claps = Claps(clap1: Tribool, clap2: Tribool, clap3: Tribool)

  /** getVersions: 0 (right side, both claps) when neither CLAP_1 nor CLAP_3
      is done; 1 (right side, the second clap) when CLAP_1 is not done; 2
      (left side) when CLAP_2 is not done. A clap the enemy may have done
      (Maybe) is still tried. */
  function GetVersions(c: Claps): (out: seq<int>)
    ensures 0 in out <==> c.clap1 != True && c.clap3 != True
    ensures 1 in out <==> c.clap1 != True
    ensures 2 in out <==> c.clap2 != True
    ensures forall v :: v in out ==> 0 <= v <= 2
    ensures forall i, j :: 0 <= i < j < |out| ==> out[i] < out[j]
  {
    (if c.clap1 != True && c.clap3 != True then [0] else [])
    + (if c.clap1 != True then [1] else [])
    + (if c.clap2 != True then [2] else [])
  }

  /** Version 0 is offered only together with version 1. */
  lemma ZeroOfferedWithOne(c: Claps)
    ensures 0 in GetVersions(c) ==> 1 in GetVersions(c)
  {
  }

  datatype PathfindingNode =
    CLAP_DROIT | CLAP_DROIT_SECOND | CLAP_GAUCHE
    | SORTIE_CLAP_DROIT | SORTIE_CLAP_DROIT_SECOND | SORTIE_CLAP_GAUCHE

  /** point_entree: 0 and 1 start on the right side, anything else on the left. */
  function PointEntree(id: int): (n: PathfindingNode)
    ensures n == CLAP_DROIT <==> id == 0
    ensures n == CLAP_DROIT_SECOND <==> id == 1
    ensures n == CLAP_GAUCHE <==> id != 0 && id != 1
  {
    if id == 0 then CLAP_DROIT else if id == 1 then CLAP_DROIT_SECOND else CLAP_GAUCHE
  }

  /** point_sortie: the exit matching each entry. */
  function PointSortie(id: int): (n: PathfindingNode)
    ensures n == SORTIE_CLAP_DROIT <==> id == 0
    ensures n == SORTIE_CLAP_DROIT_SECOND <==> id == 1
    ensures n == SORTIE_CLAP_GAUCHE <==> id != 0 && id != 1
  {
    if id == 0 then SORTIE_CLAP_DROIT else if id == 1 then SORTIE_CLAP_DROIT_SECOND else SORTIE_CLAP_GAUCHE
  }

  /** The exit of a version is the exit of the place it enters. */
  function ExitOf(entry: PathfindingNode): PathfindingNode
  {
    match entry
    case CLAP_DROIT => SORTIE_CLAP_DROIT
    case CLAP_DROIT_SECOND => SORTIE_CLAP_DROIT_SECOND
    case CLAP_GAUCHE => SORTIE_CLAP_GAUCHE
    case _ => entry
  }

  lemma ExitMatchesEntry(id: int)
    ensures PointSortie(id) == ExitOf(PointEntree(id))
  {
  }

  /** The table effects of execute: version 0 marks CLAP_3 then CLAP_1,
      version 1 marks CLAP_1, version 2 marks CLAP_2; any other id does
      nothing. */
  function Execute(id: int, c: Claps): (r: Claps)
    ensures id == 0 ==> r == c.(clap1 := True, clap3 := True)
    ensures id == 1 ==> r == c.(clap1 := True)
    ensures id == 2 ==> r == c.(clap2 := True)
    ensures id !in {0, 1, 2} ==> r == c
  {
    if id == 0 then c.(clap3 := True).(clap1 := True)
    else if id == 1 then c.(clap1 := True)
    else if id == 2 then c.(clap2 := True)
    else c
  }

  /** The number of robot calls (turns, moves and arm commands, each of
      which may throw) that execute makes for a version. Version 1 turns
      first only when the robot's heading asks for it. */
  function NbCalls(id: int, turnFirst: bool): nat
  {
    if id == 0 then 10
    else if id == 1 then (if turnFirst then 3 else 2)
    else if id == 2 then 4
    else 0
  }

  /** execute when the robot call of rank `failAt` throws (counting from
      0; none throws when `failAt` is past the last call): the claps
      marked before the throw stay marked, and the flag tells whether the
      exception escaped. Version 0 makes four calls before marking CLAP_3
      and five more before marking CLAP_1; version 1 marks CLAP_1 after
      all its calls; version 2 makes three calls before marking CLAP_2. */
  function ExecuteUntil(id: int, c: Claps, turnFirst: bool, failAt: nat): (r: (Claps, bool))
    ensures r.1 <==> failAt < NbCalls(id, turnFirst)
    ensures !r.1 ==> r.0 == Execute(id, c)
    ensures id == 0 && 4 <= failAt < 9 ==> r.0 == c.(clap3 := True)
    ensures r.1 && id == 1 ==> r.0 == c
    ensures id == 2 && failAt == 3 ==> r == (c.(clap2 := True), true)
    ensures r.0.clap1 == c.clap1 || r.0.clap1 == Execute(id, c).clap1
    ensures r.0.clap2 == c.clap2 || r.0.clap2 == Execute(id, c).clap2
    ensures r.0.clap3 == c.clap3 || r.0.clap3 == Execute(id, c).clap3
  {
    if id == 0 then
      if failAt < 4 then (c, true)
      else if failAt < 9 then (c.(clap3 := True), true)
      else (c.(clap3 := True).(clap1 := True), failAt < 10)
    else if id == 1 then
      if failAt < NbCalls(1, turnFirst) then (c, true) else (c.(clap1 := True), false)
    else if id == 2 then
      if failAt < 3 then (c, true)
      else (c.(clap2 := True), failAt < 4)
    else (c, false)
  }

  /** When version 0 is interrupted between its two claps, only CLAP_3 is
      done: version 0 is no longer offered, while version 1 still is when
      CLAP_1 was not done before. */
  lemma InterruptedVersionZero(c: Claps, turnFirst: bool, failAt: nat)
    requires 4 <= failAt < 9
    ensures var r := ExecuteUntil(0, c, turnFirst, failAt);
      r.1 && r.0.clap3 == True && r.0.clap1 == c.clap1
      && 0 !in GetVersions(r.0) && (c.clap1 != True ==> 1 in GetVersions(r.0))
  {
  }

  /** A version once played is offered no more, and playing it again
      changes nothing. */
  lemma PlayedVersionWithdrawn(id: int, c: Claps)
    requires id in GetVersions(c)
    ensures id !in GetVersions(Execute(id, c))
    ensures Execute(id, Execute(id, c)) == Execute(id, c)
  {
  }

  /** Playing a version never offers a version that was not offered. */
  lemma ExecuteOnlyWithdraws(id: int, c: Claps, v: int)
    requires v in GetVersions(Execute(id, c))
    ensures v in GetVersions(c)
  {
  }
}
