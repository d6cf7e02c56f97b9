/** A branch of the strategy tree (pc/src/strategie/arbre/Branche.java): an
    action (a script in one of its meta-versions) followed by the branches
    that may come after it, with a note that combines the action's own note
    with the best note among the sub-branches.

    The script and the game state are not modelled. The action's own note
    depends on the script's success probability and on the enemy's
    distance through an exponential; both are inputs (`prob`, `pos`).
    Notes are `float` in the source and `real` here. */
module StrategyBranch {

  datatype Branche = Branche(
    useCachedPathfinding: bool, profondeur: int, metaversion: int,
    note: real, localNote: real, isNoteComputed: bool,
    dureeScript: int, scoreScript: int, isActionCharacteristicsComputed: bool,
    sousBranches: seq<Branche>)

  /** The score and duration substituted for the script's own estimates. */
  const SCORE_SCRIPT: int := 2
  const DUREE_SCRIPT: int := 12000

  /** computeActionCharacteristics: the first call sets the score and the
      duration and raises the flag; later calls change nothing. */
  function ComputeActionCharacteristics(b: Branche): (r: Branche)
    ensures r.isActionCharacteristicsComputed
    ensures b.isActionCharacteristicsComputed ==> r == b
    ensures !b.isActionCharacteristicsComputed ==>
      r == b.(scoreScript := SCORE_SCRIPT, dureeScript := DUREE_SCRIPT, isActionCharacteristicsComputed := true)
  {
    if !b.isActionCharacteristicsComputed then
      b.(scoreScript := SCORE_SCRIPT, dureeScript := DUREE_SCRIPT, isActionCharacteristicsComputed := true)
    else b
  }

  lemma ComputeActionCharacteristicsIdempotent(b: Branche)
    ensures ComputeActionCharacteristics(ComputeActionCharacteristics(b)) == ComputeActionCharacteristics(b)
  {
  }

  /** The constructor: no sub-branches, no note yet, and the action's
      characteristics computed. Unset numeric fields hold Java's zero. */
  function New(useCachedPathfinding: bool, profondeur: int, metaversion: int): (b: Branche)
    ensures b.sousBranches == [] && !b.isNoteComputed
    ensures b.isActionCharacteristicsComputed
    ensures b.scoreScript == SCORE_SCRIPT && b.dureeScript == DUREE_SCRIPT
    ensures b.profondeur == profondeur && b.metaversion == metaversion
    ensures b.useCachedPathfinding == useCachedPathfinding
  {
    ComputeActionCharacteristics(Branche(useCachedPathfinding, profondeur, metaversion,
                                         0.0, 0.0, false, 0, 0, false, []))
  }

  /** The loop of computeNote over the sub-branches: starting from -1, keep
      any note above the current one. */
  function BestSubNote(subs: seq<Branche>): (m: real)
    ensures m >= -1.0
    ensures forall i :: 0 <= i < |subs| ==> subs[i].note <= m
    ensures m == -1.0 || exists i :: 0 <= i < |subs| && subs[i].note == m
  {
    if |subs| == 0 then -1.0
    else
      var m := BestSubNote(subs[..|subs| - 1]);
      assert forall i :: 0 <= i < |subs| - 1 ==> subs[..|subs| - 1][i] == subs[i];
      if subs[|subs| - 1].note > m then subs[|subs| - 1].note else m
  }

  /** computeLocalNote: (score * prob / duree + pos) * prob, with both
      weights at 1. */
  function LocalNote(scoreScript: int, dureeScript: int, prob: real, pos: real): (n: real)
    requires dureeScript != 0
    ensures prob == 0.0 ==> n == 0.0
    ensures scoreScript >= 0 && dureeScript > 0 && prob >= 0.0 && pos >= 0.0 ==> n >= 0.0
  {
    ((scoreScript as real) * prob / (dureeScript as real) + pos) * prob
  }

  /** computeNote: the action's own note (its characteristics computed
      first when needed), plus, below the last level, the best sub-branch
      note or -1 when none is better. */
  function ComputeNote(b: Branche, prob: real, pos: real): (r: Branche)
    requires b.isActionCharacteristicsComputed ==> b.dureeScript != 0
    ensures r.isNoteComputed && r.isActionCharacteristicsComputed
    ensures r.sousBranches == b.sousBranches && r.profondeur == b.profondeur
    ensures r.dureeScript != 0
    ensures r.localNote == LocalNote(r.scoreScript, r.dureeScript, prob, pos)
    ensures b.profondeur == 0 ==> r.note == r.localNote
    ensures b.profondeur != 0 ==> r.note == r.localNote + BestSubNote(b.sousBranches)
  {
    var c := ComputeActionCharacteristics(b);
    var local := LocalNote(c.scoreScript, c.dureeScript, prob, pos);
    var note := if c.profondeur == 0 then local else local + BestSubNote(c.sousBranches);
    c.(localNote := local, note := note, isNoteComputed := true)
  }

  /** Below the last level, a branch without sub-branches scores one less
      than its action alone, and a branch scores at least that. */
  lemma NoteAtLeastLocalMinusOne(b: Branche, prob: real, pos: real)
    requires b.isActionCharacteristicsComputed ==> b.dureeScript != 0
    requires b.profondeur != 0
    ensures ComputeNote(b, prob, pos).note >= ComputeNote(b, prob, pos).localNote - 1.0
    ensures b.sousBranches == [] ==> ComputeNote(b, prob, pos).note == ComputeNote(b, prob, pos).localNote - 1.0
  {
  }

  /** Adding a sub-branch never lowers the best sub-branch note, and raises
      it to the new sub-branch's note when that one is better. */
  lemma {:induction false} AddingSubBranchNeverLowers(subs: seq<Branche>, s: Branche)
    ensures BestSubNote(subs + [s]) >= BestSubNote(subs)
    ensures BestSubNote(subs + [s]) >= s.note
    ensures BestSubNote(subs + [s]) == if s.note > BestSubNote(subs) then s.note else BestSubNote(subs)
  {
    assert (subs + [s])[..|subs|] == subs;
  }

  /** The best sub-branch note is the largest of their notes and -1, so it
      does not depend on the order of the sub-branches. */
  lemma BestSubNoteIsMaximum(subs: seq<Branche>, m: real)
    requires m >= -1.0
    requires forall i :: 0 <= i < |subs| ==> subs[i].note <= m
    requires m == -1.0 || exists i :: 0 <= i < |subs| && subs[i].note == m
    ensures BestSubNote(subs) == m
  {
  }
}
