/** The game-element table (pc/src/table/Table.java). Each of the twenty
    element slots holds a three-valued state; the table also keeps a 64-bit
    hash in which the state of element `k` is ORed into bits 2k and 2k+1,
    and the hash alone serves as the equality test between tables.
    The enum Tribool is not part of this model: its states are taken to
    hash to FALSE = 0, MAYBE = 1 and TRUE = 2 (FALSE, the initial state,
    must hash to 0 for the initial hash 0 to describe it). */
module GameTable {
  import opened Common

  const NB_ELEMENTS: nat := 20

  datatype Tribool = False | Maybe | True

  function TriHash(t: Tribool): (h: bv64)
    ensures h < 4
    ensures h == 0 <==> t == False
  {
    match t
    case False => 0
    case Maybe => 1
    case True => 2
  }

  lemma TriHashInjective(a: Tribool, b: Tribool)
    ensures TriHash(a) == TriHash(b) <==> a == b
  {
  }

  /** `done[k]` is the state of the element of ordinal k. */
  datatype Table = Table(done: seq<Tribool>, hash: bv64)

  predicate WellSized(t: Table)
  {
    |t.done| == NB_ELEMENTS
  }

  /** Bits 2k and 2k+1 of a hash. */
  function Slot(h: bv64, k: bv8): (s: bv64)
    requires k < 20
    ensures s < 4
  {
    (h >> (2 * k)) & 3
  }

  /** The bits of a hash below bit 2n. */
  function Low(h: bv64, n: bv8): bv64
    requires n <= 20
  {
    h & ((1 << (2 * n)) - 1)
  }

  lemma LowStep(h: bv64, n: bv8)
    requires n < 20
    ensures Low(h, n + 1) == Low(h, n) | (Slot(h, n) << (2 * n))
  {
  }

  /** A hash with nothing above bit 39 is its own low 40 bits. */
  lemma LowAll(h: bv64)
    requires h >> 40 == 0
    ensures Low(h, 20) == h
  {
  }

  /** Hashes that agree on their first n slots agree below bit 2n. */
  lemma {:induction false} SlotsDetermineLow(a: bv64, b: bv64, n: bv8)
    requires n <= 20
    requires forall k: bv8 :: k < n ==> Slot(a, k) == Slot(b, k)
    ensures Low(a, n) == Low(b, n)
  {
    if n > 0 {
      SlotsDetermineLow(a, b, n - 1);
      LowStep(a, n - 1);
      LowStep(b, n - 1);
    }
  }

  /** ORing a 2-bit value into slot k ORs it into that slot ... */
  lemma OrSameSlot(h: bv64, k: bv8, v: bv64)
    requires k < 20 && v < 4
    ensures Slot(h | (v << (2 * k)), k) == Slot(h, k) | v
  {
  }

  /** ... and leaves the other slots alone. */
  lemma OrOtherSlot(h: bv64, k: bv8, j: bv8, v: bv64)
    requires k < 20 && j < 20 && j != k && v < 4
    ensures Slot(h | (v << (2 * k)), j) == Slot(h, j)
  {
  }

  /** ORing a 2-bit value into a slot sets no bit above the last slot. */
  lemma OrKeepsHighClear(h: bv64, k: bv8, v: bv64)
    requires k < 20 && v < 4
    ensures h >> 40 == 0 ==> (h | (v << (2 * k))) >> 40 == 0
  {
  }

  /** The constructor: every element FALSE and the hash 0. */
  function Init(): (t: Table)
    ensures WellSized(t) && t.hash == 0
    ensures forall k :: 0 <= k < NB_ELEMENTS ==> t.done[k] == False
  {
    Table(seq(NB_ELEMENTS, _ => False), 0)
  }

  /** Slots other than k agree. */
  ghost predicate SameOtherSlots(a: bv64, b: bv64, k: bv8)
  {
    forall j: bv8 :: j < 20 && j != k ==> Slot(a, j) == Slot(b, j)
  }

  lemma OrOtherSlots(h: bv64, k: bv8, v: bv64)
    requires k < 20 && v < 4
    ensures SameOtherSlots(h | (v << (2 * k)), h, k)
  {
    forall j: bv8 | j < 20 && j != k
      ensures Slot(h | (v << (2 * k)), j) == Slot(h, j)
    {
      OrOtherSlot(h, k, j, v);
    }
  }

  /** The source's `hash |= v << 2k`. */
  function OrInto(h: bv64, k: bv8, v: bv64): (r: bv64)
    requires k < 20 && v < 4
    ensures Slot(r, k) == Slot(h, k) | v
    ensures SameOtherSlots(r, h, k)
    ensures h >> 40 == 0 ==> r >> 40 == 0
  {
    OrSameSlot(h, k, v);
    OrOtherSlots(h, k, v);
    OrKeepsHighClear(h, k, v);
    h | (v << (2 * k))
  }

  /** setDone: ORs the state's hash into the element's two bits and
      records the state in the element. */
  function SetDone(t: Table, id: bv8, d: Tribool): (r: Table)
    requires WellSized(t) && id < 20
    ensures WellSized(r)
    ensures r.done == t.done[id as int := d]
    ensures Slot(r.hash, id) == Slot(t.hash, id) | TriHash(d)
    ensures SameOtherSlots(r.hash, t.hash, id)
  {
    Table(t.done[id as int := d], OrInto(t.hash, id, TriHash(d)))
  }

  /** The hash is monotone: setDone never clears a bit. */
  lemma SetDoneKeepsBits(t: Table, id: bv8, d: Tribool)
    requires WellSized(t) && id < 20
    ensures SetDone(t, id, d).hash & t.hash == t.hash
  {
  }

  /** setDone sets no bit above the last element's slot. */
  lemma SetDoneKeepsHighClear(t: Table, id: bv8, d: Tribool)
    requires WellSized(t) && id < 20 && t.hash >> 40 == 0
    ensures SetDone(t, id, d).hash >> 40 == 0
  {
    OrKeepsHighClear(t.hash, id, TriHash(d));
  }


  /** isDone: the element's state, which on an exact table is the state
      the element's slot of the hash encodes. */
  function IsDone(t: Table, id: bv8): (d: Tribool)
    requires WellSized(t) && id < 20
    ensures Exact(t) ==> TriHash(d) == Slot(t.hash, id)
  {
    t.done[id]
  }

  /** isDone answers the state most recently given to setDone for that
      element, and setDone on one element leaves the others' answers. */
  lemma IsDoneAfterSetDone(t: Table, id: bv8, other: bv8, d: Tribool)
    requires WellSized(t) && id < 20 && other < 20
    ensures IsDone(SetDone(t, id, d), id) == d
    ensures other != id ==> IsDone(SetDone(t, id, d), other) == IsDone(t, other)
  {
  }

  /** Each slot of the hash is its element's state hash. */
  ghost predicate SlotsMatch(h: bv64, done: seq<Tribool>)
    requires |done| == NB_ELEMENTS
  {
    forall k: bv8 :: k < 20 ==> Slot(h, k) == TriHash(done[k])
  }

  /** The hash describes the states exactly: each slot is its element's
      state hash, and no bit above the last slot is set. */
  ghost predicate Exact(t: Table)
  {
    WellSized(t) && t.hash >> 40 == 0 && SlotsMatch(t.hash, t.done)
  }

  lemma InitExact()
    ensures Exact(Init())
  {
  }

  /** A change of state that only adds bits to the element's hash: from
      FALSE to anything, or to the same state. */
  predicate GainsBits(before: Tribool, after: Tribool)
  {
    TriHash(before) | TriHash(after) == TriHash(after)
  }

  lemma SetDoneKeepsMatch(t: Table, id: bv8, d: Tribool)
    requires WellSized(t) && id < 20 && SlotsMatch(t.hash, t.done)
    requires GainsBits(t.done[id], d)
    ensures SlotsMatch(SetDone(t, id, d).hash, SetDone(t, id, d).done)
  {
    var r := SetDone(t, id, d);
    forall k: bv8 | k < 20
      ensures Slot(r.hash, k) == TriHash(r.done[k])
    {
      SlotAfterGain(t.hash, r.hash, t.done, r.done, id, d, k);
    }
  }

  /** One slot after a state change that only gains bits. */
  lemma SlotAfterGain(before: bv64, after: bv64, doneBefore: seq<Tribool>, doneAfter: seq<Tribool>,
                      id: bv8, d: Tribool, k: bv8)
    requires |doneBefore| == NB_ELEMENTS && id < 20 && k < 20
    requires doneAfter == doneBefore[id as int := d]
    requires SlotsMatch(before, doneBefore) && GainsBits(doneBefore[id], d)
    requires Slot(after, id) == Slot(before, id) | TriHash(d)
    requires SameOtherSlots(after, before, id)
    ensures Slot(after, k) == TriHash(doneAfter[k])
  {
    if k == id {
      assert Slot(before, id) == TriHash(doneBefore[id]);
    } else {
      assert Slot(after, k) == Slot(before, k);
      assert Slot(before, k) == TriHash(doneBefore[k]);
      assert doneAfter[k] == doneBefore[k];
    }
  }

  lemma SetDoneBreaksMatch(t: Table, id: bv8, d: Tribool)
    requires WellSized(t) && id < 20 && SlotsMatch(t.hash, t.done)
    requires !GainsBits(t.done[id], d)
    ensures Slot(SetDone(t, id, d).hash, id) != TriHash(SetDone(t, id, d).done[id])
  {
    assert Slot(t.hash, id) == TriHash(t.done[id]);
  }

  /** The hash stays exact after setDone exactly when the element's state
      only gains bits: the hash never forgets a bit. */
  lemma SetDoneExactIff(t: Table, id: bv8, d: Tribool)
    requires Exact(t) && id < 20
    ensures Exact(SetDone(t, id, d)) <==> GainsBits(t.done[id], d)
  {
    SetDoneKeepsHighClear(t, id, d);
    if GainsBits(t.done[id], d) {
      SetDoneKeepsMatch(t, id, d);
    } else {
      SetDoneBreaksMatch(t, id, d);
    }
  }

  /** equals: the hashes only, which between exact tables means the same
      states. */
  function Equals(a: Table, b: Table): (e: bool)
    ensures e <==> a.hash == b.hash
    ensures Exact(a) && Exact(b) ==> (e <==> a.done == b.done)
  {
    HashesIffSameStates(a, b);
    b.hash == a.hash
  }

  /** Between exact tables, equal hashes mean equal states, and conversely. */
  lemma EqualsIffSameStates(a: Table, b: Table)
    requires Exact(a) && Exact(b)
    ensures Equals(a, b) <==> a.done == b.done
  {
  }

  /** Exact hashes are equal exactly when the states are. */
  lemma {:induction false} HashesIffSameStates(a: Table, b: Table)
    ensures Exact(a) && Exact(b) ==> (a.hash == b.hash <==> a.done == b.done)
  {
    if Exact(a) && Exact(b) {
      if a.done == b.done {
        forall k: bv8 | k < 20
          ensures Slot(a.hash, k) == Slot(b.hash, k)
        {
        }
        SlotsDetermineLow(a.hash, b.hash, 20);
        LowAll(a.hash);
        LowAll(b.hash);
      } else if a.hash == b.hash {
        var k :| 0 <= k < NB_ELEMENTS && a.done[k] != b.done[k];
        assert Slot(a.hash, k as bv8) == Slot(b.hash, k as bv8);
        TriHashInjective(a.done[k], b.done[k]);
      }
    }
  }

  /** copy(ct): the target takes this table's states unless the hashes
      already agree, then takes its hash. */
  function Copy(src: Table, dst: Table): (r: Table)
    ensures r.hash == src.hash && Equals(r, src)
    ensures !Equals(src, dst) ==> r.done == src.done
    ensures Equals(src, dst) ==> r.done == dst.done
  {
    if !Equals(src, dst) then Table(src.done, src.hash) else Table(dst.done, src.hash)
  }

  /** Between exact tables the copy is exact: the target becomes this table. */
  lemma CopyExact(src: Table, dst: Table)
    requires Exact(src) && Exact(dst)
    ensures Copy(src, dst) == src
  {
    EqualsIffSameStates(src, dst);
  }

  /** Setting an element TRUE then FALSE leaves the same hash as setting it
      TRUE only, while the states differ: once a state loses bits, the hash
      is no longer exact, equals confuses the two tables, and copying the
      second onto the first leaves the first's states. */
  lemma RegressionConfusesEquals()
    ensures var a := SetDone(Init(), 0, True);
      var b := SetDone(a, 0, False);
      Equals(a, b) && a.done != b.done && !Exact(b) && Copy(b, a).done != b.done
  {
    var a := SetDone(Init(), 0, True);
    var b := SetDone(a, 0, False);
    assert a.done[0] != b.done[0];
    assert Slot(b.hash, 0) != TriHash(b.done[0]);
  }

  /** The state printHash names for a 2-bit value: the state of that hash,
      none for 3. */
  function DecodeSlot(v: bv64): (d: Option<Tribool>)
    requires v < 4
    ensures d.Some? <==> v != 3
    ensures d.Some? ==> TriHash(d.value) == v
  {
    if v == 0 then Some(False) else if v == 1 then Some(Maybe) else if v == 2 then Some(True) else None
  }

  /** printHash from element k on: element g's state read back as
      (hash >> 2g) mod 4. On a hash with its sign bit clear, Java's signed
      shift and remainder agree with the unsigned ones used here. */
  function PrintFrom(h: bv64, k: bv8): (r: seq<Option<Tribool>>)
    requires h >> 63 == 0 && k <= 20
    ensures |r| == 20 - k as int
    ensures forall j: bv8 :: k <= j < 20 ==> r[j - k] == DecodeSlot(Slot(h, j))
    decreases 20 - k
  {
    if k == 20 then []
    else [DecodeSlot((h >> (2 * k)) % 4)] + PrintFrom(h, k + 1)
  }

  /** printHash: every element's state as read back from the hash. */
  function PrintHash(t: Table): (r: seq<Option<Tribool>>)
    requires t.hash >> 63 == 0
    ensures |r| == NB_ELEMENTS
    ensures forall k: bv8 :: k < 20 ==> r[k] == DecodeSlot(Slot(t.hash, k))
  {
    PrintFrom(t.hash, 0)
  }

  /** For an exact table, printHash prints every element's true state. */
  lemma PrintHashReadsStates(t: Table)
    requires Exact(t)
    ensures forall k: bv8 :: k < 20 ==> PrintHash(t)[k] == Some(t.done[k])
  {
    HighClearSignClear(t.hash);
    forall k: bv8 | k < 20
      ensures PrintHash(t)[k] == Some(t.done[k])
    {
      assert Slot(t.hash, k) == TriHash(t.done[k]);
    }
  }

  lemma HighClearSignClear(h: bv64)
    requires h >> 40 == 0
    ensures h >> 63 == 0
  {
  }
}
