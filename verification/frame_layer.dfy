/** The frame layer of the serial protocol (pc/src/serie/SerieCoucheTrame.java).
    Each of the 256 conversation ids is free, or sits in exactly one of
    three lists: waiting for an acknowledgement, pending (a long order that
    has begun executing), or closed (finished, waiting for its death date).
    Frames arriving from the low level move ids between the lists; resend
    rotates the waiting list and kill frees ids from the head of the closed
    list.  Clocks are not modelled: the death date a transition stamps, and
    the time-dependent tests `needDeath`, `needResend` and the
    conversation's remaining delays, are parameters. */
module FrameLayer {
  import opened Common

  const NB_IDS: int := 256

  datatype OrderType = Short | Long

  datatype IncomingCode = ExecutionBegin | ExecutionEnd | StatusUpdate | ValueAnswer

  /** One conversation slot; `kind` is the type of the order it carries. */
  datatype Conversation = Conversation(libre: bool, kind: OrderType, deathDate: int)

  datatype Layer = Layer(
    conversations: seq<Conversation>,
    waiting: seq<int>,
    pending: seq<int>,
    closed: seq<int>,
    lastId: int,
    timeout: int)

  /** Where an id currently is. */
  datatype Place = Free | Waiting | Pending | Closed

  /** A decoded incoming frame, as handed to processFrame. */
  datatype Frame = Frame(code: IncomingCode, id: int, message: seq<int>)

  /** What processFrame hands to the order layer. The ticket of the
      conversation is identified by the conversation id. */
  datatype Paquet = Paquet(message: seq<int>, ticket: int, origin: OrderType)

  /** The observable outcome of processFrame: the packet returned (null for a
      signalling frame) and the id of the END_ORDER frame sent, if any. */
  datatype Reply = Reply(paquet: Option<Paquet>, endOrderSent: Option<int>)

  datatype ProtocolError =
    | UnexpectedCode(code: IncomingCode, place: Place)
    | WrongOrderType(code: IncomingCode, kind: OrderType)
    | UnknownId(id: int)

  datatype AllocError = NoFreeId | IndexOutOfBounds(index: int)

  predicate NoDup(xs: seq<int>)
  {
    forall i, j :: 0 <= i < j < |xs| ==> xs[i] != xs[j]
  }

  predicate InRange(xs: seq<int>)
  {
    forall x :: x in xs ==> 0 <= x < NB_IDS
  }

  /** The invariant of the layer: the three lists hold distinct ids, no id
      is in two lists, and an id is taken exactly when it is in a list. */
  ghost predicate Valid(s: Layer)
  {
    && |s.conversations| == NB_IDS
    && 0 <= s.lastId < NB_IDS
    && InRange(s.waiting) && InRange(s.pending) && InRange(s.closed)
    && NoDup(s.waiting) && NoDup(s.pending) && NoDup(s.closed)
    && (forall id :: id in s.waiting ==> id !in s.pending && id !in s.closed)
    && (forall id :: id in s.pending ==> id !in s.closed)
    && (forall id :: 0 <= id < NB_IDS ==>
          (!s.conversations[id].libre <==> (id in s.waiting || id in s.pending || id in s.closed)))
  }

  function PlaceOf(s: Layer, id: int): Place
  {
    if id in s.waiting then Waiting
    else if id in s.pending then Pending
    else if id in s.closed then Closed
    else Free
  }

  /** The moves a frame may cause: an id stays, or goes forward from waiting
      to pending or closed, or from pending to closed. */
  predicate Step(before: Place, after: Place)
  {
    || before == after
    || (before == Waiting && after == Pending)
    || (before == Waiting && after == Closed)
    || (before == Pending && after == Closed)
  }

  /** The position of the first occurrence of `x`. */
  function FirstIndex(xs: seq<int>, x: int): (i: nat)
    requires x in xs
    ensures i < |xs| && xs[i] == x && x !in xs[..i]
  {
    if xs[0] == x then 0
    else
      assert xs[1..][..FirstIndex(xs[1..], x)] == xs[1..FirstIndex(xs[1..], x) + 1];
      1 + FirstIndex(xs[1..], x)
  }

  /** Splicing element j out of the tail and putting the head back splices
      element j + 1 out of the whole. */
  lemma ConsSplice(xs: seq<int>, j: nat)
    requires j + 1 < |xs|
    ensures [xs[0]] + (xs[1..][..j] + xs[1..][j + 1..]) == xs[..j + 1] + xs[j + 2..]
  {
    assert xs[..j + 1] == [xs[0]] + xs[1..][..j];
    assert xs[j + 2..] == xs[1..][j + 1..];
  }

  /** Removes the first occurrence of `x` (the iterator's `remove`): the
      other elements keep their order. */
  function RemoveFirst(xs: seq<int>, x: int): (ys: seq<int>)
    ensures x !in xs ==> ys == xs
    ensures x in xs ==> ys == xs[..FirstIndex(xs, x)] + xs[FirstIndex(xs, x) + 1..]
    ensures forall y :: y in ys ==> y in xs
    ensures forall y :: y in xs && y != x ==> y in ys
    ensures NoDup(xs) ==> NoDup(ys) && x !in ys
  {
    if |xs| == 0 then []
    else if xs[0] == x then
      assert xs == [xs[0]] + xs[1..];
      xs[1..]
    else
      var rest := RemoveFirst(xs[1..], x);
      ConsFacts(xs, rest);
      if x in xs then
        ConsSplice(xs, FirstIndex(xs[1..], x));
        [xs[0]] + rest
      else
        [xs[0]] + rest
  }

  /** Putting the head back in front of a list drawn from the tail. */
  lemma ConsFacts(xs: seq<int>, rest: seq<int>)
    requires |xs| > 0
    ensures xs == [xs[0]] + xs[1..]
    ensures NoDup(xs) ==> NoDup(xs[1..]) && xs[0] !in xs[1..]
    ensures NoDup(xs[1..]) && NoDup(rest) && xs[0] !in rest ==> NoDup([xs[0]] + rest)
  {
    assert xs == [xs[0]] + xs[1..];
    if NoDup(xs) {
      assert forall j :: 1 <= j < |xs| ==> xs[j] == xs[1..][j - 1];
    }
  }

  function Init(timeout: int): (s: Layer)
    ensures Valid(s)
    ensures forall id :: 0 <= id < NB_IDS ==> PlaceOf(s, id) == Free
  {
    Layer(seq(NB_IDS, _ => Conversation(true, Short, 0)), [], [], [], 0, timeout)
  }

  // ---------------------------------------------------------------------
  // Allocation of a conversation id (getNextAvailableConversation)
  // ---------------------------------------------------------------------

  /** The id probed at offset `i` of a cyclic scan starting at `start`. */
  function Probe(start: int, i: int): (id: int)
    ensures 0 <= id < NB_IDS
  {
    (start + i) % NB_IDS
  }

  /** The first offset `k >= j` such that id `Probe(start, k)` is free. */
  function FreeOffset(convs: seq<Conversation>, start: int, j: nat): (k: Option<nat>)
    requires |convs| == NB_IDS && j <= NB_IDS
    decreases NB_IDS - j
    ensures k.Some? ==> j <= k.value < NB_IDS && convs[Probe(start, k.value)].libre
    ensures k.Some? ==> forall i :: j <= i < k.value ==> !convs[Probe(start, i)].libre
    ensures k.None? ==> forall i :: j <= i < NB_IDS ==> !convs[Probe(start, i)].libre
  {
    if j == NB_IDS then None
    else if convs[Probe(start, j)].libre then Some(j)
    else FreeOffset(convs, start, j + 1)
  }

  /** The distance from `start` to `id` in the cyclic scan order. */
  function Offset(start: int, id: int): (k: int)
    ensures 0 <= k < NB_IDS
  {
    (id - start) % NB_IDS
  }

  /** Every id is reached by the cyclic scan, at its offset. */
  lemma ScanCoversAll(start: int, id: int)
    requires 0 <= id < NB_IDS
    ensures Probe(start, Offset(start, id)) == id
  {
  }

  /** An offset names the probe it reaches. */
  lemma OffsetOfProbe(start: int, k: int)
    requires 0 <= k < NB_IDS
    ensures Offset(start, Probe(start, k)) == k
  {
  }

  /** Takes the id found by a successful scan. */
  function Take(s: Layer, id: int): (s': Layer)
    requires Valid(s) && 0 <= id < NB_IDS && s.conversations[id].libre
    ensures Valid(s')
  {
    s.(conversations := s.conversations[id := s.conversations[id].(libre := false)],
       waiting := s.waiting + [id],
       lastId := id)
  }

  /** getNextAvailableConversation with the scan reduced modulo 256 from the
      first probe on: the first free id after `lastId`, in cyclic order, is
      taken and appended to the waiting list. The source waits for another
      thread to free an id when none is free; this sequential model reports
      NoFreeId instead. */
  function Allocate(s: Layer): (r: Result<(Layer, int), AllocError>)
    requires Valid(s)
    ensures r.Err? <==> forall id :: 0 <= id < NB_IDS ==> !s.conversations[id].libre
    ensures r.Err? ==> r.error == NoFreeId
    ensures r.Ok? ==>
      var (s', id) := r.value;
      && Valid(s')
      && 0 <= id < NB_IDS
      && s.conversations[id].libre && !s'.conversations[id].libre
      && PlaceOf(s, id) == Free && PlaceOf(s', id) == Waiting
      && s'.waiting == s.waiting + [id]
      && s'.pending == s.pending && s'.closed == s.closed
      && s'.lastId == id
      && (forall other :: 0 <= other < NB_IDS && other != id ==>
            s'.conversations[other] == s.conversations[other])
      && (forall other :: 0 <= other < NB_IDS && s.conversations[other].libre ==>
            Offset(s.lastId + 1, id) <= Offset(s.lastId + 1, other))
  {
    var start := s.lastId + 1;
    match FreeOffset(s.conversations, start, 0)
    case None =>
      assert forall id :: 0 <= id < NB_IDS ==> !s.conversations[id].libre by {
        forall id | 0 <= id < NB_IDS ensures !s.conversations[id].libre {
          ScanCoversAll(start, id);
        }
      }
      Err(NoFreeId)
    case Some(k) =>
      var id := Probe(start, k);
      OffsetOfProbe(start, k);
      assert forall other :: 0 <= other < NB_IDS && s.conversations[other].libre ==>
          k <= Offset(start, other) by {
        forall other | 0 <= other < NB_IDS && s.conversations[other].libre
          ensures k <= Offset(start, other)
        {
          ScanCoversAll(start, other);
        }
      }
      Ok((Take(s, id), id))
  }

  /** getNextAvailableConversation as written: the first increment of
      `dernierIDutilise` is not masked, so once id 255 has been handed out,
      the next call probes `conversations[256]`. */
  function AllocateAsWritten(s: Layer): (r: Result<(Layer, int), AllocError>)
    requires Valid(s)
    ensures s.lastId < NB_IDS - 1 ==> r == Allocate(s)
    ensures s.lastId == NB_IDS - 1 ==> r == Err(IndexOutOfBounds(NB_IDS))
  {
    var probe := s.lastId + 1;
    if probe >= NB_IDS then Err(IndexOutOfBounds(probe))
    else Allocate(s)
  }

  /** The as-written allocation fails right after id 255 is handed out,
      although other ids are still free. */
  lemma {:induction false} AllocateAsWrittenOverflows(s: Layer)
    requires Valid(s)
    requires s.lastId == NB_IDS - 2
    requires s.conversations[NB_IDS - 1].libre && s.conversations[0].libre
    ensures Allocate(s).Ok?
    ensures Allocate(s).value.1 == NB_IDS - 1
    ensures Allocate(s).value.0.conversations[0].libre
    ensures AllocateAsWritten(Allocate(s).value.0) == Err(IndexOutOfBounds(NB_IDS))
  {
    assert Probe(s.lastId + 1, 0) == NB_IDS - 1;
    assert FreeOffset(s.conversations, s.lastId + 1, 0) == Some(0);
  }

  // ---------------------------------------------------------------------
  // processFrame
  // ---------------------------------------------------------------------

  /** EXECUTION_BEGIN of a long order: from the waiting list to the end of
      the pending list. */
  function WaitingToPending(s: Layer, id: int): (s': Layer)
    requires Valid(s) && id in s.waiting
    ensures Valid(s')
    ensures s'.waiting == RemoveFirst(s.waiting, id) && s'.pending == s.pending + [id]
    ensures s'.closed == s.closed && s'.conversations == s.conversations && s'.lastId == s.lastId
    ensures PlaceOf(s', id) == Pending
    ensures forall x :: x != id ==> PlaceOf(s', x) == PlaceOf(s, x)
  {
    s.(waiting := RemoveFirst(s.waiting, id), pending := s.pending + [id])
  }

  /** A conversation that ends now: out of `from` (the waiting or the
      pending list), stamped with its death date, to the end of the closed
      list. */
  function CloseConversation(s: Layer, id: int, fromWaiting: bool, deathDate: int): (s': Layer)
    requires Valid(s)
    requires fromWaiting ==> id in s.waiting
    requires !fromWaiting ==> id in s.pending
    ensures Valid(s')
    ensures fromWaiting ==> s'.waiting == RemoveFirst(s.waiting, id) && s'.pending == s.pending
    ensures !fromWaiting ==> s'.pending == RemoveFirst(s.pending, id) && s'.waiting == s.waiting
    ensures s'.closed == s.closed + [id] && s'.lastId == s.lastId
    ensures s'.conversations == s.conversations[id := s.conversations[id].(deathDate := deathDate)]
    ensures PlaceOf(s', id) == Closed
    ensures forall x :: x != id ==> PlaceOf(s', x) == PlaceOf(s, x)
  {
    var convs := s.conversations[id := s.conversations[id].(deathDate := deathDate)];
    if fromWaiting then
      s.(waiting := RemoveFirst(s.waiting, id), conversations := convs, closed := s.closed + [id])
    else
      s.(pending := RemoveFirst(s.pending, id), conversations := convs, closed := s.closed + [id])
  }

  /** processFrame: looks the frame's id up in the waiting, then pending,
      then closed list and applies the protocol's transition, or reports the
      ProtocolException the source throws. `deathDate` is the date
      setDeathDate stamps on a conversation that closes now. */
  function ProcessFrame(s: Layer, f: Frame, deathDate: int): (r: Result<(Layer, Reply), ProtocolError>)
    requires Valid(s)
    ensures r.Ok? ==> Valid(r.value.0)
    ensures r.Ok? ==> Step(PlaceOf(s, f.id), PlaceOf(r.value.0, f.id))
    ensures r.Ok? ==> forall id :: id != f.id ==> PlaceOf(r.value.0, id) == PlaceOf(s, id)
    ensures r.Ok? ==> forall id :: 0 <= id < NB_IDS ==>
      r.value.0.conversations[id].libre == s.conversations[id].libre
    ensures r.Ok? ==> r.value.0.lastId == s.lastId
    ensures r.Ok? && r.value.1.paquet.Some? ==>
      && 0 <= f.id < NB_IDS
      && r.value.1.paquet.value == Paquet(f.message, f.id, s.conversations[f.id].kind)
    ensures PlaceOf(s, f.id) == Free ==> r == Err(UnknownId(f.id))
    ensures r.Ok? && r.value.1.endOrderSent.Some? ==>
      r.value.1.endOrderSent.value == f.id && PlaceOf(s, f.id) == Pending && PlaceOf(r.value.0, f.id) == Closed
  {
    if f.id in s.waiting then
      var c := s.conversations[f.id];
      match f.code
      case ExecutionBegin =>
        if c.kind == Long then
          Ok((WaitingToPending(s, f.id), Reply(None, None)))
        else Err(WrongOrderType(f.code, c.kind))
      case ValueAnswer =>
        if c.kind == Short then
          Ok((CloseConversation(s, f.id, true, deathDate), Reply(Some(Paquet(f.message, f.id, c.kind)), None)))
        else Err(WrongOrderType(f.code, c.kind))
      case _ => Err(UnexpectedCode(f.code, Waiting))
    else if f.id in s.pending then
      var c := s.conversations[f.id];
      match f.code
      case ExecutionEnd =>
        Ok((CloseConversation(s, f.id, false, deathDate), Reply(Some(Paquet(f.message, f.id, c.kind)), Some(f.id))))
      case StatusUpdate =>
        Ok((s, Reply(Some(Paquet(f.message, f.id, c.kind)), None)))
      case _ => Err(UnexpectedCode(f.code, Pending))
    else if f.id in s.closed then
      var c := s.conversations[f.id];
      if f.code == ExecutionEnd && c.kind == Long then Ok((s, Reply(None, None)))
      else Err(UnexpectedCode(f.code, Closed))
    else
      Err(UnknownId(f.id))
  }

  /** EXECUTION_BEGIN for a waiting LONG order moves it to the end of the
      pending list and returns no packet; for a SHORT order it is refused. */
  lemma ExecutionBeginOnWaiting(s: Layer, id: int, message: seq<int>, deathDate: int)
    requires Valid(s) && id in s.waiting
    ensures var r := ProcessFrame(s, Frame(ExecutionBegin, id, message), deathDate);
      if s.conversations[id].kind == Long then
        && r.Ok?
        && r.value.0.waiting == RemoveFirst(s.waiting, id)
        && r.value.0.pending == s.pending + [id]
        && r.value.0.closed == s.closed
        && r.value.1 == Reply(None, None)
      else r.Err?
  {
  }

  /** VALUE_ANSWER for a waiting SHORT order closes it with its death date and
      returns the packet; for a LONG order it is refused. */
  lemma ValueAnswerOnWaiting(s: Layer, id: int, message: seq<int>, deathDate: int)
    requires Valid(s) && id in s.waiting
    ensures var r := ProcessFrame(s, Frame(ValueAnswer, id, message), deathDate);
      if s.conversations[id].kind == Short then
        && r.Ok?
        && r.value.0.waiting == RemoveFirst(s.waiting, id)
        && r.value.0.closed == s.closed + [id]
        && r.value.0.pending == s.pending
        && r.value.0.conversations[id].deathDate == deathDate
        && r.value.1 == Reply(Some(Paquet(message, id, Short)), None)
      else r.Err?
  {
  }

  /** EXECUTION_END for a pending id sends END_ORDER, closes the id and
      returns the packet; STATUS_UPDATE returns a packet and changes nothing. */
  lemma PendingFrames(s: Layer, id: int, message: seq<int>, deathDate: int)
    requires Valid(s) && id in s.pending
    ensures var r := ProcessFrame(s, Frame(ExecutionEnd, id, message), deathDate);
      && r.Ok?
      && r.value.0.pending == RemoveFirst(s.pending, id)
      && r.value.0.closed == s.closed + [id]
      && r.value.0.waiting == s.waiting
      && r.value.1 == Reply(Some(Paquet(message, id, s.conversations[id].kind)), Some(id))
    ensures ProcessFrame(s, Frame(StatusUpdate, id, message), deathDate)
      == Ok((s, Reply(Some(Paquet(message, id, s.conversations[id].kind)), None)))
  {
  }

  /** On a closed id only a repeated EXECUTION_END of a LONG order is
      accepted, and it is ignored; an id found in no list is refused. */
  lemma ClosedFrames(s: Layer, f: Frame, deathDate: int)
    requires Valid(s) && f.id in s.closed
    ensures var r := ProcessFrame(s, f, deathDate);
      r.Ok? <==> (f.code == ExecutionEnd && s.conversations[f.id].kind == Long)
    ensures var r := ProcessFrame(s, f, deathDate);
      r.Ok? ==> r.value == (s, Reply(None, None))
  {
    assert f.id !in s.waiting && f.id !in s.pending;
  }

  /** A frame returns no packet exactly when it is a signalling frame: the
      EXECUTION_BEGIN of a long order or a repeated EXECUTION_END. */
  lemma SignallingFrames(s: Layer, f: Frame, deathDate: int)
    requires Valid(s)
    ensures var r := ProcessFrame(s, f, deathDate);
      (r.Ok? && r.value.1.paquet.None?) <==>
        ((PlaceOf(s, f.id) == Waiting && f.code == ExecutionBegin && s.conversations[f.id].kind == Long)
        || (PlaceOf(s, f.id) == Closed && f.code == ExecutionEnd && s.conversations[f.id].kind == Long))
  {
  }

  // ---------------------------------------------------------------------
  // kill, resend and the delays
  // ---------------------------------------------------------------------

  /** The number of ids at the head of `closed` that need to die: kill's
      loop stops at the first one that does not. */
  function DeathCount(closed: seq<int>, needDeath: int -> bool): (n: nat)
    ensures n <= |closed|
    ensures forall i :: 0 <= i < n ==> needDeath(closed[i])
    ensures n < |closed| ==> !needDeath(closed[n])
  {
    if |closed| == 0 || !needDeath(closed[0]) then 0
    else
      var n := DeathCount(closed[1..], needDeath);
      assert forall i :: 1 <= i < n + 1 ==> closed[i] == closed[1..][i - 1];
      n + 1
  }

  /** Frees the first `n` ids of the closed list. */
  function FreeClosedPrefix(s: Layer, n: nat): (s': Layer)
    requires Valid(s) && n <= |s.closed|
    ensures Valid(s')
    ensures s'.closed == s.closed[n..]
    ensures forall i :: 0 <= i < n ==> PlaceOf(s', s.closed[i]) == Free
    ensures s'.waiting == s.waiting && s'.pending == s.pending && s'.lastId == s.lastId
    ensures forall id :: 0 <= id < NB_IDS && id !in s.closed ==> s'.conversations[id] == s.conversations[id]
  {
    var dead := s.closed[..n];
    SplitNoDup(s.closed, n);
    s.(closed := s.closed[n..],
       conversations := seq(NB_IDS, id requires 0 <= id < NB_IDS =>
         if id in dead then s.conversations[id].(libre := true) else s.conversations[id]))
  }

  /** A list without duplicates splits into a head and a tail that share no
      element. */
  lemma SplitNoDup(c: seq<int>, n: nat)
    requires NoDup(c) && InRange(c) && n <= |c|
    ensures NoDup(c[n..]) && InRange(c[n..])
    ensures forall x :: x in c[n..] ==> x in c && x !in c[..n]
    ensures forall x :: x in c ==> x in c[..n] || x in c[n..]
    ensures forall i :: 0 <= i < n ==> c[i] in c[..n]
  {
    assert c == c[..n] + c[n..];
    forall x | x in c[n..]
      ensures x !in c[..n] && x in c
    {
      var k :| 0 <= k < |c| - n && c[n..][k] == x;
      assert c[n + k] == x;
      assert forall i :: 0 <= i < n ==> c[..n][i] != x;
    }
  }

  /** kill: frees ids from the head of the closed list, in order, while the
      head needs to die. */
  function Kill(s: Layer, needDeath: int -> bool): (s': Layer)
    requires Valid(s)
    ensures Valid(s')
    ensures |s'.closed| <= |s.closed|
    ensures s'.closed == s.closed[|s.closed| - |s'.closed|..]
    ensures forall i :: 0 <= i < |s.closed| - |s'.closed| ==> needDeath(s.closed[i])
    ensures forall i :: 0 <= i < |s.closed| - |s'.closed| ==> PlaceOf(s', s.closed[i]) == Free
    ensures |s'.closed| > 0 ==> !needDeath(s'.closed[0])
    ensures s'.waiting == s.waiting && s'.pending == s.pending && s'.lastId == s.lastId
    ensures forall id :: 0 <= id < NB_IDS && id !in s.closed ==> s'.conversations[id] == s.conversations[id]
  {
    var n := DeathCount(s.closed, needDeath);
    var s' := FreeClosedPrefix(s, n);
    assert |s'.closed| == |s.closed| - n;
    s'
  }

  /** resend: when the head of the waiting list needs resending, it is moved
      to the tail and reported as the frame to send again. */
  function Resend(s: Layer, needResend: int -> bool): (r: (Layer, Option<int>))
    requires Valid(s)
    ensures Valid(r.0)
    ensures multiset(r.0.waiting) == multiset(s.waiting)
    ensures r.1.Some? <==> (|s.waiting| > 0 && needResend(s.waiting[0]))
    ensures r.1.Some? ==> r.1.value == s.waiting[0] && r.0.waiting == s.waiting[1..] + [s.waiting[0]]
    ensures r.1.None? ==> r.0 == s
    ensures r.0.conversations == s.conversations && r.0.pending == s.pending && r.0.closed == s.closed
  {
    if |s.waiting| > 0 && needResend(s.waiting[0]) then
      var id := s.waiting[0];
      assert s.waiting == [id] + s.waiting[1..];
      var s' := s.(waiting := s.waiting[1..] + [id]);
      assert forall x :: x in s'.waiting <==> x in s.waiting;
      assert Valid(s');
      (s', Some(id))
    else (s, None)
  }

  /** timeBeforeResend: the delay of the oldest waiting frame, or the
      timeout when nothing waits, never negative. `remaining(id)` is the
      conversation's own timeBeforeResend. */
  function TimeBeforeResend(s: Layer, remaining: int -> int): (t: int)
    ensures t >= 0
    ensures |s.waiting| == 0 ==> (t == s.timeout || (s.timeout < 0 && t == 0))
    ensures |s.waiting| > 0 ==> (t == remaining(s.waiting[0]) || (remaining(s.waiting[0]) < 0 && t == 0))
  {
    var out := if |s.waiting| > 0 then remaining(s.waiting[0]) else s.timeout;
    if out > 0 then out else 0
  }

  /** timeBeforeDeath: the delay of the oldest closed frame, or twice the
      timeout, never negative. */
  function TimeBeforeDeath(s: Layer, remaining: int -> int): (t: int)
    ensures t >= 0
    ensures |s.closed| == 0 ==> (t == 2 * s.timeout || (s.timeout < 0 && t == 0))
    ensures |s.closed| > 0 ==> (t == remaining(s.closed[0]) || (remaining(s.closed[0]) < 0 && t == 0))
  {
    var out := if |s.closed| > 0 then remaining(s.closed[0]) else 2 * s.timeout;
    if out > 0 then out else 0
  }

  /** sendOrder: allocates a conversation and records the order's type. */
  function SendOrder(s: Layer, kind: OrderType): (r: Result<(Layer, int), AllocError>)
    requires Valid(s)
    ensures r.Ok? ==> Valid(r.value.0) && PlaceOf(r.value.0, r.value.1) == Waiting
    ensures r.Ok? ==> r.value.0.conversations[r.value.1].kind == kind
    ensures r.Err? <==> Allocate(s).Err?
  {
    match Allocate(s)
    case Err(e) => Err(e)
    case Ok((s', id)) =>
      var c := s'.conversations[id];
      Ok((s'.(conversations := s'.conversations[id := c.(kind := kind)]), id))
  }

  /** Any sequence of frames keeps every id in at most one list. */
  lemma {:induction false} FramesPreserveValid(s: Layer, frames: seq<Frame>, deathDate: int)
    requires Valid(s)
    ensures Valid(ApplyFrames(s, frames, deathDate))
    decreases |frames|
  {
    if |frames| > 0 {
      match ProcessFrame(s, frames[0], deathDate)
      case Err(_) =>
        FramesPreserveValid(s, frames[1..], deathDate);
      case Ok((s', _)) =>
        FramesPreserveValid(s', frames[1..], deathDate);
    }
  }

  /** readData's loop over processFrame: a refused frame is logged and the
      state is left as it was. */
  function ApplyFrames(s: Layer, frames: seq<Frame>, deathDate: int): Layer
    requires Valid(s)
    decreases |frames|
  {
    if |frames| == 0 then s
    else
      match ProcessFrame(s, frames[0], deathDate)
      case Err(_) => ApplyFrames(s, frames[1..], deathDate)
      case Ok((s', _)) => ApplyFrames(s', frames[1..], deathDate)
  }

  // ---------------------------------------------------------------------
  // readFrame
  // ---------------------------------------------------------------------

  /** A frame as read from the line: code, length, id, message, checksum. */
  datatype RawFrame = RawFrame(code: int, length: int, id: int, message: seq<int>, checksum: int)

  datatype ReadError = BadLength(length: int) | BadBeginLength(length: int) | MissingCharacter

  /** The header checks of readFrame. */
  predicate WellFormed(f: RawFrame, beginCode: int)
  {
    && 4 <= f.length <= 255
    && !(f.length > 4 && f.code == beginCode)
    && |f.message| == f.length - 4
  }

  function EncodeFrame(f: RawFrame): seq<int>
  {
    [f.code, f.length, f.id] + f.message + [f.checksum]
  }

  /** readFrame over the incoming byte stream; returns the frame and the
      bytes left. `beginCode` is the numeric code of EXECUTION_BEGIN. */
  function ReadFrame(input: seq<int>, beginCode: int): (r: Result<(RawFrame, seq<int>), ReadError>)
    ensures r.Ok? ==> WellFormed(r.value.0, beginCode) && input == EncodeFrame(r.value.0) + r.value.1
    ensures |input| >= 2 && (input[1] < 4 || input[1] > 255) ==> r == Err(BadLength(input[1]))
    ensures |input| >= 2 && 4 < input[1] <= 255 && input[0] == beginCode ==> r == Err(BadBeginLength(input[1]))
  {
    if |input| < 2 then Err(MissingCharacter)
    else
      var code := input[0];
      var length := input[1];
      if length < 4 || length > 255 then Err(BadLength(length))
      else if length > 4 && code == beginCode then Err(BadBeginLength(length))
      else if |input| < 3 + (length - 4) + 1 then Err(MissingCharacter)
      else
        var id := input[2];
        var message := input[3..3 + (length - 4)];
        var checksum := input[3 + (length - 4)];
        var f := RawFrame(code, length, id, message, checksum);
        assert input == EncodeFrame(f) + input[4 + (length - 4)..];
        Ok((f, input[4 + (length - 4)..]))
  }

  /** Reading back an encoded well-formed frame yields it and the rest. */
  lemma ReadEncodedFrame(f: RawFrame, rest: seq<int>, beginCode: int)
    requires WellFormed(f, beginCode)
    ensures ReadFrame(EncodeFrame(f) + rest, beginCode) == Ok((f, rest))
  {
    var input := EncodeFrame(f) + rest;
    assert input[0] == f.code && input[1] == f.length && input[2] == f.id;
    assert input[3..3 + (f.length - 4)] == f.message;
    assert input[3 + (f.length - 4)] == f.checksum;
    assert input[4 + (f.length - 4)..] == rest;
  }
}
