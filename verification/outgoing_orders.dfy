/** The outgoing order buffer of the serial link
    (pc/src/serie/BufferOutgoingOrder.java): three priority levels (a
    pending stop, the curved-trajectory orders, everything else) and the
    byte packing of positions, angles and curvatures into order payloads.
    Tickets are identified by natural numbers handed in by the caller. */
module OutgoingOrders {
  import opened Common

  datatype OutOrder =
    | Stop | SendArc | SetMaxSpeed | AskColor
    | PullUpNet | PullDownNet | PutNetHalfway | CrossFlipFlop | OpenNet | CloseNet
    | EjectRightSide | EjectLeftSide | RearmRightSide | RearmLeftSide
    | EditPosition | WaitForJumper | StartMatchChrono | StartStreamAll

  datatype Order = Order(kind: OutOrder, payload: seq<int>, ticket: Option<nat>)

  /** `low` is the low-priority list, `traj` the curved-trajectory list and
      `stop` the ticket of a requested stop, if any. */
  datatype Buffer = Buffer(low: seq<Order>, traj: seq<Order>, stop: Option<nat>)

  const Empty: Buffer := Buffer([], [], None)

  /** The order in which poll serves what the buffer holds: a pending stop
      first, and then, because serving it drops the trajectory list, the
      low-priority orders; without a stop, trajectory orders before the
      low-priority ones, each list in insertion order. */
  function Pending(b: Buffer): seq<Order>
  {
    if b.stop.Some? then [Order(Stop, [], b.stop)] + b.low
    else b.traj + b.low
  }

  /** isEmpty: both lists empty and no stop requested, which is exactly
      when nothing is left to serve. */
  function IsEmpty(b: Buffer): (e: bool)
    ensures e <==> Pending(b) == []
  {
    |b.low| == 0 && |b.traj| == 0 && b.stop.None?
  }

  /** poll: serves the next order of `Pending`, or nothing (the source's
      null) when the buffer is empty. */
  function Poll(b: Buffer): (r: (Buffer, Option<Order>))
    ensures r.1.None? <==> Pending(b) == []
    ensures r.1.Some? ==> r.1.value == Pending(b)[0] && Pending(r.0) == Pending(b)[1..]
    ensures b.stop.Some? ==> r.1 == Some(Order(Stop, [], b.stop)) && r.0 == Buffer(b.low, [], None)
  {
    if b.stop.Some? then
      (Buffer(b.low, [], None), Some(Order(Stop, [], b.stop)))
    else if |b.traj| > 0 then
      (b.(traj := b.traj[1..]), Some(b.traj[0]))
    else if |b.low| > 0 then
      (b.(low := b.low[1..]), Some(b.low[0]))
    else (b, None)
  }

  /** isEmpty holds exactly when poll has nothing to serve. */
  lemma EmptyIffNothingToPoll(b: Buffer)
    ensures IsEmpty(b) <==> Poll(b).1.None?
  {
  }

  /** Polling repeatedly serves the orders of `Pending`, in order. */
  function Drain(b: Buffer, n: nat): seq<Order>
    decreases n
  {
    if n == 0 then []
    else
      var (b', o) := Poll(b);
      match o
      case None => []
      case Some(order) => [order] + Drain(b', n - 1)
  }

  lemma {:induction false} DrainServesPending(b: Buffer)
    ensures Drain(b, |Pending(b)|) == Pending(b)
    decreases |Pending(b)|
  {
    if |Pending(b)| > 0 {
      var (b', o) := Poll(b);
      DrainServesPending(b');
    }
  }

  /** immobilise: the stop becomes the next order served and the trajectory
      orders queued so far are never served. */
  function Immobilise(b: Buffer, ticket: nat): (r: Buffer)
    ensures Pending(r) == [Order(Stop, [], Some(ticket))] + b.low
    ensures !IsEmpty(r)
  {
    b.(stop := Some(ticket))
  }

  /** Adding a low-priority order puts it last in the service order. */
  function AddLow(b: Buffer, o: Order): (r: Buffer)
    ensures Pending(r) == Pending(b) + [o]
  {
    b.(low := b.low + [o])
  }

  /** Adding trajectory orders serves them before every low-priority order,
      unless a stop is pending, which cancels them. */
  function AddTraj(b: Buffer, os: seq<Order>): (r: Buffer)
    ensures b.stop.None? ==> Pending(r) == b.traj + os + b.low
    ensures b.stop.Some? ==> Pending(r) == Pending(b)
  {
    b.(traj := b.traj + os)
  }

  // ---------------------------------------------------------------------
  // ByteBuffer
  // ---------------------------------------------------------------------

  /** A java.nio.ByteBuffer of fixed capacity being written from the start. */
  datatype ByteBuf = ByteBuf(capacity: nat, data: seq<int>)

  datatype BufferOverflow = BufferOverflow

  function AllocateBytes(n: nat): ByteBuf
  {
    ByteBuf(n, [])
  }

  /** The two bytes `putShort` writes, most significant first. */
  function ShortBytes(v: int): (bs: seq<int>)
    ensures |bs| == 2 && 0 <= bs[0] < 256 && 0 <= bs[1] < 256
    ensures bs[0] * 256 + bs[1] == Low16(v)
  {
    var w := Low16(v);
    [w / 256, w % 256]
  }

  /** The signed short the low level reads from two bytes. */
  function DecodeShort(bs: seq<int>): int
    requires |bs| == 2
  {
    var w := bs[0] * 256 + bs[1];
    if w >= 0x8000 then w - 0x1_0000 else w
  }

  /** A value in the range of a Java short survives `putShort`. */
  lemma ShortRoundTrip(v: int)
    requires -0x8000 <= v < 0x8000
    ensures DecodeShort(ShortBytes(v)) == v
  {
  }

  /** `put(byte)`: the low eight bits, or BufferOverflowException. */
  function Put(b: ByteBuf, v: int): (r: Result<ByteBuf, BufferOverflow>)
    ensures r.Ok? <==> |b.data| < b.capacity
    ensures r.Ok? ==> r.value == ByteBuf(b.capacity, b.data + [Low8(v)])
  {
    if |b.data| < b.capacity then Ok(b.(data := b.data + [Low8(v)])) else Err(BufferOverflow)
  }

  /** `putShort`: checks for two free bytes before writing anything. */
  function PutShort(b: ByteBuf, v: int): (r: Result<ByteBuf, BufferOverflow>)
    ensures r.Ok? <==> |b.data| + 2 <= b.capacity
    ensures r.Ok? ==> r.value == ByteBuf(b.capacity, b.data + ShortBytes(v))
  {
    if |b.data| + 2 <= b.capacity then Ok(b.(data := b.data + ShortBytes(v))) else Err(BufferOverflow)
  }

  // ---------------------------------------------------------------------
  // addXYO
  // ---------------------------------------------------------------------

  /** The five bytes addXYO writes for integer coordinates `x`, `y` (the
      `(int)` casts already applied) and the angle code `theta`: x+1500 and
      y on twelve bits each over three bytes, then theta as a short. The
      arithmetic shifts `>> 4` and `>> 8` are floor divisions. */
  function XYOBytes(x: int, y: int, theta: int): (bs: seq<int>)
    ensures |bs| == 5
    ensures forall i :: 0 <= i < 5 ==> 0 <= bs[i] < 256
    ensures bs[3..] == ShortBytes(theta)
  {
    [Low8((x + 1500) / 16), Low8((x + 1500) * 16 + y / 256), Low8(y)] + ShortBytes(theta)
  }

  /** What the low level reads back from the first three bytes. */
  function DecodeXY(bs: seq<int>): (xy: (int, int))
    requires |bs| >= 3
  {
    (bs[0] * 16 + bs[1] / 16, (bs[1] % 16) * 256 + bs[2])
  }

  /** Whatever the bytes, the decoded coordinates are twelve-bit values. */
  lemma DecodeXYBounds(bs: seq<int>)
    requires |bs| >= 3 && forall i :: 0 <= i < 3 ==> 0 <= bs[i] < 256
    ensures 0 <= DecodeXY(bs).0 < 4096 && 0 <= DecodeXY(bs).1 < 4096
  {
  }

  /** Within twelve bits, each of the three bytes holds its share exactly. */
  lemma PackedBytes(X: int, y: int)
    requires 0 <= X < 4096 && 0 <= y < 4096
    ensures Low8(X / 16) == X / 16
    ensures Low8(X * 16 + y / 256) == (X % 16) * 16 + y / 256
    ensures Low8(y) == y % 256
  {
    var hi := X / 16;
    var mid := (X % 16) * 16 + y / 256;
    assert X * 16 + y / 256 == hi * 256 + mid;
  }

  /** The packing decodes back exactly when both coordinates fit in twelve
      bits. */
  lemma XYRoundTrip(x: int, y: int, theta: int)
    ensures DecodeXY(XYOBytes(x, y, theta)) == (x + 1500, y)
        <==> (0 <= x + 1500 < 4096 && 0 <= y < 4096)
  {
    var bs := XYOBytes(x, y, theta);
    DecodeXYBounds(bs);
    if 0 <= x + 1500 < 4096 && 0 <= y < 4096 {
      PackedBytes(x + 1500, y);
      var mid := ((x + 1500) % 16) * 16 + y / 256;
      assert mid / 16 == (x + 1500) % 16 && mid % 16 == y / 256;
    }
  }

  /** addXYO on a ByteBuffer, with the angle code given. */
  function AddXYOWith(b: ByteBuf, x: int, y: int, theta: int): (r: Result<ByteBuf, BufferOverflow>)
    requires |b.data| <= b.capacity
    ensures r.Ok? <==> |b.data| + 5 <= b.capacity
    ensures r.Ok? ==> r.value == ByteBuf(b.capacity, b.data + XYOBytes(x, y, theta))
  {
    var bs := XYOBytes(x, y, theta);
    match Put(b, (x + 1500) / 16)
    case Err(e) => Err(e)
    case Ok(b1) =>
      match Put(b1, (x + 1500) * 16 + y / 256)
      case Err(e) => Err(e)
      case Ok(b2) =>
        match Put(b2, y)
        case Err(e) => Err(e)
        case Ok(b3) =>
          assert b3.data == b.data + bs[..3];
          assert bs == bs[..3] + bs[3..];
          PutShort(b3, theta)
  }

  /** The angle code as written: `angle % 2*Math.PI` parses as
      `(angle % 2) * Math.PI`. */
  function ThetaAsWritten(angle: real): (t: int)
    ensures t as real - 0.5 <= RealRem(angle, 2.0) * PI * 1000.0 < t as real + 0.5
  {
    Round(RealRem(angle, 2.0) * PI * 1000.0)
  }

  /** The angle code with the remainder taken modulo 2π: the angle reduced
      into (-2π, 2π), in milliradians, rounded. */
  function Theta(angle: real): (t: int)
    ensures t as real - 0.5 <= RealRem(angle, 2.0 * PI) * 1000.0 < t as real + 0.5
    ensures angle >= 0.0 ==> 0 <= t <= 6284
    ensures angle < 0.0 ==> -6284 <= t <= 0
  {
    Round(RealRem(angle, 2.0 * PI) * 1000.0)
  }

  /** The corrected code always fits a short: it is sent without wrap-around. */
  lemma ThetaFitsShort(angle: real)
    ensures -0x8000 <= Theta(angle) < 0x8000
  {
  }

  /** For an angle of one radian the code as written is 3142 (π radians)
      where 1000 was meant. */
  lemma ThetaPrecedenceCounterexample()
    ensures ThetaAsWritten(1.0) == 3142
    ensures Theta(1.0) == 1000
  {
    assert RealRem(1.0, 2.0) == 1.0;
    assert RealRem(1.0, 2.0 * PI) == 1.0;
  }

  /** addXYO as written. */
  function AddXYOAsWritten(b: ByteBuf, x: real, y: real, angle: real): (r: Result<ByteBuf, BufferOverflow>)
    requires |b.data| <= b.capacity
    ensures r.Ok? <==> |b.data| + 5 <= b.capacity
    ensures r.Ok? ==> r.value.data == b.data + XYOBytes(JavaIntCast(x), JavaIntCast(y), ThetaAsWritten(angle))
  {
    AddXYOWith(b, JavaIntCast(x), JavaIntCast(y), ThetaAsWritten(angle))
  }

  /** addXYO with the corrected angle code. */
  function AddXYO(b: ByteBuf, x: real, y: real, angle: real): (r: Result<ByteBuf, BufferOverflow>)
    requires |b.data| <= b.capacity
    ensures r.Ok? <==> |b.data| + 5 <= b.capacity
    ensures r.Ok? ==> r.value.data == b.data + XYOBytes(JavaIntCast(x), JavaIntCast(y), Theta(angle))
  {
    AddXYOWith(b, JavaIntCast(x), JavaIntCast(y), Theta(angle))
  }

  /** correctPosition as written: a four-byte buffer for five bytes, so the
      order is never queued. */
  function CorrectPositionAsWritten(b: Buffer, dx: real, dy: real, dOrientation: real): (r: Result<Buffer, BufferOverflow>)
    ensures r == Err(BufferOverflow)
  {
    match AddXYOAsWritten(AllocateBytes(4), dx, dy, dOrientation)
    case Err(e) => Err(e)
    case Ok(data) => Ok(AddLow(b, Order(EditPosition, data.data, None)))
  }

  lemma CorrectPositionAlwaysOverflows(b: Buffer, dx: real, dy: real, dOrientation: real)
    ensures CorrectPositionAsWritten(b, dx, dy, dOrientation) == Err(BufferOverflow)
  {
  }

  /** correctPosition with a five-byte buffer: the EDIT_POSITION order is
      queued last with the packed delta. */
  function CorrectPosition(b: Buffer, dx: real, dy: real, dOrientation: real): (r: Result<Buffer, BufferOverflow>)
    ensures r.Ok?
    ensures Pending(r.value) == Pending(b) +
      [Order(EditPosition, XYOBytes(JavaIntCast(dx), JavaIntCast(dy), Theta(dOrientation)), None)]
  {
    match AddXYO(AllocateBytes(5), dx, dy, dOrientation)
    case Err(e) => Err(e)
    case Ok(data) =>
      assert data.data == XYOBytes(JavaIntCast(dx), JavaIntCast(dy), Theta(dOrientation));
      Ok(AddLow(b, Order(EditPosition, data.data, None)))
  }

  // ---------------------------------------------------------------------
  // The low-priority orders with a payload
  // ---------------------------------------------------------------------

  /** setMaxSpeed: the signed speed in mm/s as a short. */
  function SetMaxSpeedOrder(b: Buffer, speed: real): (r: Buffer)
    ensures Pending(r) == Pending(b) + [Order(SetMaxSpeed, ShortBytes(JavaIntCast(speed * 1000.0)), None)]
  {
    AddLow(b, Order(SetMaxSpeed, ShortBytes(JavaIntCast(speed * 1000.0)), None))
  }

  /** beginFollowTrajectory: the initial speed, negated when going backward. */
  function BeginFollowTrajectory(b: Buffer, speed: real, forward: bool, ticket: nat): (r: Buffer)
    ensures var v := if forward then speed * 1000.0 else -speed * 1000.0;
      Pending(r) == Pending(b) + [Order(SetMaxSpeed, ShortBytes(JavaIntCast(v)), Some(ticket))]
  {
    var v := if forward then speed * 1000.0 else -speed * 1000.0;
    AddLow(b, Order(SetMaxSpeed, ShortBytes(JavaIntCast(v)), Some(ticket)))
  }

  /** startStream: the send period as a short, then the prescaler byte. */
  function StartStream(b: Buffer, sendPeriod: int, prescaler: int): (r: Buffer)
    ensures Pending(r) == Pending(b) + [Order(StartStreamAll, ShortBytes(sendPeriod) + [Low8(prescaler)], None)]
  {
    AddLow(b, Order(StartStreamAll, ShortBytes(sendPeriod) + [Low8(prescaler)], None))
  }

  /** The payload-less orders that carry a ticket. */
  predicate TicketOrder(k: OutOrder)
  {
    k in {AskColor, PullUpNet, PullDownNet, PutNetHalfway, CrossFlipFlop, OpenNet, CloseNet,
          EjectRightSide, EjectLeftSide, RearmRightSide, RearmLeftSide}
  }

  /** demandeCouleur, leveFilet, baisseFilet, bougeFiletMiChemin,
      traverseBascule, ouvreFilet, fermeFilet, ejecte and rearme. */
  function TicketedOrder(b: Buffer, k: OutOrder, ticket: nat): (r: Buffer)
    requires TicketOrder(k)
    ensures Pending(r) == Pending(b) + [Order(k, [], Some(ticket))]
  {
    AddLow(b, Order(k, [], Some(ticket)))
  }

  /** ejecte and rearme choose their side from the flag. */
  function SideOrder(eject: bool, right: bool): (k: OutOrder)
    ensures TicketOrder(k)
    ensures eject ==> (k == EjectRightSide <==> right) && (k == EjectLeftSide <==> !right)
    ensures !eject ==> (k == RearmRightSide <==> right) && (k == RearmLeftSide <==> !right)
  {
    if eject then (if right then EjectRightSide else EjectLeftSide)
    else (if right then RearmRightSide else RearmLeftSide)
  }

  // ---------------------------------------------------------------------
  // envoieArcCourbe
  // ---------------------------------------------------------------------

  /** One point of a curved trajectory (CinematiqueObs). */
  datatype ArcPoint = ArcPoint(x: real, y: real, orientation: real, curvature: real, forward: bool)

  const REVERSAL_BIT: int := 0x8000

  /** Bit 15 of a sixteen-bit word. */
  predicate HasReversalFlag(w: int)
  {
    (w / 0x8000) % 2 == 1
  }

  /** `w | 0x8000` on a sixteen-bit word. */
  function SetReversalFlag(w: int): (r: int)
    requires 0 <= w < 0x1_0000
    ensures 0 <= r < 0x1_0000 && HasReversalFlag(r)
    ensures r % 0x8000 == w % 0x8000
  {
    if HasReversalFlag(w) then w else w + REVERSAL_BIT
  }

  /** `w & 0xEFFF` on a sixteen-bit word: clears bit 12 and nothing else. */
  function ClearBit12(w: int): (r: int)
    requires 0 <= w < 0x1_0000
    ensures 0 <= r < 0x1_0000
    ensures HasReversalFlag(r) <==> HasReversalFlag(w)
  {
    if (w / 0x1000) % 2 == 1 then w - 0x1000 else w
  }

  /** The curvature word as written: the curvature in tenths, masked with
      0xEFFF, which clears bit 12 and keeps bit 15; then the reversal flag. */
  function CurvatureWordAsWritten(curvature: real, reversal: bool): (w: int)
    ensures 0 <= w < 0x1_0000
    ensures reversal ==> HasReversalFlag(w)
    ensures !reversal ==> (HasReversalFlag(w) <==> HasReversalFlag(Low16(Round(curvature) * 10)))
  {
    var w := ClearBit12(Low16(Round(curvature) * 10));
    if reversal then SetReversalFlag(w) else w
  }

  /** A point of curvature -1 that is not a reversal already carries the
      reversal flag. */
  lemma CurvatureMaskCounterexample()
    ensures Round(-1.0) == -1
    ensures HasReversalFlag(CurvatureWordAsWritten(-1.0, false))
  {
    assert Low16(-10) == 0xFFF6;
  }

  /** The curvature word with the value confined to the low fifteen bits
      (the mask 0x7FFF): bit 15 is the reversal flag and nothing else. */
  function CurvatureWord(curvature: real, reversal: bool): (w: int)
    ensures 0 <= w < 0x1_0000
    ensures HasReversalFlag(w) <==> reversal
    ensures w % 0x8000 == Low16(Round(curvature) * 10) % 0x8000
  {
    var v := Low16(Round(curvature) * 10) % 0x8000;
    if reversal then SetReversalFlag(v) else v
  }

  /** The big-endian bytes of a word. */
  function WordBytes(w: int): (bs: seq<int>)
    requires 0 <= w < 0x1_0000
    ensures |bs| == 2 && bs[0] * 256 + bs[1] == w
  {
    [w / 256, w % 256]
  }

  /** The reversal flag goes on the last point and on every point whose
      direction differs from the next one's. */
  predicate Reversal(points: seq<ArcPoint>, k: int)
    requires 0 <= k < |points|
  {
    k + 1 == |points| || points[k].forward != points[k + 1].forward
  }

  /** The seven bytes the source sends for point `k`: addXYO with the
      angle code as written, then the curvature word as written. */
  function PointBytes(points: seq<ArcPoint>, k: int): (bs: seq<int>)
    requires 0 <= k < |points|
    ensures |bs| == 7
  {
    var p := points[k];
    XYOBytes(JavaIntCast(p.x), JavaIntCast(p.y), ThetaAsWritten(p.orientation))
      + WordBytes(CurvatureWordAsWritten(p.curvature, Reversal(points, k)))
  }

  /** The seven bytes of point `k` with the corrected angle code and the
      corrected curvature mask. */
  function CorrectedPointBytes(points: seq<ArcPoint>, k: int): (bs: seq<int>)
    requires 0 <= k < |points|
    ensures |bs| == 7
  {
    var p := points[k];
    XYOBytes(JavaIntCast(p.x), JavaIntCast(p.y), Theta(p.orientation))
      + WordBytes(CurvatureWord(p.curvature, Reversal(points, k)))
  }

  /** The two encodings of a point send the same position bytes, and both
      flag every reversal (only the corrected one flags nothing else); they
      send the same curvature word when the curvature in tenths is below
      0x1000, where neither mask changes it. */
  lemma CorrectedPointBytesScope(points: seq<ArcPoint>, k: int)
    requires 0 <= k < |points|
    ensures PointBytes(points, k)[..3] == CorrectedPointBytes(points, k)[..3]
    ensures HasReversalFlag(PointBytes(points, k)[5] * 256 + PointBytes(points, k)[6]) <== Reversal(points, k)
    ensures HasReversalFlag(CorrectedPointBytes(points, k)[5] * 256 + CorrectedPointBytes(points, k)[6]) <==> Reversal(points, k)
    ensures 0 <= Round(points[k].curvature) * 10 < 0x1000 ==>
      PointBytes(points, k)[5..] == CorrectedPointBytes(points, k)[5..]
  {
    var p := points[k];
    var rev := Reversal(points, k);
    var wa := CurvatureWordAsWritten(p.curvature, rev);
    var wc := CurvatureWord(p.curvature, rev);
    var x, y := JavaIntCast(p.x), JavaIntCast(p.y);
    SevenBytes(x, y, ThetaAsWritten(p.orientation), wa);
    SevenBytes(x, y, Theta(p.orientation), wc);
    if 0 <= Round(p.curvature) * 10 < 0x1000 {
      SmallCurvatureWord(p.curvature, rev);
    }
  }

  /** The layout of a point's seven bytes: the position bytes depend on
      the coordinates alone, and the last two bytes are the curvature word. */
  lemma SevenBytes(x: int, y: int, theta: int, w: int)
    requires 0 <= w < 0x1_0000
    ensures var bs := XYOBytes(x, y, theta) + WordBytes(w);
      bs[..3] == [Low8((x + 1500) / 16), Low8((x + 1500) * 16 + y / 256), Low8(y)]
      && bs[5..] == WordBytes(w) && bs[5] * 256 + bs[6] == w
  {
  }

  /** Below 0x1000 neither mask changes the curvature word. */
  lemma SmallCurvatureWord(curvature: real, reversal: bool)
    requires 0 <= Round(curvature) * 10 < 0x1000
    ensures CurvatureWordAsWritten(curvature, reversal) == CurvatureWord(curvature, reversal)
  {
  }

  /** The seven bytes of every point, in order. */
  function PointBlocks(points: seq<ArcPoint>): (blocks: seq<seq<int>>)
    ensures |blocks| == |points| && Sevens(blocks)
  {
    seq(|points|, k requires 0 <= k < |points| => PointBytes(points, k))
  }

  lemma PointBlock(points: seq<ArcPoint>, k: int)
    requires 0 <= k < |points|
    ensures PointBlocks(points)[k] == PointBytes(points, k)
  {
  }

  /** Every block is seven bytes long. */
  predicate Sevens(blocks: seq<seq<int>>)
  {
    forall k :: 0 <= k < |blocks| ==> |blocks[k]| == 7
  }

  /** Seven-byte blocks laid end to end. */
  function Concat(blocks: seq<seq<int>>): (bs: seq<int>)
    requires Sevens(blocks)
    ensures |bs| == 7 * |blocks|
  {
    if |blocks| == 0 then [] else Concat(blocks[..|blocks| - 1]) + blocks[|blocks| - 1]
  }

  /** Block j occupies bytes 7j to 7j+7 of the concatenation. */
  lemma {:induction false} ConcatLayout(blocks: seq<seq<int>>, j: nat)
    requires Sevens(blocks) && j < |blocks|
    ensures Concat(blocks)[7 * j .. 7 * j + 7] == blocks[j]
  {
    var n := |blocks|;
    var prefix := blocks[..n - 1];
    assert Concat(blocks) == Concat(prefix) + blocks[n - 1];
    if j < n - 1 {
      ConcatLayout(prefix, j);
      assert prefix[j] == blocks[j];
    }
  }

  /** The bytes of `count` consecutive points starting at `first`. */
  function ChunkBytes(blocks: seq<seq<int>>, first: int, count: nat): (bs: seq<int>)
    requires Sevens(blocks) && 0 <= first && first + count <= |blocks|
    ensures |bs| == 7 * count
  {
    Concat(blocks[first .. first + count])
  }

  /** The number of points order `i` of a trajectory of `size` points
      carries: 32, except the last order, which carries the remainder. */
  function ChunkSize(size: nat, i: nat): (n: nat)
    ensures n <= 32
  {
    if i == size / 32 then size % 32 else 32
  }

  /** The chunk sizes of the size/32 + 1 orders add up to the point count. */
  lemma {:induction false} ChunkSizesTotal(size: nat, n: nat)
    requires n <= size / 32 + 1
    ensures SumChunks(size, n) == if n == size / 32 + 1 then size else 32 * n
  {
    if n > 0 {
      ChunkSizesTotal(size, n - 1);
    }
  }

  function SumChunks(size: nat, n: nat): nat
  {
    if n == 0 then 0 else SumChunks(size, n - 1) + ChunkSize(size, n - 1)
  }

  /** The payload of order `i`: its index byte, then its points. */
  function ArcPayload(blocks: seq<seq<int>>, index: int, i: nat): (bs: seq<int>)
    requires Sevens(blocks) && i <= |blocks| / 32
    ensures |bs| == 1 + 7 * ChunkSize(|blocks|, i)
    ensures bs[0] == Low8(index + 32 * i)
  {
    [Low8(index + 32 * i)] + ChunkBytes(blocks, 32 * i, ChunkSize(|blocks|, i))
  }

  /** Point `k` sits in order k/32, at position k%32 of its chunk. */
  lemma PointInPayload(blocks: seq<seq<int>>, index: int, k: int)
    requires Sevens(blocks) && 0 <= k < |blocks|
    ensures k / 32 <= |blocks| / 32
    ensures 7 * (k % 32) + 8 <= |ArcPayload(blocks, index, k / 32)|
    ensures ArcPayload(blocks, index, k / 32)[7 * (k % 32) + 1 .. 7 * (k % 32) + 8] == blocks[k]
  {
    DivMod32(|blocks|, k);
    PointInChunk(blocks, index, k / 32, k % 32);
  }

  /** Division by 32 of a point index and of the point count. */
  lemma DivMod32(size: nat, k: nat)
    requires k < size
    ensures k == 32 * (k / 32) + k % 32 && 0 <= k % 32 < 32
    ensures k / 32 <= size / 32
    ensures k / 32 == size / 32 ==> k % 32 < size % 32
  {
  }

  /** Point `32 * c + j` sits at position j of order c. */
  lemma PointInChunk(blocks: seq<seq<int>>, index: int, c: nat, j: nat)
    requires Sevens(blocks)
    requires j < 32 && 32 * c + j < |blocks| && c <= |blocks| / 32
    requires c == |blocks| / 32 ==> j < |blocks| % 32
    ensures 7 * j + 8 <= |ArcPayload(blocks, index, c)|
    ensures ArcPayload(blocks, index, c)[7 * j + 1 .. 7 * j + 8] == blocks[32 * c + j]
  {
    var n := ChunkSize(|blocks|, c);
    var chunk := blocks[32 * c .. 32 * c + n];
    ConcatLayout(chunk, j);
    HeaderShift(Low8(index + 32 * c), Concat(chunk), j);
  }

  /** Past a one-byte header, block j of the body starts one byte later. */
  lemma HeaderShift(h: int, body: seq<int>, j: nat)
    requires 7 * j + 7 <= |body|
    ensures ([h] + body)[7 * j + 1 .. 7 * j + 8] == body[7 * j .. 7 * j + 7]
  {
  }

  /** `orders` are the SEND_ARC orders of the points, order by order. */
  ghost predicate ArcOrders(blocks: seq<seq<int>>, index: int, orders: seq<Order>)
    requires Sevens(blocks)
  {
    && |orders| == |blocks| / 32 + 1
    && forall i :: 0 <= i < |orders| ==> orders[i] == Order(SendArc, ArcPayload(blocks, index, i), None)
  }

  /** What the SEND_ARC orders carry: an index byte advancing by 32 per
      order, 32 points per order but the last, and every point at its
      place. */
  lemma ArcOrdersLayout(points: seq<ArcPoint>, index: int, orders: seq<Order>)
    requires ArcOrders(PointBlocks(points), index, orders)
    ensures forall i :: 0 <= i < |orders| ==>
      && orders[i].kind == SendArc && orders[i].ticket.None?
      && |orders[i].payload| == 1 + 7 * ChunkSize(|points|, i)
      && orders[i].payload[0] == Low8(index + 32 * i)
    ensures forall k :: 0 <= k < |points| ==>
      7 * (k % 32) + 8 <= |orders[k / 32].payload| &&
      orders[k / 32].payload[7 * (k % 32) + 1 .. 7 * (k % 32) + 8] == PointBytes(points, k)
  {
    forall k | 0 <= k < |points|
      ensures 7 * (k % 32) + 8 <= |orders[k / 32].payload|
      ensures orders[k / 32].payload[7 * (k % 32) + 1 .. 7 * (k % 32) + 8] == PointBytes(points, k)
    {
      PointInPayload(PointBlocks(points), index, k);
      PointBlock(points, k);
    }
  }

  /** One round of envoieArcCourbe's loop: order `i` starts 32*i points in,
      and its chunk size is the one the loop picks. */
  lemma ArcStep(blocks: seq<seq<int>>, indexTrajectory: int, i: nat, index: int, nbArc: nat)
    requires Sevens(blocks) && i < |blocks| / 32 + 1
    requires index == indexTrajectory + SumChunks(|blocks|, i)
    requires nbArc == if i == |blocks| / 32 then |blocks| % 32 else 32
    ensures 32 * i + nbArc <= |blocks|
    ensures [Low8(index)] + ChunkBytes(blocks, 32 * i, nbArc) == ArcPayload(blocks, indexTrajectory, i)
    ensures SumChunks(|blocks|, i + 1) == SumChunks(|blocks|, i) + nbArc
  {
    ChunkSizesTotal(|blocks|, i);
  }

  /** The first `n` SEND_ARC orders of the points. */
  function ArcOrdersUpTo(blocks: seq<seq<int>>, index: int, n: nat): (orders: seq<Order>)
    requires Sevens(blocks) && n <= |blocks| / 32 + 1
    ensures |orders| == n
    ensures forall i :: 0 <= i < n ==> orders[i] == Order(SendArc, ArcPayload(blocks, index, i), None)
  {
    if n == 0 then [] else ArcOrdersUpTo(blocks, index, n - 1) + [Order(SendArc, ArcPayload(blocks, index, n - 1), None)]
  }

  /** The loop of envoieArcCourbe: order after order, an index byte and
      up to 32 points. Each point's bytes depend only on the point list,
      so they are taken from `blocks`. */
  method BuildArcOrders(blocks: seq<seq<int>>, indexTrajectory: int) returns (orders: seq<Order>)
    requires Sevens(blocks)
    ensures orders == ArcOrdersUpTo(blocks, indexTrajectory, |blocks| / 32 + 1)
  {
    var index := indexTrajectory;
    var nbEnvoi := |blocks| / 32 + 1;
    var modulo := |blocks| % 32;
    orders := [];
    var i := 0;
    while i < nbEnvoi
      invariant 0 <= i <= nbEnvoi
      invariant |orders| == i
      invariant index == indexTrajectory + SumChunks(|blocks|, i)
      invariant orders == ArcOrdersUpTo(blocks, indexTrajectory, i)
    {
      var nbArc := if i == nbEnvoi - 1 then modulo else 32;
      ArcStep(blocks, indexTrajectory, i, index, nbArc);
      var data := [Low8(index)] + ChunkBytes(blocks, 32 * i, nbArc);
      var order := Order(SendArc, data, None);
      orders := orders + [order];
      index := index + nbArc;
      i := i + 1;
    }
  }

  /** envoieArcCourbe: splits the points into SEND_ARC orders of at most 32
      points, appended to the trajectory list. */
  method EnvoieArcCourbe(b: Buffer, points: seq<ArcPoint>, indexTrajectory: int)
    returns (r: Buffer, orders: seq<Order>)
    ensures r == b.(traj := b.traj + orders)
    ensures |orders| == |points| / 32 + 1
    ensures forall i :: 0 <= i < |orders| ==>
      && orders[i].kind == SendArc && orders[i].ticket.None?
      && |orders[i].payload| == 1 + 7 * ChunkSize(|points|, i)
      && orders[i].payload[0] == Low8(indexTrajectory + 32 * i)
    ensures forall k :: 0 <= k < |points| ==>
      7 * (k % 32) + 8 <= |orders[k / 32].payload| &&
      orders[k / 32].payload[7 * (k % 32) + 1 .. 7 * (k % 32) + 8] == PointBytes(points, k)
  {
    var blocks := PointBlocks(points);
    orders := BuildArcOrders(blocks, indexTrajectory);
    r := b.(traj := b.traj + orders);
    assert ArcOrders(blocks, indexTrajectory, orders);
    ArcOrdersLayout(points, indexTrajectory, orders);
  }

  /** The orders carry every point once: their chunk sizes add up to the
      number of points, and the index advances by each chunk's count. */
  lemma ArcOrdersCoverPoints(size: nat)
    ensures SumChunks(size, size / 32 + 1) == size
  {
    ChunkSizesTotal(size, size / 32 + 1);
  }
}
