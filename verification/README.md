# moon-rover core, modelled in Dafny

This project models the small, discrete components of the moon-rover robot
software: the Java high-level controller under `pc/src` and the C++ motion
controller under `teensy/`. Each component is one Dafny module. Each
operation is a function or a method whose contract states what it
guarantees, and lemmas relate the operations to each other.

- `frame_layer.dfy` (FrameLayer): the serial frame layer. It allocates
  conversation ids, drives the state machine of the 256 conversations
  (free, waiting, pending long order, closed) on incoming frames, resends
  and kills, and reads frames.
- `outgoing_orders.dfy` (OutgoingOrders): the outgoing order buffer. It
  has three priority levels and packs positions, angles and curvatures
  into bytes. It also splits a curved trajectory into SEND_ARC orders of
  32 points.
- `packet_buffer.dfy` (PacketBuffer): the incoming packet FIFO. It holds
  at most five packets.
- `dstar_grid.dfy` (DStarGrid): the D* Lite obstacle grid. It covers the
  static cost, the current, freed and new obstacle points, the
  de-duplicating insertion of an enemy obstacle, and the release of fixed
  obstacles.
- `dstar_node.dfy` (DStarNode): a search node that is reset lazily when a
  new search number is seen.
- `legacy_grid.dfy` (LegacyGrid): the legacy pathfinder's symmetric
  connection cache over a fixed node graph.
- `game_table.dfy` (GameTable): the game-element states. An OR-hash with
  two bits per element also serves as the table's equality test.
- `clotho_speeds.dfy` (ClothoSpeeds): the catalogue of clothoid primitives,
  their derived fields and the acceptability test.
- `sensors.dfy` (Sensors): sensor filtering and wall correction, including
  the correction buffer.
- `kinematics.dfy` (Kinematics): the kinematic state, its copies, and the
  quantising hash that serves as its equality.
- `motion_control.dfy` (MotionControl): the motion controller's 256-point
  trajectory ring, the stop-point search and the moving-state transitions.
- `configuration.dfy` (Configuration): merging config.ini with the
  defaults, the getters, and the guarded setter.
- `clap_script.dfy` (ClapScript), `strategy_branch.dfy` (StrategyBranch)
  and `fixed_obstacles.dfy` (FixedObstacles): the clap script's versions,
  the note aggregation of a strategy branch, and the visible fixed
  obstacles.
- `common.dfy` (Common): Option and Result, and the Java and C++
  conversions the code performs implicitly. These are integer casts,
  truncating division, `%` on doubles and `Math.round`.

Clocks, geometry and collaborators that are not modelled appear as
parameters: time tests, distances, obstacle-manager answers and the
key catalogue. Doubles are `real`.

## Model

| member | source | states |
|---|---|---|
| FrameLayer.Init | pc/src/serie/SerieCoucheTrame.java:65-72 | all 256 conversation ids start free, and no id is in any list |
| FrameLayer.RemoveFirst | pc/src/serie/SerieCoucheTrame.java:164-180 | the iterator removal takes out the first occurrence of the id and keeps every other id in its order; from a list of distinct ids it drops exactly that id |
| FrameLayer.FirstIndex | pc/src/serie/SerieCoucheTrame.java:164-170 | the position the iterator stops at: the first index holding the id |
| FrameLayer.FreeOffset | pc/src/serie/SerieCoucheTrame.java:89-104 | the cyclic scan stops at the first free id after the last one used, every id it skips is busy, and it finds nothing exactly when all ids are busy |
| FrameLayer.ScanCoversAll | pc/src/serie/SerieCoucheTrame.java:97-101 | the scan, wrapping with `& 0xFF`, reaches every one of the 256 ids |
| FrameLayer.OffsetOfProbe | pc/src/serie/SerieCoucheTrame.java:97-101 | the position of an id in the scan order and the id probed at that position are inverse |
| FrameLayer.Take | pc/src/serie/SerieCoucheTrame.java:105-106 | marking a free id busy and appending it to the waiting list keeps every id in at most one list |
| FrameLayer.Allocate | pc/src/serie/SerieCoucheTrame.java:85-108 | the corrected allocation: fails exactly when every id is busy; otherwise returns the first free id in scan order, marks it busy, appends it to the waiting list and changes no other conversation |
| FrameLayer.AllocateAsWritten | pc/src/serie/SerieCoucheTrame.java:87-100 | as written, the first increment is not masked: it agrees with the corrected allocation while the last id used is below 255, and reads conversations[256] right after id 255 |
| FrameLayer.AllocateAsWrittenOverflows | pc/src/serie/SerieCoucheTrame.java:87-100 | after id 255 is handed out, the next allocation as written fails with an index of 256 although id 0 is free |
| FrameLayer.WaitingToPending | pc/src/serie/SerieCoucheTrame.java:172-180 | EXECUTION_BEGIN moves the id from the waiting list to the end of the pending list; no other id moves |
| FrameLayer.CloseConversation | pc/src/serie/SerieCoucheTrame.java:187-229 | closing a conversation stamps its death date, takes it out of the waiting or pending list and appends it to the closed list; no other id moves |
| FrameLayer.ProcessFrame | pc/src/serie/SerieCoucheTrame.java:162-265 | a frame only moves its own id, and only forward (waiting to pending or closed, pending to closed); ids are never freed or taken; the packet carries the frame's message and the conversation's type; an unknown id is an error; END_ORDER is sent only when a pending id closes |
| FrameLayer.ExecutionBeginOnWaiting | pc/src/serie/SerieCoucheTrame.java:172-184 | EXECUTION_BEGIN for a waiting id moves a long order to pending and returns no packet, and is a protocol error for a short order |
| FrameLayer.ValueAnswerOnWaiting | pc/src/serie/SerieCoucheTrame.java:185-200 | VALUE_ANSWER for a waiting id closes a short order with its death date and returns its packet, and is a protocol error for a long order |
| FrameLayer.PendingFrames | pc/src/serie/SerieCoucheTrame.java:209-237 | EXECUTION_END for a pending id closes it, sends END_ORDER and returns the packet; STATUS_UPDATE returns the packet and changes nothing |
| FrameLayer.ClosedFrames | pc/src/serie/SerieCoucheTrame.java:245-262 | on a closed id only a repeated EXECUTION_END of a long order is accepted, and it changes nothing |
| FrameLayer.SignallingFrames | pc/src/serie/SerieCoucheTrame.java:162-265 | a frame is accepted without a packet exactly for EXECUTION_BEGIN of a waiting long order and a repeated EXECUTION_END of a closed long order |
| FrameLayer.DeathCount | pc/src/serie/SerieCoucheTrame.java:386 | the number of ids at the head of the closed list that need to die: all of those do, and the next one does not |
| FrameLayer.FreeClosedPrefix | pc/src/serie/SerieCoucheTrame.java:386-391 | freeing the first n closed ids drops them from the closed list and leaves them free; nothing else changes |
| FrameLayer.Kill | pc/src/serie/SerieCoucheTrame.java:384-392 | kill frees the longest prefix of the closed list whose ids need to die, in order, and stops at the first id that does not |
| FrameLayer.Resend | pc/src/serie/SerieCoucheTrame.java:356-368 | when the oldest waiting id needs resending it is moved to the end of the waiting list and resent; otherwise nothing changes; the waiting ids stay the same |
| FrameLayer.TimeBeforeResend | pc/src/serie/SerieCoucheTrame.java:328-336 | the delay of the oldest waiting conversation, or the timeout when none waits, never negative |
| FrameLayer.TimeBeforeDeath | pc/src/serie/SerieCoucheTrame.java:342-350 | the delay of the oldest closed conversation, or twice the timeout when none is closed, never negative |
| FrameLayer.SendOrder | pc/src/serie/SerieCoucheTrame.java:115-125 | sending an order puts a newly allocated id in the waiting list with the order's type, and fails exactly when allocation fails |
| FrameLayer.FramesPreserveValid | pc/src/serie/SerieCoucheTrame.java:136-154 | readData's loop over any sequence of frames, refused ones included, keeps every id in at most one list |
| FrameLayer.ReadFrame | pc/src/serie/SerieCoucheTrame.java:275-299 | a frame is read only when its length is within 4..255 and an EXECUTION_BEGIN frame has length 4; the bytes consumed are exactly the frame's encoding |
| FrameLayer.ReadEncodedFrame | pc/src/serie/SerieCoucheTrame.java:275-299 | reading back the encoding of a well-formed frame yields that frame and leaves the rest of the stream |
| OutgoingOrders.IsEmpty | pc/src/serie/BufferOutgoingOrder.java:66-69 | isEmpty holds exactly when nothing is left to serve: no stop requested and no queued order |
| OutgoingOrders.Poll | pc/src/serie/BufferOutgoingOrder.java:75-91 | poll returns the first order of the service order (a requested stop, else the trajectory list, else the low-priority list) and leaves the rest in order; serving a stop drops the trajectory orders |
| OutgoingOrders.EmptyIffNothingToPoll | pc/src/serie/BufferOutgoingOrder.java:66-91 | isEmpty holds exactly when poll has nothing to return |
| OutgoingOrders.DrainServesPending | pc/src/serie/BufferOutgoingOrder.java:75-91 | polling repeatedly serves every queued order once, in the service order |
| OutgoingOrders.Immobilise | pc/src/serie/BufferOutgoingOrder.java:136-143 | after immobilise the stop is served next, then the low-priority orders; the queued trajectory orders are never served |
| OutgoingOrders.AddLow | pc/src/serie/BufferOutgoingOrder.java:274-287 | a low-priority order is served after everything already queued |
| OutgoingOrders.AddTraj | pc/src/serie/BufferOutgoingOrder.java:343 | trajectory orders are served after earlier trajectory orders and before every low-priority order, unless a stop is pending |
| OutgoingOrders.ShortBytes | pc/src/serie/BufferOutgoingOrder.java:257 | putShort writes two bytes, most significant first, holding the value modulo 2^16 |
| OutgoingOrders.ShortRoundTrip | pc/src/serie/BufferOutgoingOrder.java:257 | a value in the range of a short is read back from its two bytes |
| OutgoingOrders.Put | pc/src/serie/BufferOutgoingOrder.java:253-255 | put appends the low byte of the value, and overflows exactly when the buffer is full |
| OutgoingOrders.PutShort | pc/src/serie/BufferOutgoingOrder.java:257 | putShort appends two bytes, and overflows exactly when fewer than two remain |
| OutgoingOrders.XYOBytes | pc/src/serie/BufferOutgoingOrder.java:253-257 | a position and an angle are five bytes, the last two being the angle's short |
| OutgoingOrders.DecodeXYBounds | pc/src/serie/BufferOutgoingOrder.java:253-255 | the three packed bytes carry two twelve-bit values |
| OutgoingOrders.PackedBytes | pc/src/serie/BufferOutgoingOrder.java:253-255 | for twelve-bit x+1500 and y, the three byte casts keep exactly the bits the packing needs |
| OutgoingOrders.XYRoundTrip | pc/src/serie/BufferOutgoingOrder.java:253-255 | the packed position decodes to (x + 1500, y) exactly when both fit in twelve bits |
| OutgoingOrders.AddXYOWith | pc/src/serie/BufferOutgoingOrder.java:251-258 | addXYO appends the five packed bytes, and overflows exactly when fewer than five remain |
| OutgoingOrders.AddXYOAsWritten | pc/src/serie/BufferOutgoingOrder.java:251-258 | addXYO as written appends the truncated position and the as-written angle code, and overflows exactly when fewer than five bytes remain |
| OutgoingOrders.ThetaAsWritten | pc/src/serie/BufferOutgoingOrder.java:256 | as written the angle code is round((angle % 2) * π * 1000) |
| OutgoingOrders.Theta | pc/src/serie/BufferOutgoingOrder.java:256 | the corrected angle code is round((angle % 2π) * 1000), within ±6284 with the sign of the angle |
| OutgoingOrders.ThetaFitsShort | pc/src/serie/BufferOutgoingOrder.java:256 | the corrected angle code always fits the short it is cast to |
| OutgoingOrders.ThetaPrecedenceCounterexample | pc/src/serie/BufferOutgoingOrder.java:256 | for one radian the code as written is 3142 where the corrected code is 1000 |
| OutgoingOrders.AddXYO | pc/src/serie/BufferOutgoingOrder.java:251-258 | addXYO with the corrected angle code appends the truncated position and the angle code |
| OutgoingOrders.CorrectPositionAlwaysOverflows | pc/src/serie/BufferOutgoingOrder.java:263-269 | as written the four-byte buffer cannot take the five bytes of addXYO, so correctPosition never queues its order |
| OutgoingOrders.CorrectPositionAsWritten | pc/src/serie/BufferOutgoingOrder.java:263-269 | correctPosition as written, with its four-byte buffer, overflows for every input |
| OutgoingOrders.CorrectPosition | pc/src/serie/BufferOutgoingOrder.java:263-269 | with a five-byte buffer, correctPosition always succeeds and queues EDIT_POSITION with the packed delta last |
| OutgoingOrders.SetMaxSpeedOrder | pc/src/serie/BufferOutgoingOrder.java:98-108 | setMaxSpeed queues SET_MAX_SPEED last, carrying the speed in mm/s cast to a short |
| OutgoingOrders.BeginFollowTrajectory | pc/src/serie/BufferOutgoingOrder.java:116-131 | beginFollowTrajectory queues SET_MAX_SPEED with its ticket last, the speed negated when going backward |
| OutgoingOrders.StartStream | pc/src/serie/BufferOutgoingOrder.java:292-299 | startStream queues START_STREAM_ALL last, carrying the period as a short and then the prescaler byte |
| OutgoingOrders.TicketedOrder | pc/src/serie/BufferOutgoingOrder.java:148-242 | each ticketed order without a payload is queued last with its ticket |
| OutgoingOrders.SideOrder | pc/src/serie/BufferOutgoingOrder.java:225-242 | ejecte and rearme pick the right-side order exactly when the flag is set |
| OutgoingOrders.SetReversalFlag | pc/src/serie/BufferOutgoingOrder.java:339 | `courbure \|= 0x8000` sets bit 15 and keeps the low fifteen bits |
| OutgoingOrders.ClearBit12 | pc/src/serie/BufferOutgoingOrder.java:334 | the mask 0xEFFF leaves bit 15 unchanged |
| OutgoingOrders.CurvatureMaskCounterexample | pc/src/serie/BufferOutgoingOrder.java:334-339 | as written, a point of curvature -1 that is not a reversal already carries the reversal flag |
| OutgoingOrders.CurvatureWord | pc/src/serie/BufferOutgoingOrder.java:334-341 | with the mask 0x7FFF, bit 15 of the curvature word is set exactly for a reversal, and the low fifteen bits are the curvature in tenths |
| OutgoingOrders.CurvatureWordAsWritten | pc/src/serie/BufferOutgoingOrder.java:334-339 | as written the curvature word is 16 bits wide, flags every reversal, and on a non-reversal carries whatever bit 15 the masked curvature in tenths has |
| OutgoingOrders.WordBytes | pc/src/serie/BufferOutgoingOrder.java:341 | the curvature word is sent as two bytes, most significant first |
| OutgoingOrders.CorrectedPointBytesScope | pc/src/serie/BufferOutgoingOrder.java:333-341 | the two encodings share the position bytes; both flag every reversal, only the corrected one flags nothing else, and for a curvature in tenths within 0..4095 the curvature bytes agree |
| OutgoingOrders.ChunkSizesTotal | pc/src/serie/BufferOutgoingOrder.java:319-326 | the chunks of the first n orders hold 32 points each, and all the orders together hold every point |
| OutgoingOrders.ArcPayload | pc/src/serie/BufferOutgoingOrder.java:327-342 | order i starts with the index byte of its first point and holds 7 bytes per point of its chunk |
| OutgoingOrders.PointInPayload | pc/src/serie/BufferOutgoingOrder.java:322-342 | point k is carried by order k/32, at position k%32 of its chunk |
| OutgoingOrders.ArcOrdersLayout | pc/src/serie/BufferOutgoingOrder.java:313-347 | the SEND_ARC orders carry an index byte that advances by 32 per order, 32 points per order except the last, and every point's as-written seven bytes at its place |
| OutgoingOrders.ArcStep | pc/src/serie/BufferOutgoingOrder.java:324-344 | one round of the loop builds exactly the payload of order i, and the index advances by its chunk size |
| OutgoingOrders.ArcOrdersUpTo | pc/src/serie/BufferOutgoingOrder.java:322-345 | the first n orders are SEND_ARC orders carrying the payloads of orders 0 to n-1 |
| OutgoingOrders.BuildArcOrders | pc/src/serie/BufferOutgoingOrder.java:318-345 | the loop builds (size >> 5) + 1 orders, each the SEND_ARC order of its chunk with the as-written point bytes |
| OutgoingOrders.EnvoieArcCourbe | pc/src/serie/BufferOutgoingOrder.java:313-347 | envoieArcCourbe appends the orders to the trajectory list; they carry the index bytes, chunk sizes and every point's as-written bytes at its place |
| OutgoingOrders.ArcOrdersCoverPoints | pc/src/serie/BufferOutgoingOrder.java:319-326 | the chunk sizes of all the orders add up to the number of points |
| PacketBuffer.Add | pc/src/serie/PaquetBuffer.java:41-50 | add appends the packet; when the queue already holds five it drops the oldest one, so it never holds more than five |
| PacketBuffer.Poll | pc/src/serie/PaquetBuffer.java:56-59 | poll returns the oldest packet and removes it, or nothing when the queue is empty |
| PacketBuffer.IsEmpty | pc/src/serie/PaquetBuffer.java:30-33 | the buffer is empty exactly when poll returns nothing |
| PacketBuffer.AddAllKeepsNewest | pc/src/serie/PaquetBuffer.java:41-50 | after any sequence of additions the queue holds the newest five packets, oldest first |
| PacketBuffer.FifoOrder | pc/src/serie/PaquetBuffer.java:41-59 | two packets added to an empty buffer are polled in the order they were added |
| PacketBuffer.AddThenPoll | pc/src/serie/PaquetBuffer.java:41-59 | below capacity, adding then polling returns the oldest packet and keeps the new one last |
| DStarNode.NewNode | pc/src/pathfinding/dstarlite/DStarLiteNode.java:30-43 | a new node has infinite costs, is outside the open set and carries search stamp 0 |
| DStarNode.Update | pc/src/pathfinding/dstarlite/DStarLiteNode.java:69-78 | update to a different search number resets the costs and the open-set flag and records the number; for the same number it changes nothing; the grid point and the key are never touched |
| DStarNode.UpdateIdempotent | pc/src/pathfinding/dstarlite/DStarLiteNode.java:69-78 | updating twice to the same search number is the same as updating once |
| DStarNode.UpdateMaterialisesObserved | pc/src/pathfinding/dstarlite/DStarLiteNode.java:69-78 | update writes exactly the state a search with that number would see, and that state is then stable |
| DStarNode.NewSearchSeesFreshNode | pc/src/pathfinding/dstarlite/DStarLiteNode.java:69-78 | whatever an earlier search left in a node, a later search sees it as a new node |
| DStarNode.Equals | pc/src/pathfinding/dstarlite/DStarLiteNode.java:45-55 | two nodes are equal exactly when they stand for the same grid point, whatever their search state |
| DStarNode.EqualsIgnoresSearchState | pc/src/pathfinding/dstarlite/DStarLiteNode.java:45-78 | a node stays equal to itself across updates: equality ignores costs, the open-set flag and the stamp |
| DStarGrid.BuildStatic | pc/src/pathfinding/dstarlite/gridspace/GridSpace.java:98-111 | the static grid holds exactly the points near some fixed obstacle, and the working copy starts equal to it |
| DStarGrid.DistanceStatique | pc/src/pathfinding/dstarlite/gridspace/GridSpace.java:146-153 | a step from or into a statically blocked point, or off the grid, costs MAX_VALUE; any other step costs its direction's length |
| DStarGrid.DistanceMaxIffBlocked | pc/src/pathfinding/dstarlite/gridspace/GridSpace.java:146-153 | with direction lengths below MAX_VALUE, the distance is MAX_VALUE exactly when the step is blocked |
| DStarGrid.MaskPoints | pc/src/pathfinding/dstarlite/gridspace/GridSpace.java:171-178 | the points of a list of masks are those in some mask |
| DStarGrid.CollectObstacles | pc/src/pathfinding/dstarlite/gridspace/GridSpace.java:194-220 | one obstacle loop sets exactly the mask points whose static distance is finite |
| DStarGrid.CurrentObstacles | pc/src/pathfinding/dstarlite/gridspace/GridSpace.java:165-181 | getCurrentObstacles holds exactly the live masks' points that are not statically blocked |
| DStarGrid.OldAndNewObstacles | pc/src/pathfinding/dstarlite/gridspace/GridSpace.java:187-234 | the points to free come from dead or early-dead masks and the points to block from new masks; a point in both is in neither; no statically blocked point is in either |
| DStarGrid.Remove | pc/src/pathfinding/dstarlite/gridspace/GridSpace.java:250-256 | the iterator removal keeps exactly the elements the test does not select |
| DStarGrid.RemoveIdempotent | pc/src/pathfinding/dstarlite/gridspace/GridSpace.java:250-256 | removing twice with the same test removes nothing more |
| DStarGrid.AddObstacleAndRemoveNearby | pc/src/pathfinding/dstarlite/gridspace/GridSpace.java:248-259 | the new obstacle is added last; every live obstacle near it is removed and every other one is kept |
| DStarGrid.DisableObstaclesFixes | pc/src/pathfinding/dstarlite/gridspace/GridSpace.java:295-303 | the working grid restarts from the static grid and drops exactly the released points; the static grid is untouched |
| DStarGrid.DisableTwice | pc/src/pathfinding/dstarlite/gridspace/GridSpace.java:295-303 | disabling is not cumulative: the second call's result depends only on the static grid and its own release test |
| LegacyGrid.InitStatic | pc/src/pathfinding/GridSpace.java:65-78 | the model holds ALWAYS_IMPOSSIBLE exactly on the node pairs whose segment crosses a fixed obstacle, and null on all others |
| LegacyGrid.NewSpace | pc/src/pathfinding/GridSpace.java:40-55 | a new grid space satisfies the cache invariant, with its cache equal to the static model |
| LegacyGrid.Reinit | pc/src/pathfinding/GridSpace.java:84-89 | every cache entry becomes the model's again; the model, game-element setting and hash stay unchanged |
| LegacyGrid.SetPair | pc/src/pathfinding/GridSpace.java:105-119 | a cache write sets the pair and its mirror and leaves every other entry alone |
| LegacyGrid.IsTraversable | pc/src/pathfinding/GridSpace.java:95-121 | a cached pair answers from the cache with no change; a miss is classified as proximity obstacle, then game element, then possible, and stored symmetrically; the answer is true exactly for POSSIBLE; the invariant holds after |
| LegacyGrid.AlwaysImpossibleSurvives | pc/src/pathfinding/GridSpace.java:84-121 | a pair the model marks ALWAYS_IMPOSSIBLE stays so through lookups and reinits and is never traversable |
| LegacyGrid.NearestReachableNode | pc/src/pathfinding/GridSpace.java:132-149 | the exception is thrown exactly when no unblocked node is closer than Float.MAX_VALUE; otherwise the answer is unblocked, of minimal distance, and the first such node in declaration order |
| LegacyGrid.Copy | pc/src/pathfinding/GridSpace.java:156-170 | the cache is reset to the model exactly when stale obstacles were removed or the hash changed; the other space gets the game-element setting and the new hash and keeps its cache |
| LegacyGrid.CreerObstacle | pc/src/pathfinding/GridSpace.java:206-210 | after a new obstacle every cache entry is the model's again |
| GameTable.TriHashInjective | pc/src/table/Table.java:27-29 | distinct element states have distinct two-bit hashes, and only FALSE hashes to 0, the initial value |
| GameTable.Init | pc/src/table/Table.java:29-40 | a new table has all twenty elements not done and hash 0 |
| GameTable.SetDone | pc/src/table/Table.java:46-50 | the element's state becomes the given one; its two-bit slot of the hash is OR-ed with the state's hash and every other slot is unchanged |
| GameTable.SetDoneKeepsBits | pc/src/table/Table.java:48 | setDone never clears a bit of the hash |
| GameTable.IsDone | pc/src/table/Table.java:56-59 | on a table whose hash is exact, the state read is the one the element's two-bit hash slot encodes |
| GameTable.IsDoneAfterSetDone | pc/src/table/Table.java:46-59 | reading an element just set gives the set state; other elements read as before |
| GameTable.InitExact | pc/src/table/Table.java:27-29 | the initial table's hash encodes its states exactly |
| GameTable.SetDoneExactIff | pc/src/table/Table.java:27-29 | from an exact table, setDone keeps the hash exact if and only if the new state's hash bits include the old state's |
| GameTable.Equals | pc/src/table/Table.java:85-88 | equality compares hashes only; between tables whose hashes are exact it holds exactly when every element has the same state |
| GameTable.HashesIffSameStates | pc/src/table/Table.java:27-29 | between tables whose hashes are exact, the hashes agree exactly when every element has the same state |
| GameTable.EqualsIffSameStates | pc/src/table/Table.java:27-29 | for exact tables, equal hashes mean equal element states and conversely |
| GameTable.Copy | pc/src/table/Table.java:65-71 | the target gets the source's hash; its states are replaced by the source's only when the hashes differ |
| GameTable.CopyExact | pc/src/table/Table.java:65-71 | between exact tables, copy makes the target identical to the source |
| GameTable.RegressionConfusesEquals | pc/src/table/Table.java:46-88 | setting an element TRUE and then FALSE gives a table that equals its predecessor by hash although its states differ, so copy skips the states |
| GameTable.PrintHash | pc/src/table/Table.java:119-128 | entry k decodes the hash's k-th two-bit slot, with no state for the value 3 |
| GameTable.PrintHashReadsStates | pc/src/table/Table.java:119-128 | on an exact table the printout lists every element's actual state |
| GameTable.SetDoneKeepsMatch | pc/src/table/Table.java:46-50 | when the new state's hash bits include the old state's, every slot of the hash still encodes its element's state after setDone |
| GameTable.SetDoneBreaksMatch | pc/src/table/Table.java:46-50 | when they do not, the element's slot no longer encodes its state |
| ClothoSpeeds.FloorSqrt | pc/src/pathfinding/astar/arcs/vitesses/VitesseClotho.java:69 | the truncated square root: the largest s whose square does not exceed the argument |
| ClothoSpeeds.SqrtOfSquare | pc/src/pathfinding/astar/arcs/vitesses/VitesseClotho.java:69 | on a perfect square the truncated root is exact |
| ClothoSpeeds.Construct | pc/src/pathfinding/astar/arcs/vitesses/VitesseClotho.java:57-70 | the one-argument form has initial curvature 0; positif holds exactly for a non-negative speed; rebrousse and arret hold exactly when the name ends in _REBROUSSE and _AFTER_STOP; squaredRootVitesse is the truncated root of the absolute speed |
| ClothoSpeeds.PlainNames | pc/src/pathfinding/astar/arcs/vitesses/VitesseClotho.java:30-36 | none of the plain constants' names carries either suffix |
| ClothoSpeeds.NameFlags | pc/src/pathfinding/astar/arcs/vitesses/VitesseClotho.java:30-66 | a constant is flagged rebrousse exactly when it is in the reversing group, and arret exactly when it is in the after-stop group |
| ClothoSpeeds.CatalogueFlags | pc/src/pathfinding/astar/arcs/vitesses/VitesseClotho.java:30-66 | no constant both reverses and stops, and every reversing or after-stop constant has speed 0 |
| ClothoSpeeds.CatalogueRoots | pc/src/pathfinding/astar/arcs/vitesses/VitesseClotho.java:30-69 | every declared speed is a perfect square in absolute value, so its stored root is exact |
| ClothoSpeeds.NbArrets | pc/src/pathfinding/astar/arcs/vitesses/VitesseClotho.java:111-116 | one stop exactly for the after-stop and reversing constants, none otherwise |
| ClothoSpeeds.IsAcceptable | pc/src/pathfinding/astar/arcs/vitesses/VitesseClotho.java:73-108 | accepted exactly when a reversal is allowed (fastest strategy or current direction impossible), a non-reversal has a possible direction, and the future curvature stays within plus or minus the maximum |
| ClothoSpeeds.IsAcceptableByFamily | pc/src/pathfinding/astar/arcs/vitesses/VitesseClotho.java:30-108 | the same acceptance stated over the catalogue's groups and declared speeds |
| ClothoSpeeds.DirectionChecksComplement | pc/src/pathfinding/astar/arcs/vitesses/VitesseClotho.java:85-98 | with an admissible curvature, straight-on is accepted exactly when the direction is possible, its reversing twin exactly when fastest or impossible, so one of them always is |
| Sensors.GetPositionVue | pc/src/capteurs/CapteursProcess.java:351-369 | no point exactly when the measure is at or below the sensor's minimum distance or at or beyond its range; otherwise the seen point |
| Sensors.PositionVueInRange | pc/src/capteurs/CapteursProcess.java:358-362 | a measure is trusted exactly when it lies strictly between the minimum distance and the range, and then only that membership matters |
| Sensors.NearWalls | pc/src/capteurs/CapteursProcess.java:391-395 | each wall flag holds exactly when the point is closer than three times the position imprecision to that wall's line |
| Sensors.OrientationMurProcheAsWritten | pc/src/capteurs/CapteursProcess.java:399-408 | as written: no wall exactly when an even number of walls is near, and the top wall is never named |
| Sensors.TopWallReportedAsBottom | pc/src/capteurs/CapteursProcess.java:402-408 | a point on the top wall is reported as near the bottom wall |
| Sensors.TopWallResidualAsWritten | pc/src/capteurs/CapteursProcess.java:298-305 | for a point on the top wall, the residual against the bottom wall, which the code as written uses, is 2000 mm, where the residual against the top wall is 0 |
| Sensors.OrientationMurProche | pc/src/capteurs/CapteursProcess.java:399-408 | corrected: no wall exactly when an even number of walls is near; a wall that is named is near |
| Sensors.OneWallNamed | pc/src/capteurs/CapteursProcess.java:399-408 | with one wall near that wall is named; with three one is named; the corrected and as-written versions differ exactly when the top wall alone is near |
| Sensors.DeltaOrientationAsWritten | pc/src/capteurs/CapteursProcess.java:277-280 | as written: beyond a quarter turn either way PI is subtracted; the second test can never hold |
| Sensors.DeltaOrientationCounterexample | pc/src/capteurs/CapteursProcess.java:277-280 | an angle error of minus PI on the bottom wall becomes minus two PI as written, and 0 when corrected |
| Sensors.DeltaOrientation | pc/src/capteurs/CapteursProcess.java:276-280 | corrected: the result lies between minus and plus a quarter turn and differs from the input by 0 or plus or minus PI |
| Sensors.ErrorInDomain | pc/src/capteurs/CapteursProcess.java:274 | a wall's orientation minus an argument in (-PI, PI] lies in the domain the corrected reduction accepts |
| Sensors.Residual | pc/src/capteurs/CapteursProcess.java:296-305 | the correction moves the seen point onto the wall: along y for the bottom and top walls, along x for the side walls |
| Sensors.ResidualReachesWall | pc/src/capteurs/CapteursProcess.java:296-305 | the seen point moved by the residual lies on the wall's line |
| Sensors.CommonWall | pc/src/capteurs/CapteursProcess.java:253-271 | corrected (naming the top wall): a side gives a wall exactly when both its sensors see a point and both points name the same wall |
| Sensors.SideCorrection | pc/src/capteurs/CapteursProcess.java:253-318 | corrected (top wall and angle reduction fixed): a correction exists exactly when the sensors share a wall and both the angle error and the residual are within their imprecision limits, and it is that residual and angle |
| Sensors.CommonWallAsWritten | pc/src/capteurs/CapteursProcess.java:253-271 | as written: a side gives a wall exactly when both its points name the same wall with the as-written naming, and that wall is never the top wall |
| Sensors.SideCorrectionAsWritten | pc/src/capteurs/CapteursProcess.java:253-318 | as written: a correction exists exactly when the sensors share an as-written wall and the as-written angle error and the residual are within their limits, and it is that residual and angle |
| Sensors.SideCorrectionAsWrittenAgrees | pc/src/capteurs/CapteursProcess.java:253-318 | when the argument is in (-PI, PI/2] and neither point sees the top wall alone, the as-written correction is the corrected one |
| Sensors.TopWallNeverCorrectsAsWritten | pc/src/capteurs/CapteursProcess.java:298-318 | when both points see the top wall alone, the as-written wall is the bottom wall, the corrected one the top wall, and when the rotated sighting is farther from the bottom wall than the positional limit, no correction is made |
| Sensors.EmptyBuffer | pc/src/capteurs/CapteursProcess.java:91 | the correction buffer starts with the configured size and index 0 |
| Sensors.AddCorrection | pc/src/capteurs/CapteursProcess.java:319-338 | a stale buffer restarts at 0; the correction is stored at the index; a full buffer yields the average of its entries and restarts |
| Sensors.CorrectXYO | pc/src/capteurs/CapteursProcess.java:237-342 | with no side seen nothing changes; with one side its correction is stored at the index (0 if stale), the index advances around the buffer, and the average of all entries is sent exactly when that write fills the last slot; the size is kept and the date becomes now |
| Sensors.CorrectXYOBothSides | pc/src/capteurs/CapteursProcess.java:319-338 | with both sides seen the left correction is written at the index (0 if stale) and the right one in the next slot (slot 0 again if stale); an average is sent for each write that fills the last slot, of the entries at that moment |
| Sensors.StalePassKeepsOneCorrection | pc/src/capteurs/CapteursProcess.java:319-323 | when the last measure is stale both sides write slot 0, so only the right side's correction survives the pass |
| Sensors.FreshCorrectionsFill | pc/src/capteurs/CapteursProcess.java:322-323 | fresh corrections that do not fill the buffer land in successive slots after the index, leaving earlier slots alone |
| Sensors.FreshCorrectionsSendMean | pc/src/capteurs/CapteursProcess.java:322-338 | fresh corrections that exactly fill the buffer send the average of the earlier entries and themselves, and the index restarts at 0 |
| Sensors.AddAll | pc/src/capteurs/CapteursProcess.java:322-323 | adding fresh corrections keeps the buffer valid and its size |
| Sensors.NetOf | pc/src/capteurs/CapteursProcess.java:160-170 | only the long rear sensor with the net raised reports on the net, and it sees it full exactly for a measure strictly between 0 and 60 |
| Sensors.ReadingOutcomeAsWritten | pc/src/capteurs/CapteursProcess.java:143-214 | as written: a reading is ignored exactly for a short rear sensor with the net lowered or when nothing trusted is seen; an added obstacle is the enemy position, on the table |
| Sensors.AsWrittenIgnoresKnownGeometry | pc/src/capteurs/CapteursProcess.java:179-193 | as written the outcome does not depend on nearby fixed obstacles or game elements, so a sensor looking at a wall adds an enemy |
| Sensors.ReadingOutcome | pc/src/capteurs/CapteursProcess.java:143-214 | corrected: an obstacle is added only for a reading that sees nothing known; the rest agrees with the as-written outcome |
| Sensors.AddingReadings | pc/src/capteurs/CapteursProcess.java:143-214 | the indices of the readings whose outcome adds an obstacle: all of them, each once, in increasing order |
| Sensors.AddedObstacles | pc/src/capteurs/CapteursProcess.java:143-214 | the obstacles added are the enemy positions of exactly the adding readings, one each, in reading order, for the as-written and the corrected outcome alike |
| Sensors.AddedObstaclesAreUnknown | pc/src/capteurs/CapteursProcess.java:176-214 | corrected: every added obstacle is an enemy position on the table, away from fixed obstacles and game elements |
| Sensors.AddedObstaclesAsWrittenAgrees | pc/src/capteurs/CapteursProcess.java:179-193 | when no reading is near known geometry the as-written and corrected loops add the same obstacles; a reading near a fixed obstacle is added only as written |
| Sensors.MarkColliding | pc/src/capteurs/CapteursProcess.java:132-138 | exactly the game elements the robot collides with get the taken state; the others keep theirs |
| Kinematics.Empty | pc/src/robot/Cinematique.java:67-68 | the empty kinematic state holds Java's zero in every field and no speed limit |
| Kinematics.CopyConstruct | pc/src/robot/Cinematique.java:55-62 | the copy constructor copies direction, curvature and speeds but leaves position and orientation at zero |
| Kinematics.Copy | pc/src/robot/Cinematique.java:74-86 | copy makes every field of the target the source's |
| Kinematics.CopyCompletesCopyConstruct | pc/src/robot/Cinematique.java:55-86 | copying into a copy-constructed state restores the original, and the copy constructor alone does so exactly when position and orientation are zero |
| Kinematics.NormaliseOrientation | pc/src/robot/Cinematique.java:128-130 | the stored orientation is brought into [0, 2 PI), and one already there is unchanged |
| Kinematics.NormaliseIsWholeTurns | pc/src/robot/Cinematique.java:128-130 | normalising changes the orientation by a whole number of turns |
| Kinematics.CodeOrientation | pc/src/robot/Cinematique.java:132 | the orientation code is the index, 0 to 11, of the twelfth of a turn holding the orientation |
| Kinematics.CodeCourbureAsWritten | pc/src/robot/Cinematique.java:117-124 | as written the curvature code is always 4 |
| Kinematics.CodeCourbure | pc/src/robot/Cinematique.java:117-124 | corrected: code 1 below -2, 2 in [-2, 0), 3 in [0, 2), 4 from 2 on |
| Kinematics.CodeCourbureMonotone | pc/src/robot/Cinematique.java:117-124 | the corrected curvature code never decreases as curvature grows |
| Kinematics.HashWith | pc/src/robot/Cinematique.java:111-136 | the hash is a Java int, and computing it normalises the receiver's orientation |
| Kinematics.HashCodeAsWritten | pc/src/robot/Cinematique.java:111-136 | as written the hash is the corrected hash of the same state with its curvature set to 2, the curvature ignored; the orientation is normalised |
| Kinematics.HashCode | pc/src/robot/Cinematique.java:111-136 | corrected: on the table the hash is the mixed-radix number of the cell, curvature code and orientation code; the orientation is normalised |
| Kinematics.HashOnTable | pc/src/robot/Cinematique.java:135 | on the table the hash is the mixed-radix number of the 15 mm cell, curvature code and orientation code, each within its digit's range |
| Kinematics.DigitsDetermined | pc/src/robot/Cinematique.java:135 | with every digit below its radix, equal hashes mean equal cells and conversely |
| Kinematics.Equals | pc/src/robot/Cinematique.java:138-142 | corrected (four curvature codes): two states are equal exactly when their hashes are; both come back with their orientations normalised |
| Kinematics.EqualsIffSameCell | pc/src/robot/Cinematique.java:111-142 | corrected: two on-table states are equal exactly when they share cell, curvature code and orientation code |
| Kinematics.CurvatureIgnoredAsWritten | pc/src/robot/Cinematique.java:117-141 | as written states with curvatures -3 and 1 are equal, although their corrected codes differ and they are unequal when corrected |
| Kinematics.CopyIsEqual | pc/src/robot/Cinematique.java:74-142 | a copy is equal to its source |
| Kinematics.EqualsAsWritten | pc/src/robot/Cinematique.java:117-141 | as written two states are equal exactly when their as-written hashes, with the curvature code fixed at 4, agree |
| MotionControl.Succ | teensy/loli_teensy/MotionControlSystem.cpp:355 | the next index of the 256-point ring, wrapping from 255 to 0 as a uint8_t does |
| MotionControl.Stop | teensy/loli_teensy/MotionControlSystem.cpp:607-631 | stop zeroes the translation, every setpoint, both PWMs and motor commands, the motor errors, and both error terms of all three PIDs |
| MotionControl.StopForgets | teensy/loli_teensy/MotionControlSystem.cpp:607-631 | after a stop nothing of the previous drive state remains, so stopping twice is stopping once |
| MotionControl.ClearCurrentTrajectory | teensy/loli_teensy/MotionControlSystem.cpp:548-556 | every ring slot becomes the void point and the trajectory is marked completed; index, stop point, state and drive are unchanged |
| MotionControl.NextStopPoint | teensy/loli_teensy/MotionControlSystem.cpp:406-431 | corrected: the current index when it is a live stop point; else the first live stop point in the unbroken run of live points after it, around the ring; else UINT16_MAX when that run holds none |
| MotionControl.NextStopPointIsStop | teensy/loli_teensy/MotionControlSystem.cpp:406-431 | a stop point that is found is a ring index holding a live stop point |
| MotionControl.ScanAsWritten | teensy/loli_teensy/MotionControlSystem.cpp:414-430 | as written: the scan either finds a stop point at or after where it started, gives UINT16_MAX, or reads slot 256, past the end of the array |
| MotionControl.StopSearchOverrunsRing | teensy/loli_teensy/MotionControlSystem.cpp:414-430 | from the last slot, with a stop point at slot 0, the as-written scan reads slot 256 because the 16-bit index does not wrap, while the corrected scan finds slot 0 |
| MotionControl.NextStopPointAsWrittenAgrees | teensy/loli_teensy/MotionControlSystem.cpp:406-431 | whenever the as-written scan stays inside the array it gives the corrected answer |
| MotionControl.UpdateNextStopPoint | teensy/loli_teensy/MotionControlSystem.cpp:406-433 | only the next stop point changes, to the corrected search's answer |
| MotionControl.ClearedRingHasNoStop | teensy/loli_teensy/MotionControlSystem.cpp:406-431 | after a clear no stop point is found |
| MotionControl.Init | teensy/loli_teensy/MotionControlSystem.cpp:4-38 | the system starts stopped, with the trajectory completed, index 0, no stop point and no live point |
| MotionControl.Fault | teensy/loli_teensy/MotionControlSystem.cpp:451-455 | a fault sets the given state, clears the trajectory and stops the drive, leaving index and stop point |
| MotionControl.CheckTrajectory | teensy/loli_teensy/MotionControlSystem.cpp:435-459 | while moving the trajectory stays usable; the state changes exactly when moving on an unusable trajectory, and then to the EMPTY_TRAJ fault |
| MotionControl.CheckTrajectoryIdempotent | teensy/loli_teensy/MotionControlSystem.cpp:435-459 | checking twice is checking once |
| MotionControl.ManageStop | teensy/loli_teensy/MotionControlSystem.cpp:516-533 | only a stop while MOVING acts: the drive stops, and the state becomes STOPPED exactly on a stop point with the trajectory kept, else the EXT_BLOCKED fault |
| MotionControl.ManageBlocking | teensy/loli_teensy/MotionControlSystem.cpp:534-546 | a blocked motor gives the INT_BLOCKED fault; otherwise nothing changes |
| MotionControl.FaultsLeaveNothingToFollow | teensy/loli_teensy/MotionControlSystem.cpp:435-556 | after a fault the trajectory check does nothing and no stop point is found |
| MotionControl.AddTrajectoryPoint | teensy/loli_teensy/MotionControlSystem.cpp:564-580 | the point is stored at its index; the next stop point is recomputed exactly when the new or the replaced point is a live stop point |
| MotionControl.StopAtCurrentIndex | teensy/loli_teensy/MotionControlSystem.cpp:564-580 | a stop point written at the current index becomes the next stop point |
| MotionControl.StopJustAhead | teensy/loli_teensy/MotionControlSystem.cpp:564-580 | a stop point written just ahead of a dead current point becomes the next stop point |
| MotionControl.UpdateTrajectoryIndex | teensy/loli_teensy/MotionControlSystem.cpp:351-403 | the index stays or moves one slot on; when it moves the old point is made obsolete and the new one is live, and leaving a stop point also completes the trajectory and recomputes the stop point |
| MotionControl.GotoNextStopPoint | teensy/loli_teensy/MotionControlSystem.cpp:590-605 | the state becomes MOVE_INIT with the trajectory not completed; a completed trajectory does not advance |
| MotionControl.RestartLeavesStopPoint | teensy/loli_teensy/MotionControlSystem.cpp:393-403 | restarting while stopped on a stop point with a live successor moves past it and makes it obsolete |
| MotionControl.PidToSetStr | teensy/loli_teensy/MotionControlSystem.cpp:775-809 | no string for a zero-size buffer; the name and its terminator fit the buffer; a buffer under 12 bytes gives the empty string |
| MotionControl.PidNamesDistinct | teensy/loli_teensy/MotionControlSystem.cpp:775-809 | with room enough, distinct PIDs get distinct names |
| MotionControl.NextStopPointAsWritten | teensy/loli_teensy/MotionControlSystem.cpp:406-431 | as written the search fails only by reading slot 256 |
| Configuration.Names | pc/src/config/Config.java:247 | the set of entry names is exactly the names of the catalogue's entries |
| Configuration.FillStep | pc/src/config/Config.java:249-267 | one round adds the entry's key and leaves the other keys alone; the entry gets the file's value only when constant and not overridden, else its default; the flag is raised for an overridden constant or a constant the file changes |
| Configuration.Fill | pc/src/config/Config.java:247-268 | the first loop adds exactly the catalogue's names and leaves every other key alone |
| Configuration.FillValues | pc/src/config/Config.java:247-268 | after the first loop every entry holds the file's value when constant and not overridden, else its default |
| Configuration.FillFlag | pc/src/config/Config.java:247-268 | after the first loop the surcharge flag is raised exactly when some entry is an overridden constant or a constant the file changes |
| Configuration.RemoveHashKeys | pc/src/config/Config.java:269-275 | the second loop keeps exactly the keys without a '#', with their values |
| Configuration.CompleteConfig | pc/src/config/Config.java:243-292 | without a file every entry gets its default and nothing is surcharged; with a file the keys are the file's and the catalogue's minus those with a '#', entries get the file-or-default value, unknown keys keep the file's value, and the flag says whether some entry was changed |
| Configuration.NoFileMeansDefaults | pc/src/config/Config.java:245-291 | no file and an empty file give the same properties and flag |
| Configuration.NumericDefaultReportedChanged | pc/src/config/Config.java:261 | as written a file repeating a numeric default raises the surcharge flag, although the resulting properties are the same as with the corrected comparison, which does not |
| Configuration.GetString | pc/src/config/Config.java:176-181 | no value for an entry not up to date or absent; otherwise the stored property |
| Configuration.ParseBoolean | pc/src/config/Config.java:151-152 | Boolean.parseBoolean: no string reads false; a string reads true exactly when it has four letters spelling "true" in any mix of cases |
| Configuration.ParseBooleanAnyCase | pc/src/config/Config.java:151-152 | for every string, it reads true exactly when each of its four letters is the matching letter of "true" in either case |
| Configuration.ParseBooleanMixedCase | pc/src/config/Config.java:151-152 | "True" and "tRuE" read true; "trUx" and "truee" read false |
| Configuration.GetBoolean | pc/src/config/Config.java:143-153 | no value exactly when there is no string; a GRAPHIC_ entry is true only when graphics are enabled too; other entries parse their string |
| Configuration.GraphicsDisabledGatesAll | pc/src/config/Config.java:149-151 | with graphics disabled no GRAPHIC_ entry reads true |
| Configuration.SetPrivate | pc/src/config/Config.java:189-199 | the private set makes the entry up to date with the new value and leaves every other entry's reading unchanged |
| Configuration.Set | pc/src/config/Config.java:207-213 | a constant entry refuses the assignment; another reads back the new value; other entries read as before |
| Configuration.SetLastWins | pc/src/config/Config.java:189-213 | of two assignments to an entry the last wins, and repeating one changes nothing |
| Configuration.Load | pc/src/config/Config.java:46-63 | the file is marked loaded exactly when it exists; with the comparison as written the surcharge flag is raised exactly when some entry is surcharged, never without a file; every entry without a '#' holds its file-or-default value; graphicEnable is the parsed GRAPHIC_ENABLE value |
| Configuration.GraphicEnableReadsBack | pc/src/config/Config.java:46-153 | after construction GRAPHIC_ENABLE reads back as the stored graphicEnable flag |
| ClapScript.GetVersions | pc/src/scripts/anticipables/ScriptClap.java:39-50 | version 0 is offered exactly when claps 1 and 3 are not done, version 1 exactly when clap 1 is not, version 2 exactly when clap 2 is not, in increasing order |
| ClapScript.ZeroOfferedWithOne | pc/src/scripts/anticipables/ScriptClap.java:39-50 | version 0 is never offered without version 1 |
| ClapScript.PointEntree | pc/src/scripts/anticipables/ScriptClap.java:53-60 | versions 0 and 1 enter on the right at their own nodes, any other on the left |
| ClapScript.PointSortie | pc/src/scripts/anticipables/ScriptClap.java:127-134 | versions 0 and 1 leave on the right at their own nodes, any other on the left |
| ClapScript.ExitMatchesEntry | pc/src/scripts/anticipables/ScriptClap.java:53-134 | every version leaves at the exit paired with its entry |
| ClapScript.Execute | pc/src/scripts/anticipables/ScriptClap.java:63-117 | when every robot call succeeds: version 0 marks claps 3 and 1 done, version 1 clap 1, version 2 clap 2, any other id nothing |
| ClapScript.ExecuteUntil | pc/src/scripts/anticipables/ScriptClap.java:62-117 | when a robot call throws, the exception escapes exactly when the failing call is one execute makes; the claps marked before it stay marked: none or only CLAP_3 for version 0, none for version 1, CLAP_2 when version 2 fails on its last move; without a throw it is execute |
| ClapScript.InterruptedVersionZero | pc/src/scripts/anticipables/ScriptClap.java:69-84 | version 0 interrupted between its claps leaves CLAP_3 done and CLAP_1 as it was: version 0 is withdrawn and version 1 is still offered when CLAP_1 was not done |
| ClapScript.PlayedVersionWithdrawn | pc/src/scripts/anticipables/ScriptClap.java:39-117 | an offered version is no longer offered once played, and replaying it changes nothing |
| ClapScript.ExecuteOnlyWithdraws | pc/src/scripts/anticipables/ScriptClap.java:39-117 | playing a version never makes a new version available |
| StrategyBranch.ComputeActionCharacteristics | pc/src/strategie/arbre/Branche.java:76-89 | the first call sets score 2 and duration 12000 and raises the flag; later calls change nothing |
| StrategyBranch.ComputeActionCharacteristicsIdempotent | pc/src/strategie/arbre/Branche.java:76-89 | computing the characteristics twice is computing them once |
| StrategyBranch.New | pc/src/strategie/arbre/Branche.java:61-73 | a new branch has no sub-branches and no note, its characteristics computed, and its given depth, meta-version and pathfinding setting |
| StrategyBranch.BestSubNote | pc/src/strategie/arbre/Branche.java:109-113 | the best sub-branch note is at least -1, at least every sub-branch's note, and either -1 or one of them |
| StrategyBranch.LocalNote | pc/src/strategie/arbre/Branche.java:130-149 | a zero probability gives note 0, and non-negative inputs give a non-negative note |
| StrategyBranch.ComputeNote | pc/src/strategie/arbre/Branche.java:96-119 | the note is marked computed with the characteristics; at the last level it is the local note, otherwise the local note plus the best sub-branch note |
| StrategyBranch.NoteAtLeastLocalMinusOne | pc/src/strategie/arbre/Branche.java:96-119 | below the last level the note is at least the local note minus 1, and exactly that without sub-branches |
| StrategyBranch.AddingSubBranchNeverLowers | pc/src/strategie/arbre/Branche.java:109-113 | one more sub-branch raises the best note to its own note when better and otherwise keeps it |
| StrategyBranch.BestSubNoteIsMaximum | pc/src/strategie/arbre/Branche.java:109-113 | the best sub-branch note is the maximum of -1 and the notes, so it does not depend on their order |
| FixedObstacles.GetObstacle | pc/src/obstacles/ObstaclesFixes.java:34-41 | the test block is the 50 mm square at (0, 1000); every border is 5 mm thick |
| FixedObstacles.BordersFrameTable | pc/src/obstacles/ObstaclesFixes.java:34-41 | the four borders lie along the table's edges and each spans its whole edge |
| FixedObstacles.VisibleOf | pc/src/obstacles/ObstaclesFixes.java:55-57 | the filter keeps exactly the visible entries |
| FixedObstacles.CountIsLength | pc/src/obstacles/ObstaclesFixes.java:49-57 | the count of the first loop is the number of entries the second loop writes |
| FixedObstacles.CountVisibles | pc/src/obstacles/ObstaclesFixes.java:49-52 | the first loop counts the visible entries |
| FixedObstacles.FillVisibles | pc/src/obstacles/ObstaclesFixes.java:54-57 | the second loop writes the visible entries into the array in declaration order |
| FixedObstacles.VisibleArray | pc/src/obstacles/ObstaclesFixes.java:47-58 | the static array has the counted size and holds the visible entries in declaration order |
| FixedObstacles.OnlyTestVisible | pc/src/obstacles/ObstaclesFixes.java:34-58 | with the declared entries the visible array is the test block alone |

## Left out

- Concurrency: `synchronized`, `wait` and `notify`, and the C++ interrupt masking are left out; each operation is modelled as atomic.
- FrameLayer.Allocate: when every id is busy the source sleeps and scans again until one is freed; the model returns the NoFreeId error instead, because the waiting depends on another thread.
- FrameLayer: the clocks are parameters (death date, needDeath, needResend, remaining delays); logging and the serial write of frames are left out.
- FrameLayer: a received packet is identified by its conversation id rather than by the ticket object it carries.
- OutgoingOrders: order tickets are natural numbers supplied by the caller; the ticket objects and their waiting are left out.
- OutgoingOrders.EnvoieArcCourbe: the geometry of each point (x, y, orientation, curvature, direction) is an input, and the seven bytes of a point (PointBytes, the as-written encoding) are computed before the loop and appended in the loop's order. The arc orders carry the as-written bytes; OutgoingOrders.CorrectedPointBytes is the corrected encoding, related to it by OutgoingOrders.CorrectedPointBytesScope.
- DStarGrid: bit sets are sets of directed points, which assumes the directed-point hash is one-to-one; neighbours, direction lengths and the near-obstacle tests are functions given as parameters.
- LegacyGrid.NewSpace: it requires the fixed-obstacle segment test to be symmetric; the source assumes this without checking it, and the cache invariant depends on it.
- LegacyGrid: the obstacle manager (proximity, game-element and fixed-obstacle segment tests, removal of stale obstacles, the table hash) gives its answers as parameters.
- GameTable: the Tribool enum is not part of this model; its hashes are taken to be FALSE = 0, MAYBE = 1 and TRUE = 2. Any assignment with FALSE = 0 and distinct non-zero MAYBE and TRUE within two bits would make the initial hash 0 describe the initial state; this one is assumed. getHash is taken to return a long: with an int, the shifts for elements 16 to 19 would wrap modulo 32 and the slots would overlap.
- GameTable: the elements' obstacle geometry (isProcheObstacle, obstacle_proximite_dans_segment) and getObstacles are left out, because they are geometry of classes that are not part of this model.
- ClothoSpeeds: the arc length DISTANCE_ARC_COURBE_M, the kinematic state's curvature and the direction strategy's answers are parameters.
- Sensors: vector rotations, the argument of a vector and the sensor mounting geometry are inputs; the averaging of corrections is exact arithmetic on `real`, not `double`.
- Sensors.MarkColliding: the element state written for a collision, PRIS_PAR_NOUS of the EtatElement enum, is a parameter; that enum is not part of this model, and the table holds Tribool states.
- Sensors: the end of updateObstaclesMobiles calls the D* Lite updates and chemin.checkColliding; these are left out, because those classes are not part of this model.
- Sensors.CorrectXYO: the averaged correction is returned rather than sent; the serial call is the OutgoingOrders.CorrectPosition order. CorrectXYO takes the side corrections as inputs, which Sensors.SideCorrectionAsWritten (as written) or Sensors.SideCorrection (corrected) compute.
- Sensors.CommonWall, Sensors.SideCorrection, Sensors.AddedObstaclesAreUnknown, Kinematics.Equals, Kinematics.EqualsIffSameCell: these state the corrected behaviour; the as-written behaviour is Sensors.CommonWallAsWritten, Sensors.SideCorrectionAsWritten, Sensors.AddedObstacles with the as-written flag, and Kinematics.EqualsAsWritten, each related to its corrected version by a lemma.
- Kinematics: setVitesse, toString and the speed enum are left out; the maximal speed is an opaque identifier.
- MotionControl: the PID, odometry, encoder, curvature-derivative and motor arithmetic, EEPROM storage and timing are left out; the end-of-move and blocking managers are boolean inputs.
- MotionControl.UpdateTrajectoryIndex: the geometric test that the robot has passed the current point is a boolean input.
- MotionControl: the TrajectoryPoint header is not part of this model; a default-constructed point is taken to be obsolete, and nextStopPoint to be 16 bits wide, as its comparison with UINT16_MAX implies.
- Configuration: the ConfigInfo catalogue is a parameter (entries with distinct names), and so is the set of entries marked up to date at start; the file read is I/O and its contents are an input.
- Configuration: afficheTout, afficheChanged, the unknown-key warning and the numeric getters (Integer.parseInt and the like) are left out; they only log or parse numbers.
- StrategyBranch.LocalNote: the success probability and the enemy-distance term, an exponential, are inputs; notes are `real`, not `float`.
- StrategyBranch: the script, the game state and the pathfinding cache are left out.
- ClapScript: the robot moves and arm commands of execute are left out; only their number and their table effects are modelled. ClapScript.ExecuteUntil stands for a call that throws by the rank of the failing robot call; version 1 is taken to make three calls when it turns first and two otherwise, getOrientation not counted.

## Findings

| source | as written | input that shows it | evidently intended | confidence | as-written member | corrected member |
|---|---|---|---|---|---|---|
| pc/src/serie/SerieCoucheTrame.java:88 | the first increment of the id scan is not masked with 0xFF | the last id used is 255: the scan reads conversations[256] | every increment wraps modulo 256, so the scan goes on with id 0 | not executed | FrameLayer.AllocateAsWrittenOverflows | FrameLayer.Allocate |
| pc/src/serie/BufferOutgoingOrder.java:256 | `angle % 2*Math.PI*1000` parses as ((angle % 2) * PI) * 1000 | an angle of 1 rad is encoded as 3142 | (angle % 2 PI) * 1000, so 1 rad is encoded as 1000 | not executed | OutgoingOrders.ThetaPrecedenceCounterexample | OutgoingOrders.Theta |
| pc/src/serie/BufferOutgoingOrder.java:265 | correctPosition allocates 4 bytes, and addXYO then writes 5 | any correction: the fifth put overflows the buffer | a five-byte payload | not executed | OutgoingOrders.CorrectPositionAlwaysOverflows | OutgoingOrders.CorrectPosition |
| pc/src/serie/BufferOutgoingOrder.java:334 | the curvature is masked with 0xEFFF, which clears bit 12 and keeps bit 15 | a curvature of -1 on a point that is not a reversal is sent with the reversal flag set | mask 0x7FFF, so that bit 15 is only the reversal flag | not executed | OutgoingOrders.CurvatureMaskCounterexample | OutgoingOrders.CurvatureWord |
| pc/src/robot/Cinematique.java:117-124 | the `else if(courbure < 5)` line is commented out, so `codeCourbure = 4` always runs | curvatures -3 and 1 give the same hash, so the poses are equal | four curvature bins, 1 to 4 | not executed | Kinematics.CurvatureIgnoredAsWritten | Kinematics.CodeCourbure |
| pc/src/capteurs/CapteursProcess.java:402-408 | there is no branch for the top wall, and the fall-through returns MUR_BAS | a point at y = 2000 near only the top wall is reported as the bottom wall, giving a 2000 mm residual, which is then discarded, so the top wall never corrects the position | return MUR_HAUT when only the top wall is near | not executed | Sensors.TopWallNeverCorrectsAsWritten | Sensors.SideCorrection |
| pc/src/capteurs/CapteursProcess.java:277-280 | `Math.abs(d) < -PI/2` can never hold, so negative errors are never raised by PI | an orientation error of -PI becomes -2 PI, which is then rejected | add PI when d < -PI/2 | not executed | Sensors.DeltaOrientationCounterexample | Sensors.DeltaOrientation |
| pc/src/capteurs/CapteursProcess.java:179-193 | `continue` inside the inner loops over fixed obstacles and game elements skips only the inner iteration | a reading whose point lies near a fixed obstacle, with the enemy position on the table, adds an enemy obstacle | skip the reading when it is near known geometry | not executed | Sensors.AsWrittenIgnoresKnownGeometry | Sensors.ReadingOutcome |
| teensy/loli_teensy/MotionControlSystem.cpp:414-430 | the 16-bit scan index is not reduced modulo 256 | from index 255 with a live stop point at 0, the scan reads currentTrajectory[256] | wrap around the 256-point ring | not executed | MotionControl.StopSearchOverrunsRing | MotionControl.NextStopPoint |
| pc/src/config/Config.java:261 | the default value object is compared with a String by `equals`, which fails for every non-String default | a config.ini repeating the numeric default 3 raises the surcharge flag | compare the default's string form, as afficheChanged does | not executed | Configuration.NumericDefaultReportedChanged | Configuration.CompleteConfig |
