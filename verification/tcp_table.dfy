/**
 * The tap's table of observed TCP sessions: a map from session key to session,
 * updated segment by segment, swept for idle sessions and pruned of closed ones
 * whenever a report is produced. Timestamps are integers counting nanoseconds.
 */
module TcpTable {

  import opened Wrappers
  import opened TcpState

  newtype u8 = x: int | 0 <= x < 0x100
  newtype u16 = x: int | 0 <= x < 0x1_0000
  newtype u32 = x: int | 0 <= x < 0x1_0000_0000

  /** A session idle for longer than this many seconds is timed out. */
  const SESSION_TIMEOUT: int := 60
  const NANOS_PER_SECOND: int := 1_000_000_000

  datatype IpAddress = IpAddress(octets: seq<u8>)

  /** Identifies a session; how the tap derives it from a segment is not part of this model. */
  datatype SessionKey = SessionKey(addressA: IpAddress, portA: u16, addressB: IpAddress, portB: u16)

  datatype TrafficDirection = ClientToServer | ServerToClient

  /** A tag attached to a session by the tagger, which is not part of this model. */
  datatype L4SessionTag = L4SessionTag(name: string)

  /** One captured segment; its direction is supplied by the capture layer. */
  datatype TcpSegment = TcpSegment(
    sessionKey: SessionKey,
    sourceAddress: IpAddress,
    sourcePort: u16,
    destinationAddress: IpAddress,
    destinationPort: u16,
    flags: TcpFlags,
    sequenceNumber: u32,
    payload: seq<u8>,
    size: nat,
    timestamp: int,
    direction: TrafficDirection)

  /** Payloads stored per direction, keyed by sequence number. */
  type SegmentStore = map<u32, seq<u8>>

  datatype TcpSession = TcpSession(
    state: TcpSessionState,
    sourceAddress: IpAddress,
    sourcePort: u16,
    destinationAddress: IpAddress,
    destinationPort: u16,
    startTime: int,
    endTime: Option<int>,
    mostRecentSegmentTime: int,
    segmentCount: nat,
    bytesCount: nat,
    segmentsClientToServer: SegmentStore,
    segmentsServerToClient: SegmentStore,
    tags: Option<seq<L4SessionTag>>)

  type Table = map<SessionKey, TcpSession>

  /** Stores a payload under its sequence number unless that number is already
      present: a retransmission never replaces the recorded payload. */
  function InsertSessionSegment(seg: TcpSegment, segments: SegmentStore): (r: SegmentStore)
    ensures r.Keys == segments.Keys + {seg.sequenceNumber}
    ensures forall n :: n in segments ==> r[n] == segments[n]
    ensures seg.sequenceNumber !in segments ==> r[seg.sequenceNumber] == seg.payload
  {
    if seg.sequenceNumber in segments then segments
    else segments[seg.sequenceNumber := seg.payload]
  }

  /** A retransmitted sequence number keeps the first payload recorded for it. */
  lemma RetransmissionKeepsFirstPayload(first: TcpSegment, again: TcpSegment, segments: SegmentStore)
    requires first.sequenceNumber == again.sequenceNumber
    requires first.sequenceNumber !in segments
    ensures InsertSessionSegment(again, InsertSessionSegment(first, segments))[first.sequenceNumber]
              == first.payload
  {
  }

  /** The session recorded for the first segment of a connection. */
  function NewSession(seg: TcpSegment): (s: TcpSession)
    ensures s.state == SynSent && s.endTime.None? && s.tags.None?
    ensures s.segmentCount == 1 && s.bytesCount == seg.size
    ensures s.startTime == seg.timestamp && s.mostRecentSegmentTime == seg.timestamp
    ensures s.segmentsClientToServer == map[] && s.segmentsServerToClient == map[]
    ensures s.sourceAddress == seg.sourceAddress && s.sourcePort == seg.sourcePort
    ensures s.destinationAddress == seg.destinationAddress && s.destinationPort == seg.destinationPort
  {
    TcpSession(
      SynSent, seg.sourceAddress, seg.sourcePort, seg.destinationAddress, seg.destinationPort,
      seg.timestamp, None, seg.timestamp, 1, seg.size, map[], map[], None)
  }

  /** A state whose entry by a segment stamps the session's end time. */
  predicate EndsSession(s: TcpSessionState) {
    s == ClosedFin || s == ClosedRst
  }

  /** The effect of one more segment on an existing session. */
  function UpdateSession(s: TcpSession, seg: TcpSegment): (r: TcpSession)
    ensures r.state == DetermineSessionState(seg.flags, Some(s.state))
    ensures r.segmentCount == s.segmentCount + 1
    ensures r.bytesCount == s.bytesCount + seg.size
    ensures r.mostRecentSegmentTime == seg.timestamp
    // The end time is written at most once, by the segment that closes the session.
    ensures s.endTime.Some? ==> r.endTime == s.endTime
    ensures s.endTime.None? ==> r.endTime == if EndsSession(r.state) then Some(seg.timestamp) else None
    // An empty payload is not stored; a non-empty one goes to its direction's store only.
    ensures |seg.payload| == 0 ==>
              r.segmentsClientToServer == s.segmentsClientToServer
              && r.segmentsServerToClient == s.segmentsServerToClient
    ensures |seg.payload| > 0 && seg.direction == ClientToServer ==>
              r.segmentsClientToServer == InsertSessionSegment(seg, s.segmentsClientToServer)
              && r.segmentsServerToClient == s.segmentsServerToClient
    ensures |seg.payload| > 0 && seg.direction == ServerToClient ==>
              r.segmentsServerToClient == InsertSessionSegment(seg, s.segmentsServerToClient)
              && r.segmentsClientToServer == s.segmentsClientToServer
    // Endpoints, start time and tags are those the session was created with.
    ensures r.sourceAddress == s.sourceAddress && r.sourcePort == s.sourcePort
    ensures r.destinationAddress == s.destinationAddress && r.destinationPort == s.destinationPort
    ensures r.startTime == s.startTime && r.tags == s.tags
  {
    var state := DetermineSessionState(seg.flags, Some(s.state));
    var c2s := if |seg.payload| > 0 && seg.direction == ClientToServer
               then InsertSessionSegment(seg, s.segmentsClientToServer) else s.segmentsClientToServer;
    var s2c := if |seg.payload| > 0 && seg.direction == ServerToClient
               then InsertSessionSegment(seg, s.segmentsServerToClient) else s.segmentsServerToClient;
    var end := if s.endTime.None? && EndsSession(state) then Some(seg.timestamp) else s.endTime;
    s.(state := state, segmentsClientToServer := c2s, segmentsServerToClient := s2c,
       mostRecentSegmentTime := seg.timestamp, segmentCount := s.segmentCount + 1,
       bytesCount := s.bytesCount + seg.size, endTime := end)
  }

  /** A segment of an unknown session opens one exactly when it is a bare SYN. */
  predicate OpensSession(seg: TcpSegment) {
    DetermineSessionState(seg.flags, None) == SynSent
  }

  /** Records one segment in the table. */
  function RegisterSegment(t: Table, seg: TcpSegment): (r: Table)
    // Sessions are created only on a bare SYN; mid-session segments of unknown
    // sessions are dropped.
    ensures r.Keys == if seg.sessionKey in t || (seg.flags.syn && !seg.flags.ack)
                      then t.Keys + {seg.sessionKey} else t.Keys
    ensures seg.sessionKey !in t && seg.flags.syn && !seg.flags.ack ==>
              r[seg.sessionKey] == NewSession(seg)
    ensures seg.sessionKey !in t && !(seg.flags.syn && !seg.flags.ack) ==> r == t
    ensures seg.sessionKey in t ==> r[seg.sessionKey] == UpdateSession(t[seg.sessionKey], seg)
    // No other session is touched.
    ensures forall k :: k in t && k != seg.sessionKey ==> r[k] == t[k]
  {
    var key := seg.sessionKey;
    if key in t then t[key := UpdateSession(t[key], seg)]
    else if OpensSession(seg) then t[key := NewSession(seg)]
    else t
  }

  /** What every recorded session satisfies. */
  predicate SessionInv(s: TcpSession) {
    && s.segmentCount >= 1
    && (forall n :: n in s.segmentsClientToServer ==> |s.segmentsClientToServer[n]| > 0)
    && (forall n :: n in s.segmentsServerToClient ==> |s.segmentsServerToClient[n]| > 0)
    && (EndsSession(s.state) ==> s.endTime.Some?)
    && (s.endTime.Some? ==> IsClosed(s.state))
  }

  predicate TableInv(t: Table) {
    forall k :: k in t ==> SessionInv(t[k])
  }

  lemma UpdatePreservesInv(s: TcpSession, seg: TcpSegment)
    requires SessionInv(s)
    ensures SessionInv(UpdateSession(s, seg))
  {
  }

  /** Registering a segment keeps stored payloads non-empty, counts positive and
      end times consistent with closed states. */
  lemma RegisterPreservesInv(t: Table, seg: TcpSegment)
    requires TableInv(t)
    ensures TableInv(RegisterSegment(t, seg))
  {
  }

  /** Applies a sequence of segments in order. */
  function RegisterAll(t: Table, segs: seq<TcpSegment>): Table
    decreases |segs|
  {
    if |segs| == 0 then t else RegisterAll(RegisterSegment(t, segs[0]), segs[1..])
  }

  lemma {:induction false} RegisterAllPreservesInv(t: Table, segs: seq<TcpSegment>)
    requires TableInv(t)
    ensures TableInv(RegisterAll(t, segs))
    decreases |segs|
  {
    if |segs| > 0 {
      RegisterPreservesInv(t, segs[0]);
      RegisterAllPreservesInv(RegisterSegment(t, segs[0]), segs[1..]);
    }
  }

  /** How many of `segs` belong to session `k`. */
  function CountFor(segs: seq<TcpSegment>, k: SessionKey): nat
    decreases |segs|
  {
    if |segs| == 0 then 0 else (if segs[0].sessionKey == k then 1 else 0) + CountFor(segs[1..], k)
  }

  /** Once a session is recorded, it stays recorded, its segment count grows by
      exactly the number of its segments, its start time never changes, and an
      end time once set is never overwritten. */
  lemma {:induction false} RegisterAllOnSession(t: Table, segs: seq<TcpSegment>, k: SessionKey)
    requires k in t
    ensures k in RegisterAll(t, segs)
    ensures RegisterAll(t, segs)[k].segmentCount == t[k].segmentCount + CountFor(segs, k)
    ensures RegisterAll(t, segs)[k].startTime == t[k].startTime
    ensures t[k].endTime.Some? ==> RegisterAll(t, segs)[k].endTime == t[k].endTime
    ensures IsClosed(t[k].state) ==> RegisterAll(t, segs)[k].state == t[k].state
    decreases |segs|
  {
    if |segs| > 0 {
      var t1 := RegisterSegment(t, segs[0]);
      assert k in t1;
      RegisterAllOnSession(t1, segs[1..], k);
    }
  }

  /** Whether a session has been idle for longer than the timeout at `now`. */
  predicate TimedOut(s: TcpSession, now: int) {
    now - s.mostRecentSegmentTime > SESSION_TIMEOUT * NANOS_PER_SECOND
  }

  /** Marks every idle session as timed out. */
  function TimeoutSweep(t: Table, now: int): (r: Table)
    ensures r.Keys == t.Keys
    ensures forall k :: k in t && TimedOut(t[k], now) ==> r[k].state == ClosedTimeout
    // Only the state of idle sessions changes.
    ensures forall k :: k in t ==> r[k] == t[k].(state := r[k].state)
    ensures forall k :: k in t && !TimedOut(t[k], now) ==> r[k] == t[k]
  {
    map k | k in t :: if TimedOut(t[k], now) then t[k].(state := ClosedTimeout) else t[k]
  }

  /** Drops every closed session; refused and open sessions stay. */
  function RetentionSweep(t: Table): (r: Table)
    ensures forall k :: k in r <==> k in t && !IsClosed(t[k].state)
    ensures forall k :: k in r ==> r[k] == t[k]
  {
    map k | k in t && !IsClosed(t[k].state) :: t[k]
  }

  /** The tagger's effect: it replaces the tags of every session and nothing else. */
  function TagSessions(t: Table, tagsFor: TcpSession -> Option<seq<L4SessionTag>>): (r: Table)
    ensures r.Keys == t.Keys
    ensures forall k :: k in t ==> r[k] == t[k].(tags := tagsFor(t[k]))
  {
    map k | k in t :: t[k].(tags := tagsFor(t[k]))
  }

  /** The table manipulation of one report cycle: time out, tag, (report), prune.
      Exactly the sessions that were neither closed nor idle remain, each only
      re-tagged, so none is left in a closed state. */
  function ProcessReport(t: Table, now: int, tagsFor: TcpSession -> Option<seq<L4SessionTag>>): (r: Table)
    ensures forall k :: k in r ==> !IsClosed(r[k].state)
    ensures forall k :: k in r <==> k in t && !IsClosed(t[k].state) && !TimedOut(t[k], now)
    ensures forall k :: k in r ==> r[k] == t[k].(tags := tagsFor(t[k]))
  {
    RetentionSweep(TagSessions(TimeoutSweep(t, now), tagsFor))
  }

  /** The sweeps keep the session invariant. */
  lemma ProcessReportPreservesInv(t: Table, now: int, tagsFor: TcpSession -> Option<seq<L4SessionTag>>)
    requires TableInv(t)
    ensures TableInv(TimeoutSweep(t, now))
    ensures TableInv(ProcessReport(t, now, tagsFor))
  {
  }
}
