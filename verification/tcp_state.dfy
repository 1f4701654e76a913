/**
 * The TCP session state observer of the tap: a pure function from the flags of
 * one segment and the prior state of its session (or none, for a segment of an
 * unknown session) to the next state. It is a simplified observer of the
 * connection lifecycle of section 3.5 of RFC 793, not a TCP implementation.
 */
module TcpState {

  import opened Wrappers

  /** The four control flags the observer looks at. */
  datatype TcpFlags = TcpFlags(syn: bool, ack: bool, reset: bool, fin: bool)

  datatype TcpSessionState =
    | SynSent
    | SynReceived
    | Established
    | FinWait1
    | FinWait2
    | ClosedFin
    | ClosedRst
    | ClosedTimeout
    | Refused

  /** The three closed states that a session never leaves and that retention removes. */
  predicate IsClosed(s: TcpSessionState) {
    s == ClosedFin || s == ClosedRst || s == ClosedTimeout
  }

  /** The next state of a session after one segment with flags `f`. */
  function DetermineSessionState(f: TcpFlags, prior: Option<TcpSessionState>): (r: TcpSessionState)
    // A closed session is never re-opened, whatever the flags.
    ensures prior.Some? && IsClosed(prior.value) ==> r == prior.value
    // Closing by timeout is never the result of a segment.
    ensures r == ClosedTimeout <==> prior == Some(ClosedTimeout)
    // The FIN handshake completes only from FinWait2.
    ensures r == ClosedFin ==> prior == Some(ClosedFin) || (prior == Some(FinWait2) && f.ack)
    // A refusal is a RST answering the initial SYN.
    ensures r == Refused <==> prior == Some(SynSent) && f.reset && !(f.syn && f.ack)
    // A RST on an open session ends it, unless it also carries SYN+ACK, or ACK
    // while the handshake is completing.
    ensures prior.Some? && !IsClosed(prior.value) && f.reset && !(f.syn && f.ack)
              && !(f.ack && prior.value == SynReceived) ==>
              r == Refused || r == ClosedRst
    // An unknown session is seen opening exactly on a bare SYN.
    ensures prior.None? ==> (r == SynSent <==> f.syn && !f.ack)
  {
    match prior
    case Some(s) =>
      if s == ClosedFin then ClosedFin
      else if s == ClosedRst then ClosedRst
      else if s == ClosedTimeout then ClosedTimeout
      else if f.syn && f.ack then SynReceived
      else if f.ack && s == SynReceived then Established
      else if f.reset && s == SynSent then Refused
      else if f.reset then ClosedRst
      else if f.fin && s == Established then FinWait1
      else if f.ack && s == FinWait1 then FinWait2
      else if f.ack && s == FinWait2 then ClosedFin
      else Established
    case None =>
      if f.syn && !f.ack then SynSent
      else if f.syn && f.ack then SynReceived
      else if !f.syn && f.ack then Established
      else if f.fin then FinWait1
      else if f.reset then ClosedRst
      else Established
  }

  /** The transitions of an open session, each guarded by the failure of every
      test the observer makes before it. */
  lemma OpenSessionTransitions(f: TcpFlags, s: TcpSessionState)
    requires !IsClosed(s)
    ensures f.syn && f.ack ==> DetermineSessionState(f, Some(s)) == SynReceived
    ensures !(f.syn && f.ack) && f.ack && s == SynReceived ==>
              DetermineSessionState(f, Some(s)) == Established
    ensures !(f.syn && f.ack) && f.reset && s == SynSent ==> DetermineSessionState(f, Some(s)) == Refused
    ensures !(f.syn && f.ack) && !(f.ack && s == SynReceived) && f.reset && s != SynSent ==>
              DetermineSessionState(f, Some(s)) == ClosedRst
    ensures !(f.syn && f.ack) && !f.reset && f.fin && s == Established ==>
              DetermineSessionState(f, Some(s)) == FinWait1
    ensures !(f.syn && f.ack) && !f.reset && f.ack && s == FinWait1 ==>
              DetermineSessionState(f, Some(s)) == FinWait2
    ensures !(f.syn && f.ack) && !f.reset && f.ack && s == FinWait2 ==>
              DetermineSessionState(f, Some(s)) == ClosedFin
    // Everything else falls through to Established.
    ensures !(f.syn && f.ack) && !f.reset
              && !(f.ack && (s == SynReceived || s == FinWait1 || s == FinWait2))
              && !(f.fin && s == Established) ==>
              DetermineSessionState(f, Some(s)) == Established
  {
  }

  /** The state a session reaches after a sequence of segments, starting from `s`. */
  function Run(s: TcpSessionState, flags: seq<TcpFlags>): TcpSessionState
    decreases |flags|
  {
    if |flags| == 0 then s else Run(DetermineSessionState(flags[0], Some(s)), flags[1..])
  }

  /** However many segments arrive afterwards, a closed session keeps its closed state. */
  lemma {:induction false} ClosedStaysClosed(s: TcpSessionState, flags: seq<TcpFlags>)
    requires IsClosed(s)
    ensures Run(s, flags) == s
    decreases |flags|
  {
    if |flags| > 0 {
      ClosedStaysClosed(s, flags[1..]);
    }
  }

  /** Segments alone never time a session out: ClosedTimeout is reached only by the sweep. */
  lemma {:induction false} SegmentsNeverTimeOut(s: TcpSessionState, flags: seq<TcpFlags>)
    requires s != ClosedTimeout
    ensures Run(s, flags) != ClosedTimeout
    decreases |flags|
  {
    if |flags| > 0 {
      SegmentsNeverTimeOut(DetermineSessionState(flags[0], Some(s)), flags[1..]);
    }
  }

  /** Refused is not absorbing: any later segment without RST or SYN+ACK,
      a retransmitted SYN included, re-opens the session as Established. */
  lemma RefusedReopens(f: TcpFlags)
    requires !f.reset && !(f.syn && f.ack)
    ensures DetermineSessionState(f, Some(Refused)) == Established
  {
  }
}
