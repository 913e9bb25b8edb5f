/** The connection life cycle (pw_connection.c). */
module Connection {

  datatype State =
    | Disconnected | Connecting | Handshaking | Authenticating
    | Ready | Draining | Closing | Closed

  predicate Allowed(current: State, wanted: State) {
    match current
    case Disconnected => wanted == Connecting
    case Connecting => wanted == Handshaking || wanted == Closed
    case Handshaking => wanted == Authenticating || wanted == Closed
    case Authenticating => wanted == Ready || wanted == Closed
    case Ready => wanted == Draining || wanted == Closing || wanted == Closed
    case Draining => wanted == Closing || wanted == Closed
    case Closing => wanted == Closed
    case Closed => wanted == Disconnected
  }

  /** Where a request leads when its result is ignored: a refused one changes nothing. */
  function Request(current: State, wanted: State): State {
    if Allowed(current, wanted) then wanted else current
  }

  /** The step of the normal life of a connection, without draining. */
  function Successor(current: State): State {
    match current
    case Disconnected => Connecting
    case Connecting => Handshaking
    case Handshaking => Authenticating
    case Authenticating => Ready
    case Ready => Closing
    case Draining => Closing
    case Closing => Closed
    case Closed => Disconnected
  }

  /** Granted are exactly the step to the successor, draining when ready, and closing at once
      when there is a connection to close. */
  lemma AllowedExactly(current: State, wanted: State)
    ensures Allowed(current, wanted) <==>
            || wanted == Successor(current)
            || (current == Ready && wanted == Draining)
            || (wanted == Closed && current != Disconnected && current != Closed)
  {
  }

  /** Where requests lead, one after the other. */
  function Requests(current: State, wanted: seq<State>): State
    decreases |wanted|
  {
    if wanted == [] then current else Requests(Request(current, wanted[0]), wanted[1..])
  }

  /** How far a connection has come since it was last disconnected. */
  function Stage(s: State): nat {
    match s
    case Disconnected => 0
    case Connecting => 1
    case Handshaking => 2
    case Authenticating => 3
    case Ready => 4
    case Draining => 5
    case Closing => 6
    case Closed => 7
  }

  /** Unless it is disconnected again, no requests take a connection back, and none take it
      from before authentication to a ready or draining state or to CLOSING without asking
      for READY. */
  lemma {:induction false} NoWayAround(current: State, wanted: seq<State>)
    requires Disconnected !in wanted
    ensures Stage(current) <= Stage(Requests(current, wanted))
    ensures Stage(current) < 4 && Requests(current, wanted) in {Ready, Draining, Closing} ==> Ready in wanted
    decreases |wanted|
  {
    if wanted != [] {
      NoWayAround(Request(current, wanted[0]), wanted[1..]);
    }
  }

  /** HANDSHAKING is entered from CONNECTING only: asked for from DISCONNECTED, as the
      server program does, it is refused, and by way of CONNECTING it is reached. */
  lemma HandshakingEnteredExactly(current: State)
    ensures current != Handshaking ==> (Request(current, Handshaking) == Handshaking <==> current == Connecting)
    ensures Request(Disconnected, Handshaking) == Disconnected
    ensures Request(Request(Disconnected, Connecting), Handshaking) == Handshaking
  {
  }

  class Conn {
    var state: State

    constructor ()
      ensures state == Disconnected
    {
      state := Disconnected;
    }

    method Transition(wanted: State) returns (valid: bool)
      modifies this
      ensures valid == Allowed(old(state), wanted)
      ensures state == Request(old(state), wanted)
    {
      valid := false;
      match state {
        case Disconnected =>
          if wanted == Connecting {
            valid := true;
          }
        case Connecting =>
          if wanted == Handshaking || wanted == Closed {
            valid := true;
          }
        case Handshaking =>
          if wanted == Authenticating || wanted == Closed {
            valid := true;
          }
        case Authenticating =>
          if wanted == Ready || wanted == Closed {
            valid := true;
          }
        case Ready =>
          if wanted == Draining || wanted == Closing || wanted == Closed {
            valid := true;
          }
        case Draining =>
          if wanted == Closing || wanted == Closed {
            valid := true;
          }
        case Closing =>
          if wanted == Closed {
            valid := true;
          }
        case Closed =>
          if wanted == Disconnected {
            valid := true;
          }
      }
      if valid {
        state := wanted;
      }
    }
  }
}
