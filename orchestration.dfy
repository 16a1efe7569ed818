/** How server::handler and client::connect (src/ircom.cpp) react to the
    errors that end an accept, a connection attempt or a session. The sockets,
    the resolver and the timer are not modelled: each loop is fed the sequence
    of outcomes its awaited operations produce, and the value of
    shutdown_issued_ each time the loop gets to look at it. */
module Orchestration {

  /** The error codes the loops tell apart. */
  datatype ErrorKind = Aborted | Eof | Other

  /** What a loop does after an iteration. */
  datatype Step = Break | Discard | Retry | Fatal

  /** How a loop ended: its while condition or a break saw a shutdown, an
      error escaped to the outer handler (which stops the io_context), or the
      given outcomes ran out while it was still going. */
  datatype Exit = ShutDown | Crashed | Exhausted

  const RETRY_COOLDOWN_MS: nat := 1000

  /** A session (handle_updates) ended with e: an abort, or an end of stream
      after a shutdown was issued, leaves the loop; anything else discards the
      connection and goes on. */
  function SessionStep(e: ErrorKind, shutdownIssued: bool): Step
  {
    if e == Aborted || (e == Eof && shutdownIssued) then Break else Discard
  }

  /** async_accept failed: an abort leaves the loop, any other error escapes. */
  function AcceptStep(e: ErrorKind): Step
  {
    if e == Aborted then Break else Fatal
  }

  /** async_resolve or async_connect failed: an abort leaves the loop, any
      other error closes the socket and retries after the cooldown. */
  function ConnectStep(e: ErrorKind): Step
  {
    if e == Aborted then Break else Retry
  }

  // ---------------------------------------------------------------------------
  // server::handler

  /** One pass of the accept loop: either the accept fails, or a connection is
      accepted and its session later ends with an error, at which point
      shutdown_issued_ has the given value. */
  datatype ServerIteration =
    | AcceptFailed(e: ErrorKind)
    | ServerSession(e: ErrorKind, shutdownIssued: bool)

  function ServerStep(it: ServerIteration): Step
  {
    match it
    case AcceptFailed(e) => AcceptStep(e)
    case ServerSession(e, shutdownIssued) => SessionStep(e, shutdownIssued)
  }

  /** The pass discards its connection and the while condition lets the loop go on. */
  predicate ServerContinues(it: ServerIteration)
  {
    ServerStep(it) == Discard && !it.shutdownIssued
  }

  /** The loop of server::handler (src/ircom.cpp:109-149), after publication.
      It consumes passes while they discard their connection with no shutdown
      issued; the pass that stops it decides how it ends. */
  method ServerHandler(shutdownAtStart: bool, its: seq<ServerIteration>) returns (exit: Exit, handled: nat)
    ensures handled <= |its|
    ensures shutdownAtStart ==> exit == ShutDown && handled == 0
    ensures forall j :: 0 <= j < handled - 1 ==> ServerContinues(its[j])
    ensures exit == Exhausted <==>
              !shutdownAtStart && handled == |its| && forall j :: 0 <= j < |its| ==> ServerContinues(its[j])
    ensures exit != Exhausted && !shutdownAtStart ==> 0 < handled && !ServerContinues(its[handled - 1])
    ensures exit == Crashed <==>
              !shutdownAtStart && 0 < handled && its[handled - 1].AcceptFailed? && its[handled - 1].e != Aborted
    ensures exit == ShutDown && !shutdownAtStart ==>
              0 < handled && (its[handled - 1].e == Aborted || (its[handled - 1].ServerSession? && its[handled - 1].shutdownIssued))
  {
    if shutdownAtStart {
      return ShutDown, 0;
    }
    exit, handled := Exhausted, 0;
    while handled < |its|
      invariant handled <= |its|
      invariant forall j :: 0 <= j < handled ==> ServerContinues(its[j])
    {
      var it := its[handled];
      handled := handled + 1;
      match it
      case AcceptFailed(e) =>
        if e == Aborted {
          return ShutDown, handled;
        }
        return Crashed, handled;
      case ServerSession(e, shutdownIssued) =>
        if SessionStep(e, shutdownIssued) == Break {
          return ShutDown, handled;
        }
        // sock_.close(); continue; and the while condition reads the flag
        if shutdownIssued {
          return ShutDown, handled;
        }
    }
  }

  // ---------------------------------------------------------------------------
  // client::connect

  /** One pass of the connect loop: service discovery is closed, or the
      resolve/connect of the selected service fails (the flag is read after
      the cooldown), or the connection is made and its session later ends. */
  datatype ClientIteration =
    | DiscoveryClosed
    | ConnectFailed(e: ErrorKind, shutdownIssued: bool)
    | ClientSession(e: ErrorKind, shutdownIssued: bool)

  function ClientStep(it: ClientIteration): Step
  {
    match it
    case DiscoveryClosed => Break
    case ConnectFailed(e, _) => ConnectStep(e)
    case ClientSession(e, shutdownIssued) => SessionStep(e, shutdownIssued)
  }

  /** The pass retries or discards its connection and the while condition lets
      the loop go on. */
  predicate ClientContinues(it: ClientIteration)
  {
    ClientStep(it) in {Retry, Discard} && !it.shutdownIssued
  }

  /** Number of passes that waited out the retry cooldown. */
  function Retries(its: seq<ClientIteration>): nat
  {
    if its == [] then 0
    else Retries(its[..|its| - 1]) + (if ClientStep(its[|its| - 1]) == Retry then 1 else 0)
  }

  /** The loop of client::connect (src/ircom.cpp:178-246). In the model no
      outcome escapes to the outer handler, so it never crashes; every failed
      connect other than an abort costs one cooldown of RETRY_COOLDOWN_MS. */
  method ClientConnect(shutdownAtStart: bool, its: seq<ClientIteration>) returns (exit: Exit, handled: nat, waitedMs: nat)
    ensures handled <= |its| && exit != Crashed
    ensures shutdownAtStart ==> exit == ShutDown && handled == 0
    ensures forall j :: 0 <= j < handled - 1 ==> ClientContinues(its[j])
    ensures exit == Exhausted <==>
              !shutdownAtStart && handled == |its| && forall j :: 0 <= j < |its| ==> ClientContinues(its[j])
    ensures exit == ShutDown && !shutdownAtStart ==> 0 < handled && !ClientContinues(its[handled - 1])
    ensures exit == ShutDown && !shutdownAtStart ==>
              its[handled - 1].DiscoveryClosed? || its[handled - 1].e == Aborted || its[handled - 1].shutdownIssued
    ensures waitedMs == RETRY_COOLDOWN_MS * Retries(its[..handled])
  {
    if shutdownAtStart {
      assert its[..0] == [];
      return ShutDown, 0, 0;
    }
    exit, handled, waitedMs := Exhausted, 0, 0;
    while handled < |its|
      invariant handled <= |its|
      invariant forall j :: 0 <= j < handled ==> ClientContinues(its[j])
      invariant waitedMs == RETRY_COOLDOWN_MS * Retries(its[..handled])
    {
      var it := its[handled];
      assert its[..handled + 1][..handled] == its[..handled];
      handled := handled + 1;
      match it
      case DiscoveryClosed =>
        return ShutDown, handled, waitedMs;
      case ConnectFailed(e, shutdownIssued) =>
        if e == Aborted {
          return ShutDown, handled, waitedMs;
        }
        // sock_.close(); then the one-second steady_timer
        waitedMs := waitedMs + RETRY_COOLDOWN_MS;
        if shutdownIssued {
          return ShutDown, handled, waitedMs;
        }
      case ClientSession(e, shutdownIssued) =>
        if SessionStep(e, shutdownIssued) == Break {
          return ShutDown, handled, waitedMs;
        }
        // sock_.close(); continue;
        if shutdownIssued {
          return ShutDown, handled, waitedMs;
        }
    }
  }
}
