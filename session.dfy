/**
 * The per-connection handler of the relay: it checks the two required
 * query attributes, joins the channel, relays each received message to the
 * rest of the channel, and leaves the channel when its receive loop ends.
 *
 * The network is an input: the messages the client sends, each paired with
 * the oracle for its broadcast (which peers' sends fail, and with what
 * error), followed by the way the receive stream ends.
 */
module Session {
  import opened Relay

  /** The frames written to a client whose upgrade request lacks an attribute. */
  const MissingUsernameFrame := "{\"error\": \"missing attribute: username\"}"
  const MissingChannelFrame := "{\"error\": \"missing attribute: channel_id\"}"

  /** One text message received from the client, with the outcome of relaying it to each peer. */
  datatype Inbound = Inbound(text: string, sendFailures: map<Conn, string>)

  /** How the receive stream ends once the messages are used up. */
  datatype StreamEnd =
    | PeerClosed                 // end of stream: the client closed the connection
    | ReceiveFailed(err: string) // any other receive error

  /** Why a joined connection's receive loop stopped. */
  datatype StopReason =
    | Closed
    | ReceiveError(err: string)
    | BroadcastFailed(errors: map<Conn, string>)

  datatype Outcome =
    | Refused(frame: string)                      // an attribute was missing; never joined
    | Finished(broadcasts: nat, reason: StopReason) // joined, relayed `broadcasts` messages, then left

  /**
   * The position of the first message whose broadcast meets a failing
   * peer among `peers`, or |inbound| when every broadcast succeeds.
   */
  function FirstFailing(peers: set<Conn>, inbound: seq<Inbound>): (i: nat)
    ensures i <= |inbound|
    ensures forall j :: 0 <= j < i ==> peers * inbound[j].sendFailures.Keys == {}
    ensures i < |inbound| ==> peers * inbound[i].sendFailures.Keys != {}
  {
    if |inbound| == 0 then 0
    else if peers * inbound[0].sendFailures.Keys != {} then 0
    else 1 + FirstFailing(peers, inbound[1..])
  }

  /**
   * How a receive loop over `inbound` and `end` stops when its broadcasts
   * go to `peers`: it relays every message up to and including the first
   * one with a failed send and stops with that broadcast's errors, or it
   * relays them all and stops the way the stream ends.
   */
  predicate StopsAsSpecified(peers: set<Conn>, inbound: seq<Inbound>, end: StreamEnd,
                             broadcasts: nat, reason: StopReason)
  {
    var i := FirstFailing(peers, inbound);
    if i < |inbound| then
      && broadcasts == i + 1 && reason.BroadcastFailed?
      && reason.errors.Keys == peers * inbound[i].sendFailures.Keys
      && (forall c :: c in reason.errors ==> reason.errors[c] == inbound[i].sendFailures[c])
    else
      && broadcasts == |inbound|
      && reason == (if end.PeerClosed? then Closed else ReceiveError(end.err))
  }

  /**
   * The registry a receive loop leaves behind: pruned by the failed peers
   * of its last broadcast, left by `conn` at end of stream, and untouched
   * after any other receive error.
   */
  function AfterLoop(m: Channels, ch: ChannelId, conn: Conn, reason: StopReason): Channels
  {
    match reason
    case BroadcastFailed(errors) => Pruned(m, ch, errors.Keys)
    case Closed => Left(m, ch, conn)
    case ReceiveError(_) => m
  }

  /**
   * What a whole session does to the registry, whichever way its loop
   * stopped: join, loop, then the deferred leave.
   */
  lemma SessionCleanup(m: Channels, ch: ChannelId, conn: Conn, reason: StopReason)
    ensures var r := Left(AfterLoop(Joined(m, ch, conn), ch, conn, reason), ch, conn);
      && conn !in Members(r, ch)
      && (forall k :: k != ch ==> Members(r, k) == Members(m, k))
      && (NoEmptyChannel(m) ==> NoEmptyChannel(r))
      && (SingleMembership(m) && (forall k :: conn !in Members(m, k)) ==> SingleMembership(r))
      && (NoEmptyChannel(m) && conn !in Members(m, ch) && !reason.BroadcastFailed? ==> r == m)
  {
    var joined := Joined(m, ch, conn);
    match reason
    case BroadcastFailed(errors) =>
      assert AfterLoop(joined, ch, conn, reason) == Pruned(joined, ch, errors.Keys);
    case Closed =>
      LeaveIdempotent(joined, ch, conn);
      if NoEmptyChannel(m) && conn !in Members(m, ch) {
        LeaveUndoesJoin(m, ch, conn);
      }
    case ReceiveError(_) =>
      if NoEmptyChannel(m) && conn !in Members(m, ch) {
        LeaveUndoesJoin(m, ch, conn);
      }
  }

  /**
   * The receive loop of a joined connection: receive a message, broadcast
   * it to the rest of the channel, and stop at end of stream, on a receive
   * error, or as soon as a broadcast reports a failed send. Nothing else
   * touches the registry meanwhile, so every broadcast has the same peers.
   */
  method ReceiveLoop(reg: ChannelRegistry, conn: Conn, channelID: ChannelId,
                     inbound: seq<Inbound>, end: StreamEnd)
    returns (broadcasts: nat, reason: StopReason)
    modifies reg
    ensures StopsAsSpecified(Members(old(reg.channels), channelID) - {conn}, inbound, end, broadcasts, reason)
    ensures reg.channels == AfterLoop(old(reg.channels), channelID, conn, reason)
  {
    ghost var start := reg.channels;
    ghost var peers := Members(start, channelID) - {conn};
    ghost var first := FirstFailing(peers, inbound);

    broadcasts := 0;
    reason := Closed;
    var stopped := false;
    while !stopped
      invariant 0 <= broadcasts <= |inbound|
      invariant !stopped ==> broadcasts <= first && reg.channels == start
      invariant stopped && reason.BroadcastFailed? ==>
        && first < |inbound| && broadcasts == first + 1
        && reason.errors.Keys == peers * inbound[first].sendFailures.Keys
        && (forall c :: c in reason.errors ==> reason.errors[c] == inbound[first].sendFailures[c])
        && reg.channels == Pruned(start, channelID, reason.errors.Keys)
      invariant stopped && reason.Closed? ==>
        broadcasts == |inbound| == first && end.PeerClosed? && reg.channels == Left(start, channelID, conn)
      invariant stopped && reason.ReceiveError? ==>
        broadcasts == |inbound| == first && end == ReceiveFailed(reason.err) && reg.channels == start
      decreases |inbound| - broadcasts, if stopped then 0 else 1
    {
      if broadcasts == |inbound| {
        stopped := true;
        match end
        case PeerClosed =>
          reg.RemoveFromChannel(channelID, conn);
          reason := Closed;
        case ReceiveFailed(err) =>
          reason := ReceiveError(err);
      } else {
        var message := inbound[broadcasts];
        broadcasts := broadcasts + 1;
        var errors, _ := reg.BroadcastToChannel(channelID, conn, message.sendFailures);
        if |errors| > 0 {
          reason := BroadcastFailed(errors);
          stopped := true;
        }
      }
    }
  }

  /**
   * Serve one upgraded connection `conn` against the shared registry: check
   * the two required attributes, join, run the receive loop, and leave on
   * the way out. While the loop runs the registry changes only through this
   * session, so the peers of every broadcast are the channel's members
   * other than `conn` at join time.
   */
  method HandleConnection(reg: ChannelRegistry, conn: Conn, username: string, channelID: ChannelId,
                          inbound: seq<Inbound>, end: StreamEnd)
    returns (outcome: Outcome)
    modifies reg
    ensures username == "" ==>
      outcome == Refused(MissingUsernameFrame) && reg.channels == old(reg.channels)
    ensures username != "" && channelID == "" ==>
      outcome == Refused(MissingChannelFrame) && reg.channels == old(reg.channels)
    ensures username != "" && channelID != "" ==>
      && outcome.Finished?
      && StopsAsSpecified(Members(old(reg.channels), channelID) - {conn}, inbound, end,
                          outcome.broadcasts, outcome.reason)
      && reg.channels == Left(AfterLoop(Joined(old(reg.channels), channelID, conn), channelID, conn, outcome.reason),
                              channelID, conn)
    ensures outcome.Finished? ==> conn !in Members(reg.channels, channelID)
    ensures forall k :: k != channelID ==> Members(reg.channels, k) == Members(old(reg.channels), k)
    ensures old(reg.Valid()) ==> reg.Valid()
    ensures SingleMembership(old(reg.channels)) && (forall k :: conn !in Members(old(reg.channels), k)) ==>
      SingleMembership(reg.channels)
    ensures old(reg.Valid()) && conn !in Members(old(reg.channels), channelID) &&
            !(outcome.Finished? && outcome.reason.BroadcastFailed?) ==>
      reg.channels == old(reg.channels)
  {
    if username == "" {
      outcome := Refused(MissingUsernameFrame);
      return;
    }
    if channelID == "" {
      outcome := Refused(MissingChannelFrame);
      return;
    }

    reg.AddToChannel(channelID, conn);
    assert Members(reg.channels, channelID) - {conn} == Members(old(reg.channels), channelID) - {conn};
    var broadcasts, reason := ReceiveLoop(reg, conn, channelID, inbound, end);
    // the deferred leave, which runs whichever way the loop ended
    reg.RemoveFromChannel(channelID, conn);
    outcome := Finished(broadcasts, reason);
    SessionCleanup(old(reg.channels), channelID, conn, reason);
  }
}
