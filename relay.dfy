/**
 * The channel relay registry: a process-wide map from a channel id to the
 * set of connections that joined it, and the broadcast that fans a message
 * out to every other member and prunes the peers whose send failed.
 *
 * Connections are opaque identities (`Conn`). Every
 * method of `ChannelRegistry` stands for one region the source runs under
 * the registry's lock, so each is one atomic step; the broadcast's send
 * pass runs outside the lock and touches no registry state.
 */
module Relay {

  type ChannelId = string

  /**
   * A connection, by identity only: the relay never looks inside one, it
   * compares connections for equality and uses them as set elements and map
   * keys, as the source does with its connection handles.
   */
  datatype Conn = Conn(handle: nat)

  /** The registry's state: channel id to member set. */
  type Channels = map<ChannelId, set<Conn>>

  /** The members of `ch`; an absent key reads as the empty set, as a nil Go map does. */
  function Members(m: Channels, ch: ChannelId): set<Conn>
  {
    if ch in m then m[ch] else {}
  }

  /** Registry invariant: no channel key is stored with an empty member set. */
  predicate NoEmptyChannel(m: Channels)
  {
    forall ch :: ch in m ==> m[ch] != {}
  }

  /** Every connection is a member of at most one channel. */
  ghost predicate SingleMembership(m: Channels)
  {
    forall c, ch1, ch2 :: c in Members(m, ch1) && c in Members(m, ch2) ==> ch1 == ch2
  }

  /** No element occurs twice in `s`. */
  predicate Distinct(s: seq<Conn>)
  {
    forall i, j :: 0 <= i < j < |s| ==> s[i] != s[j]
  }

  /** The registry after `c` joins `ch`. */
  function Joined(m: Channels, ch: ChannelId, c: Conn): (r: Channels)
    ensures forall k, x :: x in Members(r, k) <==> x in Members(m, k) || (k == ch && x == c)
    ensures r.Keys == m.Keys + {ch}
    ensures c in Members(m, ch) ==> r == m
    ensures NoEmptyChannel(m) ==> NoEmptyChannel(r)
    ensures SingleMembership(m) && (forall k :: k != ch ==> c !in Members(m, k)) ==> SingleMembership(r)
  {
    var s := Members(m, ch);
    assert c in s ==> s + {c} == s;
    m[ch := s + {c}]
  }

  /** The registry after `failed` are removed from `ch`; the key goes when its set empties. */
  function Pruned(m: Channels, ch: ChannelId, failed: set<Conn>): (r: Channels)
    ensures forall k, x :: x in Members(r, k) <==> x in Members(m, k) && !(k == ch && x in failed)
    ensures r.Keys == if ch in m && m[ch] <= failed then m.Keys - {ch} else m.Keys
    ensures ch !in m ==> r == m
    ensures NoEmptyChannel(m) ==> NoEmptyChannel(r)
    ensures SingleMembership(m) ==> SingleMembership(r)
  {
    if ch !in m then m
    else
      var s := m[ch] - failed;
      if s == {} then
        assert m[ch] <= failed by {
          forall x | x in m[ch] ensures x in failed {
            assert x !in s;
          }
        }
        assert Members(m - {ch}, ch) == {};
        assert forall k :: k != ch ==> Members(m - {ch}, k) == Members(m, k);
        m - {ch}
      else m[ch := s]
  }

  /** The registry after `c` leaves `ch`. */
  function Left(m: Channels, ch: ChannelId, c: Conn): (r: Channels)
    ensures forall k, x :: x in Members(r, k) <==> x in Members(m, k) && !(k == ch && x == c)
    ensures r.Keys == if ch in m && m[ch] <= {c} then m.Keys - {ch} else m.Keys
    ensures ch !in m ==> r == m
    ensures NoEmptyChannel(m) ==> NoEmptyChannel(r)
    ensures SingleMembership(m) ==> SingleMembership(r)
  {
    if ch !in m then m
    else
      var s := m[ch] - {c};
      if s == {} then m - {ch} else m[ch := s]
  }

  /** Leaving is pruning a batch of one. */
  lemma LeaveIsPruneOfOne(m: Channels, ch: ChannelId, c: Conn)
    ensures Left(m, ch, c) == Pruned(m, ch, {c})
  {
  }

  /** Leaving twice is leaving once: the explicit leave on end-of-stream and the deferred one agree. */
  lemma LeaveIdempotent(m: Channels, ch: ChannelId, c: Conn)
    ensures Left(Left(m, ch, c), ch, c) == Left(m, ch, c)
  {
    var r := Left(m, ch, c);
    var r2 := Left(r, ch, c);
    assert r2.Keys == r.Keys;
    forall k | k in r ensures r2[k] == r[k] {
      assert Members(r2, k) == Members(r, k);
    }
  }

  /** A join undone by the matching leave restores a valid registry exactly. */
  lemma LeaveUndoesJoin(m: Channels, ch: ChannelId, c: Conn)
    requires NoEmptyChannel(m)
    requires c !in Members(m, ch)
    ensures Left(Joined(m, ch, c), ch, c) == m
  {
  }

  /** On a valid registry an empty batch prunes nothing. */
  lemma PruneNothing(m: Channels, ch: ChannelId)
    requires NoEmptyChannel(m)
    ensures Pruned(m, ch, {}) == m
  {
    if ch in m {
      assert m[ch] - {} == m[ch];
    }
  }

  /**
   * The send pass of a broadcast: one send per snapshot peer, in order.
   * `failures` is the oracle for the network: the send to `c` fails with
   * error `failures[c]` exactly when `c in failures`, and otherwise the
   * message reaches `c`. A failure is recorded and the pass goes on with
   * the remaining peers. `delivered` lists the peers the message reached.
   */
  method SendAll(peers: seq<Conn>, failures: map<Conn, string>)
    returns (errors: map<Conn, string>, failed: seq<Conn>, delivered: seq<Conn>)
    ensures forall c :: c in errors <==> c in peers && c in failures
    ensures forall c :: c in errors ==> errors[c] == failures[c]
    ensures forall c :: c in failed <==> c in errors
    ensures forall c :: c in delivered <==> c in peers && c !in failures
    ensures Distinct(peers) ==> Distinct(failed) && Distinct(delivered)
  {
    errors, failed, delivered := map[], [], [];
    for i := 0 to |peers|
      invariant forall c :: c in errors <==> c in peers[..i] && c in failures
      invariant forall c :: c in errors ==> errors[c] == failures[c]
      invariant forall c :: c in failed <==> c in errors
      invariant forall c :: c in delivered <==> c in peers[..i] && c !in failures
      invariant Distinct(peers) ==> Distinct(failed) && Distinct(delivered)
    {
      var c := peers[i];
      if Distinct(peers) {
        assert c !in peers[..i];
      }
      if c in failures {
        errors := errors[c := failures[c]];
        failed := failed + [c];
      } else {
        delivered := delivered + [c];
      }
      assert peers[..i + 1] == peers[..i] + [c];
    }
    assert peers[..|peers|] == peers;
  }

  class ChannelRegistry {
    var channels: Channels

    ghost predicate Valid()
      reads this
    {
      NoEmptyChannel(channels)
    }

    constructor ()
      ensures Valid()
      ensures channels == map[]
    {
      channels := map[];
    }

    /** Join: make `conn` a member of `channelID`, creating the channel on first join. */
    method AddToChannel(channelID: ChannelId, conn: Conn)
      modifies this
      ensures channels == Joined(old(channels), channelID, conn)
      ensures old(Valid()) ==> Valid()
    {
      if channelID !in channels {
        channels := channels[channelID := {}];
      }
      channels := channels[channelID := channels[channelID] + {conn}];
    }

    /** Leave: drop `conn` from `channelID`, and the channel once nobody is left. */
    method RemoveFromChannel(channelID: ChannelId, conn: Conn)
      modifies this
      ensures channels == Left(old(channels), channelID, conn)
      ensures old(Valid()) ==> Valid()
    {
      if channelID in channels {
        channels := channels[channelID := channels[channelID] - {conn}];
        if |channels[channelID]| == 0 {
          channels := channels - {channelID};
        }
      }
    }

    /**
     * The broadcast's snapshot, taken under the read lock: every member of
     * `channelID` except `sender`, each once, in the map's iteration order.
     */
    method Snapshot(channelID: ChannelId, sender: Conn) returns (peers: seq<Conn>)
      ensures forall c :: c in peers <==> c in Members(channels, channelID) && c != sender
      ensures Distinct(peers)
    {
      var pending := Members(channels, channelID);
      peers := [];
      while pending != {}
        invariant pending <= Members(channels, channelID)
        invariant forall c :: c in peers <==> c in Members(channels, channelID) - pending && c != sender
        invariant Distinct(peers)
        decreases pending
      {
        var c :| c in pending;
        if c != sender {
          assert c !in peers;
          peers := peers + [c];
        }
        pending := pending - {c};
      }
    }

    /** The broadcast's batch removal of failed peers, under one write lock. */
    method Prune(channelID: ChannelId, failed: seq<Conn>)
      modifies this
      ensures channels == Pruned(old(channels), channelID, set c | c in failed)
      ensures old(Valid()) ==> Valid()
    {
      var i := 0;
      ghost var removed: set<Conn> := {};
      if channelID in channels {
        assert channels[channelID] - removed == channels[channelID];
      }
      while i < |failed|
        invariant 0 <= i <= |failed|
        invariant forall c :: c in removed <==> c in failed[..i]
        invariant channelID !in old(channels) ==> channels == old(channels)
        invariant channelID in old(channels) ==>
          channels == old(channels)[channelID := old(channels)[channelID] - removed]
      {
        if channelID in channels {
          assert old(channels)[channelID] - removed - {failed[i]} == old(channels)[channelID] - (removed + {failed[i]});
          channels := channels[channelID := channels[channelID] - {failed[i]}];
        }
        removed := removed + {failed[i]};
        assert failed[..i + 1] == failed[..i] + [failed[i]];
        i := i + 1;
      }
      assert failed[..i] == failed;
      assert removed == set c | c in failed;
      if channelID in channels && |channels[channelID]| == 0 {
        channels := channels - {channelID};
      }
    }

    /**
     * Broadcast from `sender` to the rest of `channelID`: snapshot, send to
     * each peer, then prune every failed peer in one batch. Returns the
     * failures keyed by peer; the registry is left alone when there are none.
     */
    method BroadcastToChannel(channelID: ChannelId, sender: Conn, failures: map<Conn, string>)
      returns (errors: map<Conn, string>, ghost delivered: seq<Conn>)
      modifies this
      ensures forall c :: c in delivered <==> c in Members(old(channels), channelID) && c != sender && c !in failures
      ensures Distinct(delivered)
      ensures errors.Keys == (Members(old(channels), channelID) - {sender}) * failures.Keys
      ensures forall c :: c in errors ==> errors[c] == failures[c]
      ensures channels == if errors == map[] then old(channels) else Pruned(old(channels), channelID, errors.Keys)
      ensures forall c :: c in errors ==> c !in Members(channels, channelID)
      ensures old(Valid()) ==> Valid()
    {
      var peers := Snapshot(channelID, sender);
      var failed;
      errors, failed, delivered := SendAll(peers, failures);
      assert (set c | c in failed) == errors.Keys;
      if |failed| > 0 {
        assert failed[0] in errors;
        Prune(channelID, failed);
      } else {
        assert errors.Keys == {};
      }
    }
  }
}
