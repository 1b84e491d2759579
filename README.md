# Channel relay registry of the ban7er API, in Dafny

The ban7er API relays WebSocket text messages between the clients that
joined the same channel. Its core is an in-memory registry, a map from a
channel id to the set of connections in that channel. The registry has three
operations:

- join (`addToChannel`);
- leave (`removeFromChannel`);
- broadcast (`broadcastToChannel`). A broadcast snapshots the channel's
  members other than the sender and sends the message to each of them. It
  then removes every peer whose send failed, in one batch.

In front of the registry sit the handshake's origin check and the
per-connection handler. The handler refuses a request that lacks `username`
or `channel_id`. Otherwise it joins the channel and relays every message it
receives. Its loop stops at end of stream, on a receive error, or after the
first broadcast that reports a failed send. On the way out it always leaves
the channel.

The model has three modules:

- `relay.dfy` (module `Relay`): the registry.
  - Pure specification functions over the map: `Joined`, `Left` and
    `Pruned`, each with contracts that state membership, keys and preserved
    invariants.
  - Lemmas relating these functions to each other.
  - The class `ChannelRegistry`. Its field `channels` is the registry map.
    Each locked region of the source is one method. Each method is proved to
    produce exactly the corresponding specification function of the old
    state.
  - The broadcast's unlocked send pass, `SendAll`.
- `origin.dfy` (module `Origin`): the handshake's origin predicate.
- `session.dfy` (module `Session`): the handler's attribute checks and its
  receive loop.

Connections are opaque identities (`Relay.Conn`). The model compares them for
equality and uses them as set elements and map keys, which is all the source
does with its connection handles.

The network is an input to the model:

- Each send outcome comes from an oracle map. The send to a peer fails with
  a given error exactly when the peer is a key of the map.
- The receive side is a sequence of messages followed by the way the stream
  ends: end of stream, or another receive error. Each message carries the
  oracle for its own broadcast.

Registry invariants:

- `NoEmptyChannel`: no channel key is stored with an empty member set. The
  class's `Valid()` is this predicate.
- `SingleMembership`: a connection is in at most one channel. The source
  does not enforce it. The model proves that leave and prune keep it, and
  that join keeps it when the joining connection is in no other channel.

## Model

| member | source | states |
|---|---|---|
| `Relay.Joined` | ban7er/cmd/api/web_socket_handlers.go:81-89 | after a join, the members of every channel are the old members plus `c` in `ch` only; the key `ch` exists afterwards (it is created if absent); joining a present member changes nothing; no-empty-channel is kept, and so is single membership when `c` was in no other channel |
| `Relay.Left` | ban7er/cmd/api/web_socket_handlers.go:91-101 | after a leave, the members are the old ones minus `c` from `ch` only; the key `ch` is dropped exactly when its set held nothing but `c`; an absent key is a no-op; no-empty-channel and single membership are kept |
| `Relay.Pruned` | ban7er/cmd/api/web_socket_handlers.go:124-133 | after the batch removal, the members are the old ones minus the failed peers from `ch` only; the key is dropped exactly when every member failed; an absent key is a no-op; both invariants are kept |
| `Relay.LeaveIsPruneOfOne` | ban7er/cmd/api/web_socket_handlers.go:95-100 | a leave is a batch removal of a single connection (lines 95-100 against 126-131) |
| `Relay.LeaveIdempotent` | ban7er/cmd/api/web_socket_handlers.go:51-60 | leaving twice equals leaving once, so the explicit leave at end of stream followed by the deferred leave is a single leave |
| `Relay.LeaveUndoesJoin` | ban7er/cmd/api/web_socket_handlers.go:85-100 | on a registry with no empty channel, joining a non-member and then leaving restores the registry exactly; in particular a lone member's channel key is gone again |
| `Relay.PruneNothing` | ban7er/cmd/api/web_socket_handlers.go:124-133 | on a registry with no empty channel, a batch with no failed peer changes nothing, so the `len(failedConns) > 0` guard only saves the lock |
| `Relay.SendAll` | ban7er/cmd/api/web_socket_handlers.go:113-122 | the error map has an entry for exactly the peers whose send failed, carrying that send's error; a failure does not stop the pass; the failed list holds exactly those peers; the message reaches exactly the other peers; neither list repeats a peer when the snapshot has no repeats |
| `Relay.ChannelRegistry.constructor` | ban7er/cmd/api/web_socket_handlers.go:13-18 | the registry starts empty and valid |
| `Relay.ChannelRegistry.AddToChannel` | ban7er/cmd/api/web_socket_handlers.go:81-89 | the new registry is `Joined` of the old one; validity is kept |
| `Relay.ChannelRegistry.RemoveFromChannel` | ban7er/cmd/api/web_socket_handlers.go:91-101 | the new registry is `Left` of the old one; validity is kept |
| `Relay.ChannelRegistry.Snapshot` | ban7er/cmd/api/web_socket_handlers.go:104-111 | the snapshot holds exactly the members of the channel other than the sender, each once; an absent channel gives an empty snapshot |
| `Relay.ChannelRegistry.Prune` | ban7er/cmd/api/web_socket_handlers.go:124-133 | deleting the failed peers one by one and then dropping an emptied key yields `Pruned` of the old registry; validity is kept |
| `Relay.ChannelRegistry.BroadcastToChannel` | ban7er/cmd/api/web_socket_handlers.go:103-136 | the returned errors are keyed by exactly the channel members other than the sender whose send failed; the message reaches every other member whose send succeeded, and never the sender; with no failure the registry is untouched, otherwise it is `Pruned` by the failed peers, so every failed peer is out of the channel and nothing else changes; validity is kept |
| `Origin.Contains` | ban7er/cmd/api/web_socket_handlers.go:26 | the linear scan finds `x` exactly when `x` is in the list |
| `Origin.Handshake` | ban7er/cmd/api/web_socket_handlers.go:22-33 | rejects exactly when the origin is non-empty, the trusted list is non-empty and the origin is not on it, with the error text `origin not allowed: <origin>`; accepts in every other case |
| `Session.FirstFailing` | ban7er/cmd/api/web_socket_handlers.go:66-72 | the index returned is that of the first message whose broadcast meets a failing peer; every earlier broadcast has none; it is the length of the stream when no broadcast fails |
| `Session.ReceiveLoop` | ban7er/cmd/api/web_socket_handlers.go:53-73 | the loop broadcasts messages up to and including the first one with a failed send, and then stops with those errors; the registry is then `Pruned` by them. Without such a message it broadcasts the whole stream and stops on the stream's end. At end of stream it has left the channel; on another receive error it has not |
| `Session.SessionCleanup` | ban7er/cmd/api/web_socket_handlers.go:50-60 | after join, loop and the deferred leave, however the loop stopped: the connection is not a member of its channel; no other channel changed; no-empty-channel is kept; single membership is kept for a connection that was in no channel; and unless a broadcast failed, a connection that was not already a member leaves the registry exactly as it found it |
| `Session.HandleConnection` | ban7er/cmd/api/web_socket_handlers.go:35-74 | a missing `username` gives exactly the frame `{"error": "missing attribute: username"}`, and a missing `channel_id` (checked second) gives the `channel_id` frame; in both cases the registry is unchanged. Otherwise the loop stops as `StopsAsSpecified` describes (the first broadcast with a failed send, or the stream's end), the final registry is the deferred leave applied to the loop's result on the joined registry, and the connection is no longer a member of the channel. Other channels are unchanged and validity is kept. Single membership is kept for a connection that was in no channel. Without a broadcast failure, a fresh member leaves the registry exactly as it found it |

## Left out

- The WebSocket I/O is not modelled: `websocket.Message.Receive` and
  `Send`, `conn.Write`, `conn.Close`, `conn.RemoteAddr` and
  `wsHandler.ServeHTTP` are library calls. Sends are an oracle map and
  receives are an input sequence followed by a stream end.
- Closing connections is not modelled: the deferred close in the handler and
  the close of each failed peer during a broadcast. The model has no
  connection-lifetime state. The peers closed by a broadcast are exactly its
  `failed` list.
- The `sync.RWMutex` and the goroutine per connection are not modelled. Each
  locked region is one atomic method. The snapshot (read lock) and the prune
  (write lock) are separate methods, and `Prune` is specified against
  whatever registry it finds. Interleavings with other sessions between
  those steps or between received messages are not explored. `ReceiveLoop`
  assumes that only its own session changes the registry while it runs.
- Relay.ChannelRegistry.BroadcastToChannel: errors are keyed by connection
  rather than by the remote-address string. In the source, two peers that
  report the same address string share one entry of the error map.
- Relay.ChannelRegistry.BroadcastToChannel: the message payload is not
  carried. The relay forwards it verbatim and it has no effect on the
  registry. The `delivered` output records which peers it reached.
- Session.HandleConnection: logging through `app.logError` is not modelled;
  it has no effect on the relay. The errors a session would log are
  returned in its `StopReason`.
- The handshake's `*websocket.Config` argument is not modelled; the rule
  does not read it. The Origin header is a string, and an absent header is
  the empty string, as `Header.Get` returns.
- The query attributes are strings, and a missing attribute is the empty
  string, as `URL.Query().Get` returns.
- The rest of the repository is not part of this model: RSA key handling and
  Vault storage, configuration and server start-up, routing, the error
  response helpers, and the snippetbox tests.
