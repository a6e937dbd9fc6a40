# Chat server session core, modelled in Dafny

A model of the WebSocket chat server in `src/main.rs`: the presence registry
`AppState.user_set`, the two loops each connection runs (deliver: broadcast
channel to client; ingest: client to broadcast channel), and the joined/left
notices that frame a session. The async runtime, the web framework and the
mutex are taken away; everything runs sequentially on finite traces.

- `messages.dfy` (`Messages`): the three texts a session publishes,
  `"{id} joined."`, `"{id}: {text}"` and `"{id} left"`, with `ChatTextOf`,
  which reads a chat line's text back for a known sender.
- `presence.dfy` (`Presence`): `check_username` and the removal at session end,
  as functions on the user set (`Check`, `Remove`) and their properties.
- `ingest.dfy` (`Ingest`): the ingest loop as the function `Ingested` over a
  trace of `receiver.next()` results (`StreamEnd` for `None`, `ReadError` for
  `Some(Err)`, `Received(msg)` for `Some(Ok(msg))`).
- `deliver.dfy` (`Deliver`): the deliver loop as the function `Delivered` over
  a trace of `rx.recv()` results and a trace of send outcomes (the k-th
  iteration uses the k-th of each), and the loop itself, `DeliverLoop`.
- `session.dfy` (`Session`): the class `AppState` with the user set and the
  sequence `published` of every text handed to `tx.send`; the methods
  `CheckUsername`, `RemoveUser`, `RecvTask` (the ingest loop, publishing line
  by line) and `HandleSocket` (one session).

A finite trace that runs out before a loop stops leaves that loop waiting
(`Awaiting`, `Waiting`), because the real loop would block on its next
`await`. `HandleSocket` takes a `Schedule` for what `tokio::select!` saw
finish first: it requires that task to have stopped within its trace. When
the deliver task finishes first, the ingest task is aborted at some point.
`DeliverEndsFirst(leftAt)` then says how many inbound events it had read when
`"{id} left"` was published. The chat lines it publishes on the rest of its
trace come after the left notice. So the model does not claim that every chat
line precedes "left".

Behaviour of the code that the model keeps:

- `handle_socket` never calls `check_username`. A session does not register its
  id, and no identity conflict is raised on connect. It only removes the id at
  the end, even when a different session had registered that name. This is
  unlike a design in which each session registers its id on connect and a
  duplicate id is refused with an identity conflict. The model follows the
  code.
- `check_username` reports success only by appending the name to the caller's
  string. An accepted empty name therefore leaves no trace (`CheckSignal`).
- Messages on the channel are flat strings with no structured sender or room.
  For any ids `a` and `b`, the chat line of `a` with text `b + " left"` equals the
  departure notice of the user `a + ": " + b` (`FlatTextIsAmbiguous`).
  Another session's chat line can be recovered only when its sender is known.
- The ingest loop ignores the outcome of `tx.send`. The deliver loop stops on
  every receive error, `Lagged` included. It does not skip ahead.
- Rooms, the room registry and the external message bus are not implemented in
  the code, so they are not modelled.

## Model

| member | source | states |
|---|---|---|
| `Messages.ChatTextOf` | src/main.rs:115 | a text it reads out of a line is one whose chat line for that sender is exactly the line |
| `Messages.ChatTextOfChatLine` | src/main.rs:115 | reading the text back from `"{id}: {text}"` yields `text`: the chat format is invertible for a known sender |
| `Messages.ChatLineInjective` | src/main.rs:115 | two chat lines of one sender are equal only when their texts are |
| `Messages.BookendsAreNotChat` | src/main.rs:97-126 | for one sender, neither `"{id} joined."` nor `"{id} left"` reads as a chat line, and the two notices differ |
| `Messages.FlatTextIsAmbiguous` | src/main.rs:115-126 | for all `a`, `b`: user `a` saying `b + " left"` publishes the same text as user `a + ": " + b` leaving |
| `Presence.CheckAbsent` | src/main.rs:85-88 | on an absent name the set becomes the old set plus the name and the string gets the name appended |
| `Presence.CheckPresent` | src/main.rs:85 | on a name already in the set, neither the set nor the string changes |
| `Presence.CheckOnlyAddsName` | src/main.rs:82-90 | no name is removed, at most one is added, the name is present afterwards, every other name's membership is unchanged |
| `Presence.CheckTwice` | src/main.rs:85-86 | a second call with the same name changes neither the set nor the string |
| `Presence.CheckSignal` | src/main.rs:85-88 | the string changes if and only if the name was absent and is not empty |
| `Presence.SameNameAcceptedOnce` | src/main.rs:82-90 | of two calls in a row with one name, the second never inserts, and the first inserts if and only if the name was absent |
| `Presence.RemoveOnlyName` | src/main.rs:130 | after removal the name is absent, all other names are unchanged, and removing an absent name is a no-op |
| `Presence.RemoveUndoesCheck` | src/main.rs:130 | removal undoes a successful `check_username`, and removing twice is removing once |
| `Ingest.IngestedCharacterised` | src/main.rs:113-116 | the loop publishes exactly `"{id}: {text}"` for each event of the leading run of text messages, in input order; it stops at the first `None`, error or non-text event with that reason, or is still awaiting when the trace holds only text |
| `Ingest.IngestedConcat` | src/main.rs:113-116 | running the loop on `a + b` is running it on `a` and then, only if it is still awaiting, on `b` |
| `Ingest.IngestedStopsForGood` | src/main.rs:113 | once the loop has stopped, no later event changes what it published |
| `Deliver.DeliveredCharacterised` | src/main.rs:102-106 | the messages written are the received ones in order, each with a successful send; the loop stops at the first receive error (lag included) or the first failed send, otherwise it is waiting |
| `Deliver.DeliveredStopsForGood` | src/main.rs:102-105 | once the loop has stopped, nothing later in either trace is sent |
| `Deliver.DeliverLoop` | src/main.rs:101-107 | the `while let` loop writes and stops exactly as `Delivered` says |
| `Session.SessionLogShape` | src/main.rs:97-128 | a session publishes its joined notice first, then exactly the ingest loop's lines in order, with the left notice placed among them |
| `Session.SessionLogIngestFirst` | src/main.rs:120-128 | when the ingest task ends first, every chat line precedes the left notice |
| `Session.SessionLogBookends` | src/main.rs:97-128 | the joined notice is published first, and each notice is published exactly once |
| `Session.NoticesAreNotLines` | src/main.rs:97-126 | none of a session's chat lines is its joined or left notice |
| `Session.AppState.constructor` | src/main.rs:29-32 | the user set starts empty, nothing has been published and the log of removals is empty |
| `Session.AppState.Publish` | src/main.rs:99 | `tx.send` appends the text to the channel's sequence; its outcome is ignored |
| `Session.AppState.CheckUsername` | src/main.rs:82-90 | inserts an absent name and appends it to the caller's string; otherwise changes nothing |
| `Session.AppState.RemoveUser` | src/main.rs:130 | removes the name from the user set and appends to the removal log the texts published by then and the set as it was before |
| `Session.AppState.RecvTask` | src/main.rs:112-117 | the ingest loop publishes, line by line, exactly `Ingested`'s lines, and stops for `Ingested`'s reason |
| `Session.AppState.HandleSocket` | src/main.rs:92-131 | publishes the joined notice, the chat lines and the left notice as `SessionLog` orders them; removes the id exactly once, right after the left notice: the one entry it adds to `removals` holds the texts published by then (the old ones, the joined notice, the chat lines before "left" and the left notice) and the user set as it was at the start, untouched until then; the user set ends as `Remove(old, id)`; the client receives what `Delivered` writes |

## Left out

- HTTP and WebSocket upgrade, TCP listening and header parsing (src/main.rs:26-47, 58-80) are I/O. The hard-coded id `"userId123"` is taken as the `userId` parameter.
- `auth_user` (src/main.rs:49-51) is a constant stub and is not modelled.
- `tokio::spawn`, `tokio::select!` and `abort` are concurrency. The choice of the select is the `Schedule` parameter. An aborted task's progress is the length of its trace.
- Session.AppState.HandleSocket: the single removal of the id follows the left notice directly (`removals`). Lines the aborted ingest task publishes after "left" are placed after the removal. In the code they may also come between the left notice and the removal, and the model does not capture that interleaving. The deliver task's writes are not ordered against the channel's texts.
- Echo is not modelled: the model does not relate `recvs` to `published`. In the code a session subscribes (src/main.rs:95) before it publishes its joined notice (src/main.rs:99), and all sessions share one channel. So a user receives their own joined notice and chat lines (src/main.rs:115) back, and the code's echo policy is "echo".
- The broadcast channel's semantics are library behaviour: capacity 100, lagging, fan-out to several subscribers, and `send` failing with no receivers. Receive results and send outcomes are inputs, and `published` records every text handed to `tx.send`.
- The `Mutex` around the user set is not modelled. The set is plain sequential state.
- `println!` logging is not modelled.
- `src/consumer.rs` is Kafka client configuration over a foreign library, and it is incomplete, so it is not part of this model.
- `src/rooms.rs` only declares two map fields and has no operations, so it is not part of this model.
- The frame of a WebSocket close message is not modelled: `Close` carries no data. `Binary`, `Ping` and `Pong` keep their payload bytes.
