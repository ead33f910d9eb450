# Socket-mode session handling, modelled in Dafny

This project models the socket-mode client in `src/main.rs`. The client asks
apps.connections.open for a one-time websocket URL, connects to it, and then
reads frames in a loop. It acknowledges every events_api envelope on the same
socket. It stops on a disconnect request, at the end of the stream, or by
panicking on a frame that fails to decode.

Three modules:

- `Messages` (`messages.dfy`): the classified socket-mode message
  (`Hello`, `Disconnect(reason)`, `EventsApi(envelope_id)`, plus
  `Unrecognized` for every text frame that does not decode). It also holds the
  acknowledgement `AckMessage(envelopeId, payload)` and its JSON form
  (`Serialize`). The form has the fields in declaration order, no whitespace,
  serde_json's string escaping, and no `payload` member at all when the
  payload is `None`. `ParseAck` reads that form back and is its proved
  inverse.
- `Bootstrap` (`bootstrap.dfy`): the check of the apps.connections.open
  response (`CheckDescriptor`) and the panic text a failed check ends with.
- `Dispatch` (`dispatch.dfy`): the inbound stream as a finite `seq<Inbound>`.
  An item is a frame (`Text` with its classified message, `Ping`, or
  `OtherFrame`) or a websocket `DecodeError`. `React` is the per-item match.
  `Session` is the specification of the whole loop: the outbox of
  acknowledgements, how the loop ended, and how many items it pulled.
  `RunSession` is the loop itself, a `while` over the items with `break`,
  proved equal to `Session`. `StopIndex` and `EventIds` are an independent
  description of what the loop must do. `SessionReference` proves the two
  agree on every input.

Each acknowledgement in the outbox is sent as one text frame carrying
`Serialize(ack)`.

## Model

| member | source | states |
|---|---|---|
| Bootstrap.CheckDescriptor | src/main.rs:43-49 | A response with ok == false aborts with its error text, or "Unknown error" when error is absent, whatever url it holds. ok == true without a url aborts with NoUrl. A URL is produced if and only if ok holds and url is present, and it is exactly that url. |
| Bootstrap.NotOkSurfacesError | src/main.rs:43-48 | A not-ok response never leads to a connection. Its panic message is "app.connections.open failed: " followed by the server's error text, or by "Unknown error". |
| Bootstrap.DescriptorIgnoresIrrelevantFields | src/main.rs:43-49 | When ok is false the url field cannot change the outcome. When ok is true the error field cannot change it. |
| Bootstrap.InvalidAuthExample | src/main.rs:43-48 | {ok: false, error: "invalid_auth"} aborts before any connection, with the message "app.connections.open failed: invalid_auth". |
| Messages.AckRoundTrip | src/main.rs:29-34 | Every acknowledgement is read back exactly from its serialised form. An absent payload is therefore never written as null or as an empty string. |
| Messages.AckWithoutPayload | src/main.rs:32-33 | An acknowledgement with payload None serialises as {"envelope_id":"<id>"} only; the payload key is omitted. The lemma covers ids without characters that need escaping. These are all the ids the loop acknowledges, because the message type borrows envelope_id from the frame text, and serde_json cannot borrow a string that holds an escape. |
| Messages.AckExample | src/main.rs:29-34 | The acknowledgement for envelope "abc123" serialises to exactly {"envelope_id":"abc123"}. |
| Dispatch.React | src/main.rs:63-92 | An item stops the loop if and only if it is a decode error or a Disconnect. It produces a reply if and only if it is an EventsApi message, and the reply echoes its envelope id with no payload. A decode error ends the loop as DecodeFailed; a Disconnect ends it with its reason. |
| Dispatch.Session | src/main.rs:62-94 | The loop never pulls more items than the stream holds. It ends with the stream exactly when it pulled every item and the last one was not terminating. Otherwise the last item it pulled is a terminating one. |
| Dispatch.SessionReference | src/main.rs:62-94 | For every stream, the outbox holds one acknowledgement per events_api item before the first terminating item, in order, with that item's id and no payload. The loop ends at that first terminating item (consumed = index + 1), or with the stream when there is none. |
| Dispatch.AcksMatchEvents | src/main.rs:72-83 | The outbox is exactly the acknowledgements of the processed events_api items, in stream order: none is added, dropped or reordered. |
| Dispatch.CompleteRun | src/main.rs:62 | With no Disconnect and no decode error, the loop consumes the whole stream, ends with it, and sends one acknowledgement per events_api item. |
| Dispatch.DisconnectStops | src/main.rs:68-71 | At the first Disconnect the loop ends with its reason after pulling exactly up to it. Only the envelopes before it are acknowledged. |
| Dispatch.DecodeErrorAborts | src/main.rs:63 | At the first item that fails to decode the session aborts. The acknowledgements already sent stay sent, and nothing after that item is processed. |
| Dispatch.StoppedIgnoresSuffix | src/main.rs:68-71 | Once the loop has stopped within a prefix of the stream, nothing after that prefix changes the outcome. |
| Dispatch.SessionAppend | src/main.rs:62-94 | Over a stretch with no terminating item, the session is that stretch followed by the rest. The outboxes concatenate, and the consumed counts add up. |
| Dispatch.QuietFrames | src/main.rs:64-92 | A Hello, an unrecognised text frame, a Ping or any other frame leaves the outbox unchanged and does not end the loop. The session goes on as if the frame had not been there. |
| Dispatch.EventAcknowledged | src/main.rs:72-83 | An events_api frame with id E puts exactly one acknowledgement, for E with no payload, before everything the rest of the stream produces. |
| Dispatch.RunSession | src/main.rs:62-94 | The `while let` loop with `break` computes exactly Session. Its outbox matches the events_api items before the first terminating item. It pulls up to and including that item, or the whole stream. |

## Left out

- open_connections (src/main.rs:11-19): the HTTP POST is I/O. Its decoded response is the input of `CheckDescriptor`, and a failed request (a panic) is not modelled.
- Reading SLACK_APP_TOKEN from the environment (src/main.rs:38): process I/O.
- URL parsing, domain extraction, the TCP connection, the TLS handshake and the websocket upgrade (src/main.rs:50-61): these are done by the url, async_std, async_tls and async_tungstenite crates. Their failures all panic before the loop starts.
- JSON decoding of text frames (serde's `type`-tagged, snake_case enum, src/main.rs:21-27): only its outcome is modelled, as an already classified `SocketModeMessage`. `Unrecognized` stands for every decoding error. This includes a `reason` or `envelope_id` that holds a JSON escape or a raw control character, since those fields are borrowed from the frame text (src/main.rs:25-26).
- Sending an acknowledgement may fail, and that failure panics (src/main.rs:80-83). The send is I/O, and the model treats every send as successful. Serialising the acknowledgement cannot fail for string fields.
- The `println!` logging, and the raw text and ping bytes that are only logged.
- async/await: it only sequences the steps, so there is no concurrency to model.
- The stream is unbounded in the source. The model takes it as a finite sequence, where the end of the sequence is the end of the stream.
- `ParseAck` reads only the form `Serialize` writes, not arbitrary JSON. It exists as the partner that shows `Serialize` loses nothing.
