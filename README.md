# Chat consumer and chat models, in Dafny

A model of the core of a small Django Channels chat demo:

- `consumers.dfy` models `ChatConsumer`, the websocket consumer. `connect` accepts the
  handshake unconditionally. `receive` reads the `"message"` value of each decoded
  inbound frame, with `""` when the key is absent. It then sends two frames in order:
  first `{"type": "user", "message": v}`, echoing that value unchanged, and then
  `{"type": "bot", "message": s}`, where `s` is drawn from a fixed four-entry reply
  list. The connection is a class whose `outbox` sequence `Receive` appends to. The
  pure function `Exchange` specifies one call, and `Transcript` specifies a run of
  calls on one connection. The consumer keeps no state between frames, which the
  lemmas about `Transcript` state.
- `models.dfy` models the display strings of the two records. `Message.__str__` gives
  the first 50 characters of the content followed by `"..."`. `Room.__str__` gives the
  name. A validity predicate states the field bounds of `Room`: the name is required
  and has at most 100 characters, and the description may be blank.
- `json_values.dfy` holds the decoded JSON values that frames are made of.

`receive` does not trim the message, does not drop empty messages, persists nothing and
puts no id or timestamp in its frames (chat/consumers.py:11-29), so none of that is
modelled. An empty or absent message is echoed like any other.

## Model

| member | source | states |
|---|---|---|
| Models.MessageToString | chat/models.py:8-9 | the preview has length min(\|content\|, 50) + 3, starts with the first min(\|content\|, 50) characters of the content and always ends with "..." |
| Models.MessageToStringBounded | chat/models.py:9 | a preview is 3 to 53 characters long |
| Models.ShortMessageToString | chat/models.py:9 | content of at most 50 characters is shown whole, followed by "..." |
| Models.LongMessageToString | chat/models.py:9 | content over 50 characters is cut to its first 50, followed by "...", and the result is shorter than content + "..." |
| Models.MessageToStringSeesOnlyHead | chat/models.py:9 | two messages whose contents agree on the first 50 characters have the same preview, whatever their timestamps |
| Models.MessageToStringRecoversPrefix | chat/models.py:9 | removing the trailing "..." gives a prefix of the content, and gives the content itself when it has at most 50 characters |
| Models.RoomToStringShowsName | chat/models.py:16-17 | two rooms display alike exactly when their names are equal, the description never shows, and a valid room displays as 1 to 100 characters |
| Models.ValidRoomCharacterised | chat/models.py:12-14 | defines validity: a room is valid exactly when its name has 1 to 100 characters (required, at most 100); the description, empty or not, does not affect validity |
| Consumers.Exchange | chat/consumers.py:11-29 | receive raises exactly when the text is not JSON or decodes to a non-object. Otherwise it sends exactly two frames, "user" before "bot", each with exactly the keys type and message. The user frame carries the inbound "message" value unchanged, or "" when the key is absent. The bot frame carries the reply at the drawn index of the four-entry list |
| Consumers.MissingMessageEchoesEmpty | chat/consumers.py:13-16 | a frame with no "message" key is not rejected: it is echoed as {"type": "user", "message": ""} |
| Consumers.BotReplyFromCorpus | chat/consumers.py:19-29 | the bot's message is always one of the four replies, and for each of the four some drawn index makes the exchange send it |
| Consumers.BotReplyIgnoresInput | chat/consumers.py:19-29 | for the same drawn index, the bot frame is the same whatever the user sent |
| Consumers.Transcript | chat/consumers.py:11-29 | a connection's frames alternate user, bot, user, bot, and there are at most two per inbound frame |
| Consumers.TranscriptPairs | chat/consumers.py:11-29 | when every inbound frame is handled, the k-th inbound frame produces exactly frames 2k and 2k+1, and these are what that frame alone produces, independent of earlier messages |
| Consumers.TranscriptStopsAtFailure | chat/consumers.py:12-13 | when the j-th inbound frame makes receive raise, the connection has sent exactly the 2j frames of the frames before it |
| Consumers.ChatConsumer.constructor | chat/consumers.py:7 | a new connection is not yet accepted and has sent nothing |
| Consumers.ChatConsumer.Connect | chat/consumers.py:8-9 | connect always accepts and sends no frame |
| Consumers.ChatConsumer.Send | chat/consumers.py:16 | sending appends exactly one frame to the connection's outbound stream |
| Consumers.ChatConsumer.Receive | chat/consumers.py:11-29 | receive's result is Exchange of its input and the drawn index. The outbound stream grows by exactly those frames, or stays the same when receive raises. The accepted state is unchanged |

## Left out

- The 1.5-second `asyncio.sleep` before the bot frame: timing and async scheduling are not modelled. Only the ordering it implies is kept: the echo is sent before the reply.
- `random.choice`: the drawn index is a parameter of `Receive`, constrained to the bounds of the reply list. Uniformity is not modelled.
- `json.loads` and `json.dumps`: frames are exchanged as decoded JSON values, not as text. A payload that is not JSON is the abstract `Undecodable` input. The echo equals the inbound `"message"` value as a decoded value, not as text: how `json.dumps` writes it back (an inbound `1e2` goes out as `100.0`) is not modelled. Floats are modelled as reals, so their precision and the non-standard `NaN` and `Infinity` that Python accepts are not modelled.
- The Channels runtime (`AsyncWebsocketConsumer`, `accept`, `send`, concurrency between connections): `send` is modelled as an append to the connection's outbox, and `accept` as a flag. `Transcript` assumes the runtime ends the connection when `receive` raises, so no later frame is answered.
- What the runtime does with an unaccepted connection: `Receive` does not require `Connect` to have run, because the consumer itself does not check it.
- Strings are sequences of characters. Python slices count code points, and so does the model. No encoding is modelled.
- The `BOT_RESPONSE` list in chat/constants.py: the consumer does not use it. The model uses the list written inside `receive`.
- The `str`/`repr` formats asserted in chat/tests.py:24-35 (such as "Message in Test Room"): chat/models.py does not produce them, so the model follows chat/models.py.
- The timestamp of `Message` is an opaque integer: it is set by Django on first save, and only the listing view and the admin use it, both out of scope.
- Field validation of `Message.content` and the `read_at` column added by the schema migration: no code here uses either.
- chat/views.py (a database query plus template rendering), chat/admin.py, websocket_demo/settings.py and websocket_demo/asgi.py: configuration and wiring with no logic of their own.
