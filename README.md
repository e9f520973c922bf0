# node-chat connection logic, in Dafny

This project models the per-connection event logic of a small WebSocket chat
server (`src/backend/server.js`). The server keeps three shared arrays:

- `history`: the latest messages, at most 100 of them.
- `clients`: the roster of connections that broadcasts go to.
- `colors`: the pool of identity colours, shuffled at start-up.

Three events drive each connection:

- **Connect.** The connection is pushed onto the roster. It remembers the index
  it got, and it is sent the history when there is any.
- **Message.** A non-text frame is dropped. The first text frame is the user's
  name: it is escaped, a colour is shifted off the pool, and that colour is sent
  back. Every later text frame becomes a record. The record is appended to the
  history, the history is trimmed to 100, and the record is sent to every roster
  entry in order.
- **Close.** An identified connection splices out the roster entry at the index
  it captured, then pushes its colour back onto the pool.

Node runs these callbacks one at a time. The model is therefore one class,
`Server.ChatServer`, with one method per event. Each method returns the list of
sends it makes. The closure variables of each connection (`index`, `userName`,
`userColor`) live in the field `conns`. A connection is identified by the order
in which it was accepted.

The escaper `htmlEntities` is the function `Html.HtmlEntities`. It is written as
the same chain of four global replaces. It is proved equal to a one-pass escape,
safe for display, and invertible.

Files:

- `chat_types.dfy` holds the shared values: colours, records, envelopes, sends
  and per-connection state.
- `html.dfy` holds the escaper.
- `js_array.dfy` holds the array operations `slice(-n)` and `splice(i, 1)`.
- `color_pool.dfy` holds the colour accounting.
- `server.dfy` holds the broadcast loop, the invariant and the server class.

The model keeps the behaviour of the code as written:

- **Stale index.** The roster index is captured once, at connect. After an
  earlier entry is spliced out, that index can name another connection or lie
  past the end. Past the end, `splice` does nothing.
- **Unnamed connections stay.** A connection that closes before sending a name
  is never removed from the roster. Later broadcasts still go to it.
- **Empty pool.** When the pool is empty, `colors.shift()` returns `undefined`.
  The connection still counts as identified. It is sent a `color` envelope with
  no colour, its records carry no colour, and on close it pushes `undefined` back
  onto the pool. In the model that colour is `None`. An exhausted pool is not
  reported as an error.
- **No second-close guard.** Nothing in the close handler stops a second close
  from splicing and pushing again. The model takes as given that the transport
  reports a close once per connection.

Colour conservation holds in two strengths:

- For real colours, always. `undefined` entries carry no colour. Each of the
  seven colours of the literal list is at every moment either in the pool or
  held by an open, identified connection, and exactly once. This holds even
  after a connection has identified on an empty pool. So no colour is held
  twice, and no held colour is also in the pool.
- Exactly, until a name frame finds the pool empty. Until then there is no
  `undefined` anywhere. The pool plus the held colours are exactly the seven
  starting colours, and the pool has seven entries less one per held colour.
  The ghost field `exhausted` of `Server.ChatServer` records whether that has
  happened.

Once a connection holding `undefined` closes, `colors.push` puts `undefined`
back at the end of the pool (src/backend/server.js:76). A later `shift`
(src/backend/server.js:47) then hands `undefined` to a new connection when that
entry reaches the front, even while real colours still sit behind it.

## Model

| member | source | states |
|---|---|---|
| Html.ReplaceAll | src/backend/server.js:83-84 | one `replace(/c/g, rep)`: a string without `c` is returned unchanged; if `rep` has no `c`, the result has none; every other character of the result comes from the input |
| Html.HtmlEntitiesConcat | src/backend/server.js:81-85 | the chained replaces escape a prefix and the rest of a string separately |
| Html.HtmlEntitiesIsEscape | src/backend/server.js:81-85 | because `&` is replaced first, the chain equals a one-pass escape of each character, so no entity is escaped twice |
| Html.HtmlEntitiesSafe | src/backend/server.js:81-85 | `htmlEntities` is total; its output has no raw `<`, `>` or `"`, and every `&` in it begins `&amp;`, `&lt;`, `&gt;` or `&quot;` |
| Html.HtmlEntitiesIdentity | src/backend/server.js:81-85 | a string with none of `&`, `<`, `>`, `"` is returned unchanged |
| Html.UnescapeEscape | src/backend/server.js:81-85 | the one-pass escape loses nothing: unescaping its output gives back the input |
| Html.HtmlEntitiesInvertible | src/backend/server.js:81-85 | the text of a name or message can be read back exactly from its escaped form |
| JsArray.SliceLast | src/backend/server.js:62 | `slice(-100)` keeps the last min(100, length) elements, in order |
| JsArray.AppendBounded | src/backend/server.js:61-62 | after push-and-trim, the history has at most 100 records and ends with the new record; below 100 nothing is dropped; at 100 exactly the oldest record is dropped |
| JsArray.Splice | src/backend/server.js:75 | `splice(i, 1)` removes the element at `i` and shifts the rest down by one; past the end it changes nothing |
| JsArray.SpliceDistinct | src/backend/server.js:75 | the splice keeps a roster free of duplicates, and the removed entry no longer occurs |
| JsArray.SpliceMembership | src/backend/server.js:75 | on a duplicate-free roster, an entry leaves if and only if it stands at the spliced index now; the closing connection stays listed when its captured index has gone stale |
| ColorPool.Take | src/backend/server.js:47 | `colors.shift()` gives the front entry and the rest of the pool, or `undefined` and the empty pool when the pool is exhausted |
| ColorPool.AvailTake | src/backend/server.js:47 | the shift removes from the pool exactly one unit of the colour it returns, and nothing else |
| ColorPool.AvailAppend | src/backend/server.js:76 | pushing an entry onto the pool adds one unit of its colour and nothing else |
| ColorPool.AvailLift | src/backend/server.js:22-24 | the shuffled starting pool holds each colour as often as the list it was made from |
| ColorPool.HeldAppend | src/backend/server.js:33-35 | appending a connection adds to each colour's held count exactly that connection's own holding, which is none for a newly accepted one |
| ColorPool.HeldUpdate | src/backend/server.js:46-47 | changing one connection's state changes each colour's held count by exactly that connection's old and new holding |
| ColorPool.NoColorHeldTwice | src/backend/server.js:47 | while the colours are conserved, no two connections hold the same colour |
| ColorPool.ConservedPalette | src/backend/server.js:22-24 | while every colour is in the pool or held exactly once, the real colours of the pool and the colours held by open connections together are exactly the seven colours of the literal list |
| ColorPool.PoolSize | src/backend/server.js:45-48 | when in addition the pool holds no `undefined`, its length plus the number of held colours is seven |
| ColorPool.HeldNotAvailable | src/backend/server.js:76 | while the colours are conserved, a colour held by an open connection is not also in the pool |
| Server.Broadcast | src/backend/server.js:64-67 | a broadcast sends the same `message` envelope to every roster entry, one send per entry, in roster order |
| Server.DeliveriesBroadcast | src/backend/server.js:65-67 | a broadcast reaches each connection as many times as it occurs in the roster |
| Server.BroadcastExactlyOnce | src/backend/server.js:65-67 | over a roster without duplicates, each roster member gets the message exactly once, the sender included when it is listed, and no other connection gets it |
| Server.FanOut | src/backend/server.js:65-67 | the `for` loop over `clients` produces exactly the broadcast sends, in index order |
| Server.ConnectPreserves | src/backend/server.js:33-35 | accepting a connection keeps the invariant: the roster stays duplicate-free and every colour stays either in the pool or held, exactly once; a pool without `undefined` stays without it |
| Server.IdentifyPreserves | src/backend/server.js:45-48 | the first text frame of an open connection moves the front of the pool to that connection and keeps the invariant; when the pool is not empty, no `undefined` enters the pool or the connection |
| Server.ChatPreserves | src/backend/server.js:55-62 | a chat message changes only the history, and push-and-trim keeps it at 100 records or fewer |
| Server.ClosePreserves | src/backend/server.js:72-77 | a close keeps the invariant, whether or not the connection had identified, and even when its captured index is stale; when no `undefined` was anywhere, the returned colour is a real one and none appears |
| Server.CloseConserves | src/backend/server.js:73-76 | closing an identified connection returns exactly the colour it held to the pool; closing an unnamed one changes no colour count |
| Server.ChatServer.constructor | src/backend/server.js:19-24 | the server starts with an empty history and roster and with the shuffled colour list as its pool, no connection has found the pool empty, and the invariant holds |
| Server.ChatServer.Connect | src/backend/server.js:31-40 | the new connection is appended to the roster and captures the old roster length as its index; it alone gets one `history` envelope with the whole history, only when the history is non-empty; history, pool and the `exhausted` flag are unchanged |
| Server.ChatServer.OnMessage | src/backend/server.js:42-70 | a non-text frame changes nothing and sends nothing. A first text frame sets the name to the escaped text and takes the pool's front entry (`None` when empty); it sends one `color` envelope to that connection only, leaves history and roster alone, and later frames never change the name. Every later text frame builds the record `{now, escaped text, name, colour}`; the history becomes the last 100 of old history plus that record, and the same `message` envelope goes once to each roster entry in order. The `exhausted` flag becomes set exactly when a first text frame finds the pool empty. The invariant is kept throughout |
| Server.ChatServer.OnClose | src/backend/server.js:72-78 | an identified connection splices the roster at its captured index (a no-op past the end) and pushes its colour onto the end of the pool; an unnamed one leaves roster and pool unchanged; the history and the `exhausted` flag are untouched and the invariant is kept |
| Server.ChatServer.PoolIsPalette | src/backend/server.js:45-48 | until a name frame has found the pool empty, the pool holds no `undefined`, the pool plus the held colours are exactly the seven starting colours, and the pool has seven entries less one per held colour |

## Left out

- The HTTP server, the WebSocket server, origin handling and `request.accept`
  (src/backend/server.js:3-15, 31) are transport. A connection is an id that
  `Connect` hands out in the order connections are accepted.
- `console.log` and `process.title` are logging only.
- The `Math.random` shuffle (src/backend/server.js:24) is not modelled. The
  constructor takes any permutation of the literal colour list.
- `JSON.stringify` is not modelled. Envelopes are the datatype
  `History | ColorMsg | Message`, not strings. A `color` envelope whose colour is
  `undefined` (`ColorMsg(None)`) stands for the JSON object that omits `data`.
- `new Date().getTime()` is not modelled. The timestamp is the `now` parameter
  of `OnMessage`.
- `sendUTF` is not performed. Each method returns its sends in order, so
  delivery failures on a closed socket are not modelled.
- Concurrency is not modelled. Node runs the callbacks one at a time, and the
  model is the sequence of those calls.
- `String(str)` is the identity, because WebSocket text frames are always
  strings.
- A negative `splice` start never occurs, because the captured index is never
  negative, so it is not modelled.
- Server.ChatServer.OnMessage: requires the connection to be open. The
  transport fires no `message` event after `close`, so a closed connection
  sending a frame is not modelled.
- Server.ChatServer.OnClose: requires the connection to be open. The transport
  fires `close` once per connection, so a second `close` is not modelled.
- Concrete runs of several events with fixed expected sends are not part of the
  model. The stale index, an unnamed connection staying in the roster and the
  empty pool are stated for every input instead: in the contracts of `Connect`,
  `OnMessage` and `OnClose`, and in `JsArray.SpliceMembership`.
