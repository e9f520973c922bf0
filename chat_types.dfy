/** The values the chat server handles: colours, message records, the envelopes it
    sends, and the per-connection state each `request` callback keeps in its closure. */
module ChatTypes {

  datatype Option<T> = None | Some(value: T)

  /** A connection, by the order in which the server accepted it (0, 1, 2, ...). */
  type ConnId = nat

  /** The identity colours of the literal list the pool starts from. */
  datatype Color = Red | Green | Blue | Magenta | Purple | Plum | Orange

  /** The recent-message buffer keeps at most this many records. */
  const MaxHistory: nat := 100

  /** One chat message as stored in the history and broadcast; `color` is `None`
      when its author drew `undefined` from an exhausted pool. */
  datatype Record = Record(time: int, text: string, author: string, color: Option<Color>)

  /** The `{type, data}` objects the server sends, before serialisation. */
  datatype Envelope =
    | History(records: seq<Record>)
    | ColorMsg(color: Option<Color>)
    | Message(record: Record)

  /** One `sendUTF` call: which connection, and what it is sent. */
  datatype Send = Send(to: ConnId, envelope: Envelope)

  /** `userColor`: `false` until the first text frame, then whatever `colors.shift()`
      returned, which is `undefined` when the pool was empty. */
  datatype ColorSlot = Unset | Taken(taken: Option<Color>)

  /** The closure state of one connection: the roster index captured at connect,
      `userName` (`None` for `false`), `userColor`, and whether the transport has
      reported the close yet. */
  datatype Conn = Conn(index: nat, name: Option<string>, color: ColorSlot, open: bool)
}
