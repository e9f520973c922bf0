/** The connection logic of the chat server: the `request` callback's connect step
    and its `message` and `close` handlers, over the three shared arrays `history`,
    `clients` and `colors`.  Node runs the callbacks one at a time, so each handler
    is one method of a single server object; the closure variables of every
    connection are kept in `conns`, indexed by connection. */
module Server {
  import opened ChatTypes
  import opened ColorPool
  import opened JsArray
  import opened Html

  /** The sends of one broadcast: `envelope` to every roster entry, in roster order. */
  function Broadcast(roster: seq<ConnId>, envelope: Envelope): (r: seq<Send>)
    ensures |r| == |roster|
    ensures forall k :: 0 <= k < |r| ==> r[k] == Send(roster[k], envelope)
  {
    if roster == [] then []
    else Broadcast(roster[..|roster| - 1], envelope) + [Send(roster[|roster| - 1], envelope)]
  }

  /** How many of `sends` go to connection `id`. */
  function Deliveries(sends: seq<Send>, id: ConnId): nat
  {
    if sends == [] then 0 else (if sends[0].to == id then 1 else 0) + Deliveries(sends[1..], id)
  }

  /** A broadcast reaches each connection as many times as it occurs in the roster. */
  lemma {:induction false} DeliveriesBroadcast(roster: seq<ConnId>, envelope: Envelope, id: ConnId)
    ensures Deliveries(Broadcast(roster, envelope), id) == Count(roster, id)
  {
    if roster != [] {
      var b := Broadcast(roster, envelope);
      assert b[1..] == Broadcast(roster[1..], envelope);
      DeliveriesBroadcast(roster[1..], envelope, id);
    }
  }

  /** Over a roster without duplicates a broadcast is delivered exactly once to every
      connection in the roster and never to any other. */
  lemma BroadcastExactlyOnce(roster: seq<ConnId>, envelope: Envelope, id: ConnId)
    requires Distinct(roster)
    ensures Deliveries(Broadcast(roster, envelope), id) == if id in roster then 1 else 0
  {
    DeliveriesBroadcast(roster, envelope, id);
    DistinctCount(roster, id);
  }

  /** The loop `for (i = 0; i < clients.length; i++) clients[i].sendUTF(json)`. */
  method FanOut(roster: seq<ConnId>, envelope: Envelope) returns (sends: seq<Send>)
    ensures sends == Broadcast(roster, envelope)
  {
    sends := [];
    var i := 0;
    while i < |roster|
      invariant 0 <= i <= |roster|
      invariant sends == Broadcast(roster[..i], envelope)
    {
      assert roster[..i + 1][..i] == roster[..i];
      sends := sends + [Send(roster[i], envelope)];
      i := i + 1;
    }
    assert roster[..i] == roster;
  }

  /** Every roster entry is an accepted connection, and none occurs twice. */
  predicate RosterOk(clients: seq<ConnId>, accepted: nat)
  {
    Distinct(clients) && forall k :: 0 <= k < |clients| ==> clients[k] < accepted
  }

  /** `userName` and `userColor` are set together, by the first text frame. */
  predicate NamedWithColor(conns: seq<Conn>)
  {
    forall id :: 0 <= id < |conns| ==> (conns[id].name.Some? <==> conns[id].color.Taken?)
  }

  /** The invariant of the shared state: the history is bounded, the roster holds
      each accepted connection at most once, a connection's name and colour are set
      together, and every colour is either in the pool or held by exactly one open
      connection. */
  predicate Inv(history: seq<Record>, clients: seq<ConnId>, colors: seq<Option<Color>>, conns: seq<Conn>)
  {
    && |history| <= MaxHistory
    && RosterOk(clients, |conns|)
    && NamedWithColor(conns)
    && Conserved(colors, conns)
  }

  /** Accepting a connection keeps the invariant. */
  lemma ConnectPreserves(history: seq<Record>, clients: seq<ConnId>, colors: seq<Option<Color>>, conns: seq<Conn>)
    requires Inv(history, clients, colors, conns)
    ensures Inv(history, clients + [|conns|], colors, conns + [Conn(|clients|, None, Unset, true)])
    ensures Defined(colors, conns) ==> Defined(colors, conns + [Conn(|clients|, None, Unset, true)])
  {
    var c := Conn(|clients|, None, Unset, true);
    assert |conns| !in clients;
    AppendDistinct(clients, |conns|);
    assert (conns + [c])[|conns|] == c;
    forall x: Color ensures AvailCount(colors, x) + HeldCount(conns + [c], x) == 1 {
      assert AvailCount(colors, x) + HeldCount(conns, x) == 1;
      HeldAppend(conns, c, x);
    }
  }

  /** The first text frame of an open connection moves the front of the pool to that
      connection, and the invariant is kept. */
  lemma IdentifyPreserves(history: seq<Record>, clients: seq<ConnId>, colors: seq<Option<Color>>,
                          conns: seq<Conn>, id: ConnId, name: string)
    requires Inv(history, clients, colors, conns)
    requires id < |conns| && conns[id].open && conns[id].name.None?
    ensures Inv(history, clients, Take(colors).1,
                conns[id := conns[id].(name := Some(name), color := Taken(Take(colors).0))])
    ensures Defined(colors, conns) && colors != [] ==>
      Defined(Take(colors).1, conns[id := conns[id].(name := Some(name), color := Taken(Take(colors).0))])
  {
    var c := conns[id].(name := Some(name), color := Taken(Take(colors).0));
    assert conns[id].color == Unset;
    forall x: Color ensures AvailCount(Take(colors).1, x) + HeldCount(conns[id := c], x) == 1 {
      assert AvailCount(colors, x) + HeldCount(conns, x) == 1;
      AvailTake(colors, x);
      HeldUpdate(conns, id, c, x);
    }
  }

  /** A chat message only touches the history, which push-and-trim keeps bounded. */
  lemma ChatPreserves(history: seq<Record>, clients: seq<ConnId>, colors: seq<Option<Color>>,
                      conns: seq<Conn>, rec: Record)
    requires Inv(history, clients, colors, conns)
    ensures Inv(SliceLast(history + [rec], MaxHistory), clients, colors, conns)
  {
    AppendBounded(history, rec, MaxHistory);
  }

  /** Closing an open connection keeps the invariant: an identified connection
      splices the roster and hands its colour back, an unnamed one changes only its
      own state. */
  lemma ClosePreserves(history: seq<Record>, clients: seq<ConnId>, colors: seq<Option<Color>>,
                       conns: seq<Conn>, id: ConnId)
    requires Inv(history, clients, colors, conns)
    requires id < |conns| && conns[id].open
    ensures var c := conns[id];
      if c.name.Some? && c.color.Taken? then
        Inv(history, Splice(clients, c.index), colors + [c.color.taken], conns[id := c.(open := false)])
      else
        Inv(history, clients, colors, conns[id := c.(open := false)])
    ensures var c := conns[id];
      Defined(colors, conns) ==>
        if c.name.Some? && c.color.Taken? then
          Defined(colors + [c.color.taken], conns[id := c.(open := false)])
        else
          Defined(colors, conns[id := c.(open := false)])
  {
    var c := conns[id];
    SpliceDistinct(clients, c.index);
    CloseConserves(colors, conns, id);
  }

  /** Closing an identified connection returns exactly the colour it held; closing an
      unnamed one leaves every colour count as it was. */
  lemma CloseConserves(colors: seq<Option<Color>>, conns: seq<Conn>, id: ConnId)
    requires id < |conns| && conns[id].open
    requires NamedWithColor(conns) && Conserved(colors, conns)
    ensures var c := conns[id];
      && (c.color.Taken? ==> Conserved(colors + [c.color.taken], conns[id := c.(open := false)]))
      && (c.color.Unset? ==> Conserved(colors, conns[id := c.(open := false)]))
  {
    var c := conns[id];
    var closed := conns[id := c.(open := false)];
    forall x: Color
      ensures c.color.Taken? ==> AvailCount(colors + [c.color.taken], x) + HeldCount(closed, x) == 1
      ensures c.color.Unset? ==> AvailCount(colors, x) + HeldCount(closed, x) == 1
    {
      assert AvailCount(colors, x) + HeldCount(conns, x) == 1;
      HeldUpdate(conns, id, c.(open := false), x);
      if c.color.Taken? {
        AvailAppend(colors, [c.color.taken], x);
        assert [c.color.taken][..0] == [];
      }
    }
  }

  class ChatServer {
    /** The latest messages, oldest first. */
    var history: seq<Record>
    /** The roster the broadcast loop walks. */
    var clients: seq<ConnId>
    /** The pool of colours not yet handed out. */
    var colors: seq<Option<Color>>
    /** The closure state of every connection accepted so far. */
    var conns: seq<Conn>
    /** Whether some connection has sent its name while the pool was empty, and so
        drew `undefined`. */
    ghost var exhausted: bool

    /** The invariant, and until the pool has run dry, no `undefined` anywhere. */
    ghost predicate Valid()
      reads this
    {
      Inv(history, clients, colors, conns) && (!exhausted ==> Defined(colors, conns))
    }

    /** Until a name frame finds the pool empty, the pool and the colours held by
        open connections are exactly the seven starting colours, so the pool has
        seven entries less one per colour held. */
    lemma PoolIsPalette()
      requires Valid() && !exhausted
      ensures PoolColors(colors) + HeldColors(conns) == Palette()
      ensures None !in colors && |colors| + |HeldColors(conns)| == 7
    {
      ConservedPalette(colors, conns);
      PoolSize(colors, conns);
    }

    /** Module start-up: empty history and roster, and the pool in the order the
        shuffle left the colour list in. */
    constructor (shuffled: seq<Color>)
      requires multiset(shuffled) == Palette()
      ensures Valid()
      ensures history == [] && clients == [] && conns == []
      ensures colors == Lift(shuffled)
      ensures !exhausted
    {
      forall x: Color ensures AvailCount(Lift(shuffled), x) + HeldCount([], x) == 1 {
        AvailLift(shuffled, x);
        PaletteOnce(x);
      }
      history := [];
      clients := [];
      colors := Lift(shuffled);
      conns := [];
      exhausted := false;
    }

    /** A connection is accepted: it joins the end of the roster, remembers its
        roster index, and is sent the history when there is any. */
    method Connect() returns (id: ConnId, sends: seq<Send>)
      requires Valid()
      modifies this
      ensures Valid()
      ensures id == |old(conns)|
      ensures conns == old(conns) + [Conn(|old(clients)|, None, Unset, true)]
      ensures clients == old(clients) + [id]
      ensures history == old(history) && colors == old(colors)
      ensures exhausted == old(exhausted)
      ensures sends == if history == [] then [] else [Send(id, History(history))]
    {
      ConnectPreserves(history, clients, colors, conns);
      id := |conns|;
      clients := clients + [id];
      var index := |clients| - 1;
      conns := conns + [Conn(index, None, Unset, true)];
      sends := [];
      if |history| > 0 {
        sends := [Send(id, History(history))];
      }
    }

    /** A frame arrives on an open connection.  Frames that are not text are dropped.
        The first text frame is the user's name: it takes the colour at the front of
        the pool (`None` when the pool is empty) and sends it back.  Every later text
        frame becomes a record that is appended to the history and broadcast to the
        whole roster. */
    method OnMessage(id: ConnId, isText: bool, data: string, now: int) returns (sends: seq<Send>)
      requires Valid() && id < |conns| && conns[id].open
      modifies this
      ensures Valid()
      ensures !isText ==> sends == [] && unchanged(this)
      ensures exhausted == (old(exhausted) || (isText && old(conns[id].name).None? && old(colors) == []))
      ensures isText && old(conns[id].name).None? ==>
        && conns == old(conns)[id := old(conns[id]).(name := Some(HtmlEntities(data)),
                                                     color := Taken(Take(old(colors)).0))]
        && colors == Take(old(colors)).1
        && sends == [Send(id, ColorMsg(Take(old(colors)).0))]
        && history == old(history) && clients == old(clients)
      ensures isText && old(conns[id].name).Some? ==>
        var rec := Record(now, HtmlEntities(data), old(conns[id].name.value), old(conns[id].color.taken));
        && history == SliceLast(old(history) + [rec], MaxHistory)
        && sends == Broadcast(old(clients), Message(rec))
        && conns == old(conns) && clients == old(clients) && colors == old(colors)
    {
      sends := [];
      if isText {
        var c := conns[id];
        if c.name.None? {
          var name := HtmlEntities(data);
          IdentifyPreserves(history, clients, colors, conns, id, name);
          var (color, rest) := Take(colors);
          conns := conns[id := c.(name := Some(name), color := Taken(color))];
          exhausted := exhausted || colors == [];
          colors := rest;
          sends := [Send(id, ColorMsg(color))];
        } else {
          var rec := Record(now, HtmlEntities(data), c.name.value, c.color.taken);
          ChatPreserves(history, clients, colors, conns, rec);
          history := history + [rec];
          history := SliceLast(history, MaxHistory);
          sends := FanOut(clients, Message(rec));
        }
      }
    }

    /** The transport reports that a connection closed.  An identified connection
        removes the roster entry at the index it captured when it connected (whoever
        is there now, or nothing when the index is past the end) and returns its
        colour to the end of the pool; a connection that never sent a name changes
        nothing and stays in the roster. */
    method OnClose(id: ConnId)
      requires Valid() && id < |conns| && conns[id].open
      modifies this
      ensures Valid()
      ensures conns == old(conns)[id := old(conns[id]).(open := false)]
      ensures history == old(history) && exhausted == old(exhausted)
      ensures var c := old(conns[id]);
        if c.name.Some? && c.color.Taken? then
          clients == Splice(old(clients), c.index) && colors == old(colors) + [c.color.taken]
        else
          clients == old(clients) && colors == old(colors)
    {
      ClosePreserves(history, clients, colors, conns, id);
      var c := conns[id];
      if c.name.Some? && c.color.Taken? {
        clients := Splice(clients, c.index);
        colors := colors + [c.color.taken];
      }
      conns := conns[id := c.(open := false)];
    }
  }
}
