/**
 * The websocket transport as the server sees it. A client connection is
 * identified by an id; per id the transport keeps whether the socket is open
 * (its `readyState` being OPEN) and the log of the payloads sent on it.
 */
module Transport {
  import opened Wrappers
  import opened Positional

  /** The price as the server publishes it: the ticker's symbol and its USD quote (kept as its JSON text). */
  datatype PriceRecord = PriceRecord(symbol: string, usd: string)

  /** What `ws.send` carries: the last price (`null` before the first quote) or an address event. */
  datatype Payload =
    | Price(price: Option<PriceRecord>)
    | AddressEvent(address: string)

  type ConnId = nat

  /** A client's socket: open or not, and what has been sent on it. */
  datatype Socket = Socket(open: bool, sent: seq<Payload>)

  type Sockets = map<ConnId, Socket>

  /** `s` with `more` sent after its log. */
  function WithSent(s: Socket, more: seq<Payload>): Socket
  {
    s.(sent := s.sent + more)
  }

  /** The ids of the open sockets. */
  function Live(sockets: Sockets): set<ConnId>
  {
    set id | id in sockets && sockets[id].open
  }

  /** The websocket transport: the sockets of every client, by id. */
  class Network {
    var sockets: Sockets

    /** `ws.send`: the payload goes at the end of the socket's log. */
    method Send(id: ConnId, p: Payload)
      requires id in sockets
      modifies this
      ensures sockets == old(sockets)[id := WithSent(old(sockets)[id], [p])]
    {
      sockets := sockets[id := WithSent(sockets[id], [p])];
    }
  }

  /** Sending keeps every socket and its open flag. */
  lemma LiveAfterSend(sockets: Sockets, id: ConnId, more: seq<Payload>)
    requires id in sockets
    ensures Live(sockets[id := WithSent(sockets[id], more)]) == Live(sockets)
  {
  }

  /** A run of copies of `x` holds `n` of `x` and nothing else. */
  lemma {:induction false} RepeatCount<T>(x: T, n: nat, y: T)
    ensures multiset(Repeat(x, n))[y] == if x == y then n else 0
  {
    if n > 0 {
      RepeatCount(x, n - 1, y);
      assert Repeat(x, n) == Repeat(x, n - 1) + [x];
    }
  }
}
