/**
 * The price feed: which clients a price broadcast keeps and what it sends
 * them, and which ticker replies replace the published price.
 */
module PriceFeed {
  import opened Wrappers
  import opened Positional
  import opened Transport

  /** The clients of `cs` whose socket is live, in their order. */
  function OpenOnly(cs: seq<ConnId>, live: set<ConnId>): (r: seq<ConnId>)
    ensures |r| <= |cs|
    ensures forall k :: 0 <= k < |r| ==> r[k] in live
  {
    if cs == [] then [] else (if cs[0] in live then [cs[0]] else []) + OpenOnly(cs[1..], live)
  }

  /** How many copies of the price `id` receives from a broadcast over `cs`: one per entry, if live. */
  function Copies(cs: seq<ConnId>, live: set<ConnId>, id: ConnId): nat
  {
    if id in live then multiset(cs)[id] else 0
  }

  /** A broadcast keeps every entry of a live client, as often as it was listed, and no other. */
  lemma {:induction false} OpenOnlyCounts(cs: seq<ConnId>, live: set<ConnId>, id: ConnId)
    ensures multiset(OpenOnly(cs, live))[id] == Copies(cs, live, id)
  {
    if cs != [] {
      OpenOnlyCounts(cs[1..], live, id);
      assert cs == [cs[0]] + cs[1..];
    }
  }

  /** A list of live clients is kept as it is. */
  lemma {:induction false} OpenOnlyAllLive(cs: seq<ConnId>, live: set<ConnId>)
    requires forall k :: 0 <= k < |cs| ==> cs[k] in live
    ensures OpenOnly(cs, live) == cs
  {
    if cs != [] {
      OpenOnlyAllLive(cs[1..], live);
      assert cs == [cs[0]] + cs[1..];
    }
  }

  /** A second broadcast with the same live sockets drops nothing more. */
  lemma OpenOnlyTwice(cs: seq<ConnId>, live: set<ConnId>)
    ensures OpenOnly(OpenOnly(cs, live), live) == OpenOnly(cs, live)
  {
    OpenOnlyAllLive(OpenOnly(cs, live), live);
  }

  /**
   * The backward loop of broadcastPrice at index `i`: with the entries after
   * `i` filtered and those up to `i` as they were, removing entry `i` when
   * its socket is not live leaves the entries from `i` on filtered. The
   * removal at `i` leaves the unvisited entries before it in place, which is
   * why the source walks the list backwards.
   */
  lemma SpliceStep(clients: seq<ConnId>, i: nat, live: set<ConnId>)
    requires i < |clients|
    ensures clients[i..] == [clients[i]] + clients[i + 1..]
    ensures var cc := clients[..i + 1] + OpenOnly(clients[i + 1..], live);
      i < |cc| && cc[i] == clients[i] &&
      (if clients[i] in live then cc else cc[..i] + cc[i + 1..]) == clients[..i] + OpenOnly(clients[i..], live)
  {
    assert clients[i..] == [clients[i]] + clients[i + 1..];
    assert clients[..i + 1] == clients[..i] + [clients[i]];
  }

  /** The logs of `now` are those of `start` with the prices sent to the clients of `rest` after them. */
  ghost predicate PriceLogs(now: Sockets, start: Sockets, rest: seq<ConnId>, live: set<ConnId>, price: Option<PriceRecord>)
  {
    now.Keys == start.Keys && Live(now) == live &&
    forall id :: id in start ==> now[id] == WithSent(start[id], Repeat(Price(price), Copies(rest, live, id)))
  }

  /** Before the loop nothing is sent. */
  lemma PriceLogsNone(start: Sockets, price: Option<PriceRecord>)
    ensures PriceLogs(start, start, [], Live(start), price)
  {
    forall id | id in start
      ensures start[id] == WithSent(start[id], Repeat(Price(price), 0))
    {
      assert start[id].sent + [] == start[id].sent;
    }
  }

  /** Visiting client `x` sends it the price when its socket is live and nothing otherwise. */
  lemma PriceLogsStep(start: Sockets, live: set<ConnId>, price: Option<PriceRecord>, x: ConnId, rest: seq<ConnId>,
                      now: Sockets, next: Sockets)
    requires PriceLogs(now, start, rest, live, price)
    requires x in live ==> x in now && next == now[x := WithSent(now[x], [Price(price)])]
    requires x !in live ==> next == now
    ensures PriceLogs(next, start, [x] + rest, live, price)
  {
    assert forall id :: multiset([x] + rest)[id] == multiset(rest)[id] + (if id == x then 1 else 0);
    if x in live {
      LiveAfterSend(now, x, [Price(price)]);
      PadStep(start[x].sent, Price(price), Copies(rest, live, x));
    }
  }

  /** The ticker's reply: `None` when it or its `data` is missing. */
  datatype Quote = Quote(name: string, symbol: string, lastUpdated: int, usd: string)

  /** The reply updates the price only when it quotes TRON and carries an update time after zero. */
  predicate Accepted(reply: Option<Quote>)
  {
    reply.Some? && reply.value.name == "TRON" && reply.value.lastUpdated > 0
  }
}
