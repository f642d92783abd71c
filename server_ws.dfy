/**
 * The websocket server: the clients that receive price updates, the alert
 * subscriptions by address and user id, the last published price, and the
 * height of the last processed block with the store file that keeps it.
 * The node's replies, the price ticker's reply and the store file's content
 * are inputs; SHA-256 is a parameter.
 */
module ServerWs {
  import opened Wrappers
  import opened Positional
  import opened Utils
  import opened Transport
  import opened AddressAlerts
  import opened PriceFeed
  import opened BlockScan

  /**
   * An inbound message as JSON.parse leaves it: text that does not parse,
   * a falsy value (`null`, `false`, `0`, `""`), or a value whose `cmd` is
   * a string or absent. `userid` and `address` are the property keys the
   * message's fields become.
   */
  datatype Inbound =
    | Unparsable
    | Falsy
    | Request(cmd: Option<string>, userid: string, address: string)

  /**
   * How a write of the store file ends. `writeFileSync` opens the file
   * for writing, which empties it, and then writes: the write succeeds,
   * fails before the file is opened (it keeps what it held), or fails
   * after (the file is left empty or cut short, text that does not parse).
   */
  datatype WriteOutcome = Written | NotOpened | Emptied

  /** The message asks for alerts. */
  predicate IsStartAlert(event: Inbound)
  {
    event.Request? && event.cmd == Some("START_ALERT")
  }

  class Server {
    /** The last published price; `None` is the source's `null`. */
    var lastPrice: Option<PriceRecord>
    /** The clients that receive price updates, in the order they connected. */
    var connectedClients: seq<ConnId>
    /** Alert subscriptions: address, then user id, then the socket to alert. */
    var alertMap: Subscriptions
    /** `store.block`: the height of the last processed block. */
    var block: int
    /** The store file: the height it holds, or `None` when it is missing or unreadable. */
    var disk: Option<int>

    /**
     * The store file never holds a height past the processed one, so a
     * restart, which resumes from the stored height, never passes over a
     * block that was not processed.
     */
    predicate StoreBehind()
      reads this
    {
      disk.Some? ==> disk.value <= block
    }

    /**
     * The constructor's state before the price and block loops start: no
     * price, no clients, no subscriptions, and the height read from the
     * store file `stored`.
     */
    constructor (stored: Option<int>)
      ensures lastPrice == None && connectedClients == [] && alertMap == map[]
      ensures disk == stored
      ensures block == if stored.Some? then stored.value else -1
      ensures StoreBehind()
    {
      lastPrice := None;
      connectedClients := [];
      alertMap := map[];
      disk := stored;
      new;
      LoadStore();
    }

    /** loadStore: the height the store file holds, or -1 when it cannot be read. */
    method LoadStore()
      modifies this`block
      ensures block == if disk.Some? then disk.value else -1
    {
      match disk
      case Some(height) => block := height;
      case None => block := -1;
    }

    /**
     * saveStore: the store file now holds the current height. `outcome` is
     * the file system's answer; `saved` is false when the write throws.
     */
    method SaveStore(outcome: WriteOutcome) returns (saved: bool)
      modifies this`disk
      ensures saved <==> outcome.Written?
      ensures outcome.Written? ==> disk == Some(block)
      ensures outcome.NotOpened? ==> disk == old(disk)
      ensures outcome.Emptied? ==> disk == None
    {
      match outcome {
        case Written => disk := Some(block);
        case NotOpened =>
        case Emptied => disk := None;
      }
      saved := outcome.Written?;
    }

    /** onConnection: the new client is sent the last price (possibly `null`) and joins the price list. */
    method OnConnection(ws: ConnId, net: Network)
      requires ws in net.sockets && net.sockets[ws].open
      modifies this`connectedClients, net
      ensures net.sockets == old(net.sockets)[ws := WithSent(old(net.sockets)[ws], [Price(lastPrice)])]
      ensures connectedClients == old(connectedClients) + [ws]
    {
      SendPrice(ws, net);
      connectedClients := connectedClients + [ws];
    }

    /**
     * onMessage from client `ws`: a START_ALERT subscribes `ws` for the
     * message's user id and address, creating the address's entry if it has
     * none and replacing an earlier socket for the pair; anything else,
     * including text that does not parse, changes nothing.
     */
    method OnMessage(ws: ConnId, event: Inbound)
      modifies this`alertMap
      ensures IsStartAlert(event) ==> alertMap == Subscribed(old(alertMap), event.address, event.userid, ws)
      ensures !IsStartAlert(event) ==> alertMap == old(alertMap)
    {
      match event
      case Request(cmd, userid, address) =>
        if cmd == Some("START_ALERT") {
          if address !in alertMap {
            var empty: map<string, ConnId> := map[];
            alertMap := alertMap[address := empty];
          }
          var users: map<string, ConnId> := alertMap[address];
          alertMap := alertMap[address := users[userid := ws]];
        }
      case _ =>
    }

    /** sendPrice: the last price goes to `ws`. */
    method SendPrice(ws: ConnId, net: Network)
      requires ws in net.sockets
      modifies net
      ensures net.sockets == old(net.sockets)[ws := WithSent(old(net.sockets)[ws], [Price(lastPrice)])]
    {
      net.Send(ws, Price(lastPrice));
    }

    /** broadcastAddressAlerts: alert every address of `list`, in order. */
    method BroadcastAddressAlerts(list: seq<string>, net: Network)
      modifies this`alertMap, net
      ensures alertMap == PrunedAll(old(alertMap), list, Live(old(net.sockets)))
      ensures net.sockets.Keys == old(net.sockets).Keys
      ensures forall id :: id in old(net.sockets) ==>
        net.sockets[id] == WithSent(old(net.sockets)[id], Deliveries(list, old(alertMap), id, Live(old(net.sockets))))
    {
      ghost var am := alertMap;
      ghost var start := net.sockets;
      ghost var live := Live(start);
      for i := 0 to |list|
        invariant alertMap.Keys == am.Keys
        invariant forall b :: b in am ==> alertMap[b] == if b in list[..i] then Pruned(am[b], live) else am[b]
        invariant net.sockets.Keys == start.Keys && Live(net.sockets) == live
        invariant forall id :: id in start ==>
          net.sockets[id] == WithSent(start[id], Deliveries(list[..i], am, id, live))
      {
        var a := list[i];
        ghost var cur := alertMap;
        ghost var mid := net.sockets;
        BroadcastAddressAlert(a, net);
        assert list[..i + 1] == list[..i] + [a];
        PrunedStep(am, cur, alertMap, list[..i], a, live);
        DeliveredStep(am, cur, list[..i], a, live, start, mid, net.sockets);
      }
      assert list[..|list|] == list;
      PrunedAllPointwise(am, list, live, alertMap);
    }

    /** broadcastAddressAlert: alert the live sockets under `address` and forget the others. */
    method BroadcastAddressAlert(address: string, net: Network)
      modifies this`alertMap, net
      ensures address !in old(alertMap) ==> alertMap == old(alertMap) && net.sockets == old(net.sockets)
      ensures address in old(alertMap) ==> alertMap == old(alertMap)[address := Pruned(old(alertMap)[address], Live(old(net.sockets)))]
      ensures net.sockets.Keys == old(net.sockets).Keys
      ensures forall id :: id in old(net.sockets) ==>
        net.sockets[id] == WithSent(old(net.sockets)[id], Repeat(AddressEvent(address), Alerts(old(alertMap), address, id, Live(old(net.sockets)))))
    {
      if address in alertMap {
        var kept := AlertUsers(alertMap[address], address, net);
        assert map[address := alertMap[address]][address] == alertMap[address];
        alertMap := alertMap[address := kept];
      } else {
        forall id | id in net.sockets
          ensures net.sockets[id] == WithSent(net.sockets[id], Repeat(AddressEvent(address), 0))
        {
          assert net.sockets[id].sent + [] == net.sockets[id].sent;
        }
      }
    }

    /**
     * broadcastPrice: walking the list from its end, each client whose
     * socket is live is sent the last price and each other client is
     * spliced out.
     */
    method BroadcastPrice(net: Network)
      modifies this`connectedClients, net
      ensures connectedClients == OpenOnly(old(connectedClients), Live(old(net.sockets)))
      ensures net.sockets.Keys == old(net.sockets).Keys
      ensures forall id :: id in old(net.sockets) ==>
        net.sockets[id] == WithSent(old(net.sockets)[id], Repeat(Price(lastPrice), Copies(old(connectedClients), Live(old(net.sockets)), id)))
    {
      ghost var clients := connectedClients;
      ghost var start := net.sockets;
      ghost var live := Live(start);
      PriceLogsNone(start, lastPrice);
      assert clients[|clients|..] == [];
      var i := |connectedClients| - 1;
      while i >= 0
        invariant -1 <= i < |clients|
        invariant connectedClients == clients[..i + 1] + OpenOnly(clients[i + 1..], live)
        invariant PriceLogs(net.sockets, start, clients[i + 1..], live, lastPrice)
      {
        SpliceStep(clients, i, live);
        var ws := connectedClients[i];
        ghost var now := net.sockets;
        if ws in net.sockets && net.sockets[ws].open {
          SendPrice(ws, net);
        } else {
          connectedClients := connectedClients[..i] + connectedClients[i + 1..];
        }
        PriceLogsStep(start, live, lastPrice, ws, clients[i + 1..], now, net.sockets);
        i := i - 1;
      }
      assert clients[..0] == [] && clients[0..] == clients;
    }

    /**
     * The price update of updatePrice on the ticker's `reply`: a TRON quote
     * with a positive update time becomes the last price and is broadcast;
     * any other reply changes nothing.
     */
    method UpdatePrice(reply: Option<Quote>, net: Network)
      modifies this`lastPrice, this`connectedClients, net
      ensures Accepted(reply) ==> lastPrice == Some(PriceRecord(reply.value.symbol, reply.value.usd))
      ensures Accepted(reply) ==> connectedClients == OpenOnly(old(connectedClients), Live(old(net.sockets)))
      ensures Accepted(reply) ==> net.sockets.Keys == old(net.sockets).Keys
      ensures Accepted(reply) ==> forall id :: id in old(net.sockets) ==>
        net.sockets[id] == WithSent(old(net.sockets)[id], Repeat(Price(lastPrice), Copies(old(connectedClients), Live(old(net.sockets)), id)))
      ensures !Accepted(reply) ==>
        lastPrice == old(lastPrice) && connectedClients == old(connectedClients) && net.sockets == old(net.sockets)
    {
      if reply.Some? && reply.value.name == "TRON" && reply.value.lastUpdated > 0 {
        lastPrice := Some(PriceRecord(reply.value.symbol, reply.value.usd));
        BroadcastPrice(net);
      }
    }

    /**
     * processBlock: the distinct addresses the block mentions are alerted,
     * in first-mention order; with none, nothing is broadcast.
     */
    method ProcessBlock(b: Block, sha256: Sha256, net: Network)
      requires WellFormed(b)
      modifies this`alertMap, net
      ensures alertMap == PrunedAll(old(alertMap), BlockAddresses(b, sha256), Live(old(net.sockets)))
      ensures net.sockets.Keys == old(net.sockets).Keys
      ensures forall id :: id in old(net.sockets) ==>
        net.sockets[id] == WithSent(old(net.sockets)[id], Deliveries(BlockAddresses(b, sha256), old(alertMap), id, Live(old(net.sockets))))
    {
      var addresses := CollectAddresses(b, sha256);
      if |addresses| > 0 {
        BroadcastAddressAlerts(addresses, net);
      } else {
        forall id | id in net.sockets
          ensures net.sockets[id] == WithSent(net.sockets[id], Deliveries(addresses, alertMap, id, Live(net.sockets)))
        {
          assert net.sockets[id].sent + [] == net.sockets[id].sent;
        }
      }
    }

    /**
     * One step of updateBlocks, with `fetch` the node's answer for a height
     * and `write` the file system's answer to the store write: the height
     * after the stored one is requested. A block with a header is
     * processed and the height goes up by one. When the store write
     * succeeds, the next step follows at once. When it throws, the catch
     * retries after 1000 ms, with the height in memory already raised and
     * the file as the failed write left it. Any other answer, or a failed
     * request, changes nothing and the next step follows after 1000 ms.
     * Either way the stored height stays behind the processed one.
     */
    method UpdateBlocks(fetch: int -> NodeReply, write: WriteOutcome, sha256: Sha256, net: Network)
      returns (requested: int, retryDelay: nat)
      requires StoreBehind()
      requires HasBlock(fetch(block + 1)) ==> WellFormed(fetch(block + 1).block)
      modifies this`block, this`disk, this`alertMap, net
      ensures StoreBehind()
      ensures requested == old(block) + 1
      ensures block == NextHeight(old(block), fetch(requested))
      ensures HasBlock(fetch(requested)) && write.Written? ==> disk == Some(block) && retryDelay == 0
      ensures HasBlock(fetch(requested)) && write.NotOpened? ==> disk == old(disk) && retryDelay == 1000
      ensures HasBlock(fetch(requested)) && write.Emptied? ==> disk == None && retryDelay == 1000
      ensures HasBlock(fetch(requested)) ==>
        alertMap == PrunedAll(old(alertMap), BlockAddresses(fetch(requested).block, sha256), Live(old(net.sockets)))
      ensures HasBlock(fetch(requested)) ==> net.sockets.Keys == old(net.sockets).Keys
      ensures HasBlock(fetch(requested)) ==> forall id :: id in old(net.sockets) ==>
        net.sockets[id] == WithSent(old(net.sockets)[id], Deliveries(BlockAddresses(fetch(requested).block, sha256), old(alertMap), id, Live(old(net.sockets))))
      ensures !HasBlock(fetch(requested)) ==>
        disk == old(disk) && alertMap == old(alertMap) && net.sockets == old(net.sockets) && retryDelay == 1000
    {
      requested := block + 1;
      var reply := fetch(requested);
      if reply.Reply? && reply.block.hasHeader {
        ProcessBlock(reply.block, sha256, net);
        block := block + 1;
        var saved := SaveStore(write);
        retryDelay := if saved then 0 else 1000;
      } else {
        retryDelay := 1000;
      }
    }

    /**
     * updateBlocks calling itself, once per answer of the node in
     * `replies`, with `writes` the store write's outcome at each step: the
     * heights requested are those `Requests` gives, and the height goes up
     * once per block, while the stored height stays behind it.
     */
    method BlockLoop(replies: seq<NodeReply>, writes: seq<WriteOutcome>, sha256: Sha256, net: Network)
      returns (requests: seq<int>)
      requires StoreBehind()
      requires |writes| == |replies|
      requires forall k :: 0 <= k < |replies| && HasBlock(replies[k]) ==> WellFormed(replies[k].block)
      modifies this`block, this`disk, this`alertMap, net
      ensures StoreBehind()
      ensures requests == Requests(old(block), replies)
      ensures block == old(block) + Processed(replies)
    {
      ghost var start := block;
      requests := [];
      assert replies[0..] == replies;
      for i := 0 to |replies|
        invariant requests + Requests(block, replies[i..]) == Requests(start, replies)
        invariant block + Processed(replies[i..]) == start + Processed(replies)
        invariant StoreBehind()
      {
        var reply := replies[i];
        RequestsAdvance(start, replies, i, block, requests);
        var requested, _ := UpdateBlocks(_ => reply, writes[i], sha256, net);
        requests := requests + [requested];
      }
    }
  }
}
