/**
 * Address alerts: the subscriptions by address and user id, and what
 * alerting an address does to them and to the clients' sockets.
 */
module AddressAlerts {
  import opened Positional
  import opened Transport

  type Subscriptions = map<string, map<string, ConnId>>

  /**
   * The map after a START_ALERT for `userid` and `address` from `ws`: the
   * pair now alerts `ws`, and every other pair is as it was.
   */
  function Subscribed(am: Subscriptions, address: string, userid: string, ws: ConnId): (r: Subscriptions)
    ensures r.Keys == am.Keys + {address}
    ensures r[address].Keys == (if address in am then am[address].Keys else {}) + {userid}
    ensures r[address][userid] == ws
    ensures forall p :: p in r[address] && p != userid ==> r[address][p] == am[address][p]
    ensures forall b :: b in am && b != address ==> r[b] == am[b]
  {
    var users: map<string, ConnId> := if address in am then am[address] else map[];
    am[address := users[userid := ws]]
  }

  /** The user ids under which `id` is subscribed in `users`. */
  function Holders(users: map<string, ConnId>, id: ConnId): set<string>
  {
    set p | p in users && users[p] == id
  }

  /** The subscriptions of `users` whose socket is live. */
  function Pruned(users: map<string, ConnId>, live: set<ConnId>): map<string, ConnId>
  {
    map p | p in users && users[p] in live :: users[p]
  }

  /** How many events for `address` a live `id` receives from one alert: one per user id it holds. */
  function Alerts(am: Subscriptions, address: string, id: ConnId, live: set<ConnId>): nat
  {
    if address in am && id in live then |Holders(am[address], id)| else 0
  }

  /** The subscriptions after alerting every address of `list`: their entries of sockets not live are gone. */
  function PrunedAll(am: Subscriptions, list: seq<string>, live: set<ConnId>): Subscriptions
  {
    map a | a in am :: if a in list then Pruned(am[a], live) else am[a]
  }

  /** The events `id` receives from alerting every address of `list` in order. */
  function Deliveries(list: seq<string>, am: Subscriptions, id: ConnId, live: set<ConnId>): (r: seq<Payload>)
    ensures forall k :: 0 <= k < |r| ==> r[k].AddressEvent? && r[k].address in list
  {
    if list == [] then []
    else
      var a := list[|list| - 1];
      Deliveries(list[..|list| - 1], am, id, live) + Repeat(AddressEvent(a), Alerts(am, a, id, live))
  }

  /** Pruning keeps every user id of a live socket and none of another. */
  lemma PrunedHolders(users: map<string, ConnId>, live: set<ConnId>, id: ConnId)
    ensures id in live ==> Holders(Pruned(users, live), id) == Holders(users, id)
    ensures id !in live ==> Holders(Pruned(users, live), id) == {}
  {
    if id in live {
      assert forall p :: p in Holders(users, id) ==> p in Holders(Pruned(users, live), id);
    }
  }

  /** Pruning twice prunes nothing more. */
  lemma PrunedTwice(users: map<string, ConnId>, live: set<ConnId>)
    ensures Pruned(Pruned(users, live), live) == Pruned(users, live)
  {
  }

  /** A subscription is alerted as long as its socket is live. */
  lemma SubscribedIsAlerted(am: Subscriptions, address: string, userid: string, ws: ConnId, live: set<ConnId>)
    ensures Alerts(Subscribed(am, address, userid, ws), address, ws, live) >= (if ws in live then 1 else 0)
  {
    var r := Subscribed(am, address, userid, ws);
    assert userid in Holders(r[address], ws);
  }

  /** Alerting `a` in subscriptions pruned under `prefix` gives them pruned under `prefix + [a]`. */
  lemma PrunedStep(am: Subscriptions, cur: Subscriptions, next: Subscriptions, prefix: seq<string>, a: string, live: set<ConnId>)
    requires cur.Keys == am.Keys
    requires forall b :: b in am ==> cur[b] == if b in prefix then Pruned(am[b], live) else am[b]
    requires a !in cur ==> next == cur
    requires a in cur ==> next == cur[a := Pruned(cur[a], live)]
    ensures next.Keys == am.Keys
    ensures forall b :: b in am ==> next[b] == if b in prefix + [a] then Pruned(am[b], live) else am[b]
  {
    if a in am {
      PrunedTwice(am[a], live);
    }
  }

  /** Alerting `a` reaches a live socket as often after pruning as before. */
  lemma AlertsAfterPruning(am: Subscriptions, cur: Subscriptions, a: string, id: ConnId, live: set<ConnId>)
    requires cur.Keys == am.Keys
    requires a in am ==> cur[a] == am[a] || cur[a] == Pruned(am[a], live)
    ensures Alerts(cur, a, id, live) == Alerts(am, a, id, live)
  {
    if a in am {
      PrunedHolders(am[a], live, id);
    }
  }

  /** The subscriptions pruned under the addresses of `list`, as a map checked address by address. */
  lemma PrunedAllPointwise(am: Subscriptions, list: seq<string>, live: set<ConnId>, m: Subscriptions)
    requires m.Keys == am.Keys
    requires forall b :: b in am ==> m[b] == if b in list then Pruned(am[b], live) else am[b]
    ensures m == PrunedAll(am, list, live)
  {
  }

  /**
   * The loop of broadcastAddressAlert over the subscriptions `users` of
   * `address`: each live socket is sent the event once per user id it
   * holds, and the entries of the others are dropped. The source deletes
   * from the inner object as it visits its keys; the model returns what is
   * kept.
   */
  method AlertUsers(users: map<string, ConnId>, address: string, net: Network) returns (kept: map<string, ConnId>)
    modifies net
    ensures kept == Pruned(users, Live(old(net.sockets)))
    ensures net.sockets.Keys == old(net.sockets).Keys
    ensures forall id :: id in old(net.sockets) ==>
      net.sockets[id] == WithSent(old(net.sockets)[id], Repeat(AddressEvent(address), Alerts(map[address := users], address, id, Live(old(net.sockets)))))
  {
    ghost var start := net.sockets;
    ghost var live := Live(start);
    kept := users;
    var keys := users.Keys;
    ghost var done: set<string> := {};
    assert Kept(users, done, live) == users;
    while keys != {}
      invariant keys <= users.Keys && done <= users.Keys
      invariant forall q :: q in users ==> (q in done <==> q !in keys)
      invariant kept == Kept(users, done, live)
      invariant AlertedLogs(net.sockets, start, users, done, live, address)
      decreases |keys|
    {
      var p :| p in keys;
      var ws := kept[p];
      KeptStep(users, done, live, p);
      ghost var now := net.sockets;
      if ws in net.sockets && net.sockets[ws].open {
        net.Send(ws, AddressEvent(address));
      } else {
        kept := kept - {p};
      }
      AlertedLogsStep(users, done, live, start, address, p, now, net.sockets);
      keys := keys - {p};
      done := done + {p};
    }
    assert done == users.Keys;
    KeptAll(users, live);
    AlertedLogsAll(users, live, start, net.sockets, address);
  }

  /** The logs of `now` are those of `start` with the alerts for the user ids in `done` after them. */
  ghost predicate AlertedLogs(now: Sockets, start: Sockets, users: map<string, ConnId>, done: set<string>, live: set<ConnId>, address: string)
  {
    now.Keys == start.Keys && Live(now) == live &&
    forall id :: id in start ==>
      now[id] == WithSent(start[id], Repeat(AddressEvent(address), AlertedSoFar(users, done, live, id)))
  }

  /** Once every user id is visited, the logs hold one event per user id of each live socket. */
  lemma AlertedLogsAll(users: map<string, ConnId>, live: set<ConnId>, start: Sockets, now: Sockets, address: string)
    requires AlertedLogs(now, start, users, users.Keys, live, address)
    ensures now.Keys == start.Keys
    ensures forall id :: id in start ==>
      now[id] == WithSent(start[id], Repeat(AddressEvent(address), Alerts(map[address := users], address, id, live)))
  {
    forall id | id in start
      ensures now[id] == WithSent(start[id], Repeat(AddressEvent(address), Alerts(map[address := users], address, id, live)))
    {
      assert Holders(users, id) * users.Keys == Holders(users, id);
    }
  }

  /** Once every user id is visited, what is kept is the pruned map. */
  lemma KeptAll(users: map<string, ConnId>, live: set<ConnId>)
    ensures Kept(users, users.Keys, live) == Pruned(users, live)
  {
  }

  /** Visiting `p` sends one event to its socket when that is live and nothing otherwise. */
  lemma AlertedLogsStep(users: map<string, ConnId>, done: set<string>, live: set<ConnId>, start: Sockets, address: string,
                        p: string, now: Sockets, next: Sockets)
    requires p in users && p !in done
    requires AlertedLogs(now, start, users, done, live, address)
    requires users[p] in live ==> users[p] in now && next == now[users[p] := WithSent(now[users[p]], [AddressEvent(address)])]
    requires users[p] !in live ==> next == now
    ensures AlertedLogs(next, start, users, done + {p}, live, address)
  {
    AlertedStep(users, done, live, p);
    var ws := users[p];
    if ws in live {
      LiveAfterSend(now, ws, [AddressEvent(address)]);
      PadStep(start[ws].sent, AddressEvent(address), AlertedSoFar(users, done, live, ws));
    }
  }

  /** The subscriptions of `users` that survive once the user ids in `done` have been visited. */
  ghost function Kept(users: map<string, ConnId>, done: set<string>, live: set<ConnId>): map<string, ConnId>
  {
    map p | p in users && (p !in done || users[p] in live) :: users[p]
  }

  /** Visiting `p` keeps its subscription if its socket is live and drops it otherwise. */
  lemma KeptStep(users: map<string, ConnId>, done: set<string>, live: set<ConnId>, p: string)
    requires p in users && p !in done
    ensures p in Kept(users, done, live) && Kept(users, done, live)[p] == users[p]
    ensures Kept(users, done + {p}, live) == if users[p] in live then Kept(users, done, live) else Kept(users, done, live) - {p}
  {
  }

  /** The alerts sent to `id` once the user ids in `done` have been visited. */
  ghost function AlertedSoFar(users: map<string, ConnId>, done: set<string>, live: set<ConnId>, id: ConnId): nat
  {
    if id in live then |Holders(users, id) * done| else 0
  }

  /** Visiting `p` adds one alert for its socket if that is live, and none for any other. */
  lemma AlertedStep(users: map<string, ConnId>, done: set<string>, live: set<ConnId>, p: string)
    requires p in users && p !in done
    ensures forall id ::
      AlertedSoFar(users, done + {p}, live, id) == AlertedSoFar(users, done, live, id) + (if id == users[p] && id in live then 1 else 0)
  {
    forall id
      ensures AlertedSoFar(users, done + {p}, live, id) == AlertedSoFar(users, done, live, id) + (if id == users[p] && id in live then 1 else 0)
    {
      if users[p] == id {
        assert Holders(users, id) * (done + {p}) == Holders(users, id) * done + {p};
      } else {
        assert Holders(users, id) * (done + {p}) == Holders(users, id) * done;
      }
    }
  }

  /** Alerting `a`, whose entries are those of `am` pruned or not, adds its events after those of `prefix`. */
  lemma DeliveredStep(am: Subscriptions, cur: Subscriptions, prefix: seq<string>, a: string, live: set<ConnId>,
                      start: Sockets, mid: Sockets, next: Sockets)
    requires cur.Keys == am.Keys
    requires a in am ==> cur[a] == am[a] || cur[a] == Pruned(am[a], live)
    requires mid.Keys == start.Keys && next.Keys == start.Keys && Live(mid) == live
    requires forall id :: id in start ==> mid[id] == WithSent(start[id], Deliveries(prefix, am, id, live))
    requires forall id :: id in mid ==>
      next[id] == WithSent(mid[id], Repeat(AddressEvent(a), Alerts(cur, a, id, Live(mid))))
    ensures forall id :: id in start ==> next[id] == WithSent(start[id], Deliveries(prefix + [a], am, id, live))
  {
    forall id | id in start
      ensures next[id] == WithSent(start[id], Deliveries(prefix + [a], am, id, live))
    {
      AlertsAfterPruning(am, cur, a, id, live);
      assert (prefix + [a])[..|prefix|] == prefix;
      var d := Deliveries(prefix, am, id, live);
      var r := Repeat(AddressEvent(a), Alerts(am, a, id, live));
      assert start[id].sent + d + r == start[id].sent + (d + r);
    }
  }

  /** Alerting no address changes nothing. */
  lemma NothingToAlert(am: Subscriptions, id: ConnId, live: set<ConnId>)
    ensures PrunedAll(am, [], live) == am
    ensures Deliveries([], am, id, live) == []
  {
  }

  /**
   * Alerting distinct addresses sends a socket, for each address of the
   * list, exactly the events its subscriptions there call for, and none for
   * another address.
   */
  lemma {:induction false} DeliveriesCount(list: seq<string>, am: Subscriptions, id: ConnId, live: set<ConnId>, a: string)
    requires Distinct(list)
    ensures multiset(Deliveries(list, am, id, live))[AddressEvent(a)] == if a in list then Alerts(am, a, id, live) else 0
  {
    if list != [] {
      var init := list[..|list| - 1];
      var b := list[|list| - 1];
      assert list == init + [b];
      DeliveriesCount(init, am, id, live, a);
      RepeatCount(AddressEvent(b), Alerts(am, b, id, live), AddressEvent(a));
      assert a in list <==> a in init || a == b;
      assert a == b ==> a !in init;
    }
  }
}
