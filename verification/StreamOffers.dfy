/**
 A round in which a new stream entry is offered to everybody who waits for the stream
 (`notify_stream` of senko-net/src/blocked.rs): who is answered, who waits on, and what is executed.
 */
module StreamOffers {
  import opened Common
  import opened WaitQueues

  // ----- clients set aside -----

  function Conns(aside: seq<Client>): seq<Conn> {
    seq(|aside|, i requires 0 <= i < |aside| => aside[i].conn)
  }

  function Restore(clients: Clients, aside: seq<Client>): Clients {
    if aside == [] then clients
    else Restore(clients, aside[..|aside| - 1])[aside[|aside| - 1].conn := aside[|aside| - 1]]
  }

  lemma {:induction false} SetAsideNext(clients: Clients, aside: seq<Client>, i: nat)
    requires i < |aside|
    ensures Conns(aside[..i + 1]) == Conns(aside[..i]) + [aside[i].conn]
    ensures Restore(clients, aside[..i + 1]) == Restore(clients, aside[..i])[aside[i].conn := aside[i]]
  {
    assert aside[..i + 1][..i] == aside[..i];
  }

  /** Everybody who waited still waits, is set aside, or is answered, and only one of these. */
  ghost predicate Offered(clients: Clients, ready: Ready, clients': Clients, ready': Ready, aside: seq<Client>, woke: seq<Conn>) {
    && Within(clients', clients) && Within(ready, ready')
    && (forall c | c in clients :: c in clients' || c in Conns(aside) || c in woke)
    && (forall q | q in aside :: q.conn in clients && clients[q.conn] == q && q.conn !in clients' && q.conn !in woke)
    && (forall c | c in woke :: c in clients && c !in clients')
    && (forall c :: c in ready' <==> c in ready || c in woke)
  }

  lemma {:induction false} RestoredWithin(clients: Clients, clients': Clients, aside: seq<Client>)
    requires Within(clients', clients) && forall q | q in aside :: q.conn in clients && clients[q.conn] == q
    ensures Within(Restore(clients', aside), clients)
    ensures forall c :: c in Restore(clients', aside) <==> c in clients' || c in Conns(aside)
    decreases |aside|
  {
    if aside != [] {
      var n := |aside| - 1;
      RestoredWithin(clients, clients', aside[..n]);
      assert Conns(aside) == Conns(aside[..n]) + [aside[n].conn];
      assert aside[n] in aside;
    }
  }

  lemma {:induction false} NobodyTwice(aside: seq<Client>, woke: seq<Conn>)
    requires forall q | q in aside :: q.conn !in woke
    ensures forall c | c in Conns(aside) :: c !in woke
  {
    forall c | c in Conns(aside) ensures c !in woke {
      var i :| 0 <= i < |aside| && aside[i].conn == c;
      assert aside[i] in aside;
    }
  }

  lemma {:induction false} OfferedServed(clients: Clients, ready: Ready, clients': Clients, ready': Ready, aside: seq<Client>, woke: seq<Conn>)
    requires Offered(clients, ready, clients', ready', aside, woke) && clients.Keys !! ready.Keys
    ensures Served(clients, ready, Restore(clients', aside), ready')
    ensures Restore(clients', aside).Keys !! ready'.Keys
    ensures forall c :: c in woke <==> c in clients && c !in Restore(clients', aside)
  {
    RestoredWithin(clients, clients', aside);
    NobodyTwice(aside, woke);
    var gone := clients.Keys - Restore(clients', aside).Keys;
    assert ready'.Keys == ready.Keys + gone;
  }

  /** One more client is set aside or answered. */
  lemma {:induction false} OfferedOn(clients: Clients, ready: Ready, c1: Clients, r1: Ready, aside: seq<Client>, woke: seq<Conn>,
                  client: Client, response: Response)
    requires Offered(clients, ready, c1, r1, aside, woke) && client.conn in c1 && c1[client.conn] == client
    ensures Offered(clients, ready, c1 - {client.conn}, r1, aside + [client], woke)
    ensures client.conn !in r1 ==>
              Offered(clients, ready, c1 - {client.conn}, r1[client.conn := response], aside, woke + [client.conn])
  {
    assert Conns(aside + [client]) == Conns(aside) + [client.conn];
    forall q | q in aside ensures q.conn != client.conn {
      assert q.conn !in c1;
    }
  }

  // ----- a round of offers -----

  /** The clients in a queue, in order; whoever stands there twice counts once. */
  function LiveQueue(queue: seq<Conn>, clients: Clients): seq<Client> {
    if queue == [] then []
    else if queue[0] in clients then [clients[queue[0]]] + LiveQueue(queue[1..], clients - {queue[0]})
    else LiveQueue(queue[1..], clients)
  }

  type Pairs = set<(Bytes, Bytes)>

  /** A consumer of a group that was offered the entry already. */
  predicate Repeats(op: Op, seen: Pairs) {
    op.ReadGroup? && (op.group, op.consumer) in seen
  }

  function Seen(op: Op, seen: Pairs): Pairs {
    if op.ReadGroup? then seen + {(op.group, op.consumer)} else seen
  }

  /** What a round comes to: the answers in order, the clients that wait on, and the store. */
  datatype Offers<Store> = Offers(answers: seq<(Conn, Response)>, aside: seq<Client>, store: Store)

  ghost function Then<Store>(answers: seq<(Conn, Response)>, aside: seq<Client>, rest: Offers<Store>): Offers<Store> {
    Offers(answers + rest.answers, aside + rest.aside, rest.store)
  }

  /** One client after the other: each consumer of a group is executed once, and nothing to hand out sets a client aside. */
  ghost function OfferAll<Store>(execute: (Store, Key, Client) -> (Store, Response), key: Key, live: seq<Client>, seen: Pairs, store: Store): Offers<Store> {
    if live == [] then Offers([], [], store)
    else
      var client := live[0];
      if Repeats(client.op, seen) then Then([], [client], OfferAll(execute, key, live[1..], seen, store))
      else
        var (next, response) := execute(store, key, client);
        var rest := OfferAll(execute, key, live[1..], Seen(client.op, seen), next);
        if response == NullBulk then Then([], [client], rest) else Then([(client.conn, response)], [], rest)
  }

  /** The clients for which a round executes the command. */
  function Executed(live: seq<Client>, seen: Pairs): seq<Client> {
    if live == [] then []
    else if Repeats(live[0].op, seen) then Executed(live[1..], seen)
    else [live[0]] + Executed(live[1..], Seen(live[0].op, seen))
  }

  ghost function ExecuteAll<Store>(execute: (Store, Key, Client) -> (Store, Response), key: Key, run: seq<Client>, store: Store): Store {
    if run == [] then store else ExecuteAll(execute, key, run[1..], execute(store, key, run[0]).0)
  }

  /** The store after a round is that of executing those clients and no others. */
  lemma {:induction false} RoundExecutes<Store>(execute: (Store, Key, Client) -> (Store, Response), key: Key, live: seq<Client>, seen: Pairs, store: Store)
    ensures OfferAll(execute, key, live, seen, store).store == ExecuteAll(execute, key, Executed(live, seen), store)
    decreases |live|
  {
    if live != [] {
      var client := live[0];
      if Repeats(client.op, seen) {
        RoundExecutes(execute, key, live[1..], seen, store);
      } else {
        RoundExecutes(execute, key, live[1..], Seen(client.op, seen), execute(store, key, client).0);
        var run := Executed(live, seen);
        assert run[0] == client && run[1..] == Executed(live[1..], Seen(client.op, seen));
      }
    }
  }

  /** In a round no consumer of a group is executed twice, nor one that was seen before. */
  lemma {:induction false} ExecutedOnce(live: seq<Client>, seen: Pairs)
    ensures forall i | 0 <= i < |Executed(live, seen)| :: !Repeats(Executed(live, seen)[i].op, seen)
    ensures forall i, j | 0 <= i < j < |Executed(live, seen)| && Executed(live, seen)[i].op.ReadGroup? ::
              !Repeats(Executed(live, seen)[j].op, Seen(Executed(live, seen)[i].op, {}))
    decreases |live|
  {
    if live != [] {
      var op := live[0].op;
      if Repeats(op, seen) {
        ExecutedOnce(live[1..], seen);
      } else {
        ExecutedOnce(live[1..], Seen(op, seen));
        var rest, run := Executed(live[1..], Seen(op, seen)), Executed(live, seen);
        assert forall i | 0 < i < |run| :: run[i] == rest[i - 1];
      }
    }
  }

  /** The answers given to a list of connections. */
  function Replies(woke: seq<Conn>, ready: Ready): seq<(Conn, Response)> {
    seq(|woke|, i requires 0 <= i < |woke| => (woke[i], if woke[i] in ready then ready[woke[i]] else NullBulk))
  }

  lemma {:induction false} RepliesOn(woke: seq<Conn>, ready: Ready, c: Conn, response: Response)
    requires c !in woke
    ensures Replies(woke + [c], ready[c := response]) == Replies(woke, ready) + [(c, response)]
  {
    assert forall i | 0 <= i < |woke| :: woke[i] != c;
  }

  /** One client of a round has been dealt with. */
  lemma {:induction false} OfferedFirst<Store>(execute: (Store, Key, Client) -> (Store, Response), key: Key, client: Client, live: seq<Client>,
                                               seen: Pairs, store: Store, answers: seq<(Conn, Response)>, aside: seq<Client>)
    ensures var repeats, (next, response) := Repeats(client.op, seen), execute(store, key, client);
            var rest := if repeats then OfferAll(execute, key, live, seen, store)
                        else OfferAll(execute, key, live, Seen(client.op, seen), next);
            Then(answers, aside, OfferAll(execute, key, [client] + live, seen, store)) ==
            if repeats || response == NullBulk then Then(answers, aside + [client], rest)
            else Then(answers + [(client.conn, response)], aside, rest)
  {
    assert ([client] + live)[1..] == live;
    var (next, response) := execute(store, key, client);
    var rest := if Repeats(client.op, seen) then OfferAll(execute, key, live, seen, store)
                else OfferAll(execute, key, live, Seen(client.op, seen), next);
    Assoc(answers, [(client.conn, response)], rest.answers);
    Assoc(aside, [client], rest.aside);
    assert [] + rest.answers == rest.answers && [] + rest.aside == rest.aside;
  }

  lemma {:induction false} Settled<Store>(execute: (Store, Key, Client) -> (Store, Response), key: Key, client: Client, live: seq<Client>,
                                          seen: Pairs, store: Store, response: Response, seen': Pairs, store': Store,
                                          answers: seq<(Conn, Response)>, aside: seq<Client>,
                                          answers': seq<(Conn, Response)>, aside': seq<Client>)
    requires Repeats(client.op, seen) ==> response == NullBulk && seen' == seen && store' == store
    requires !Repeats(client.op, seen) ==> (store', response) == execute(store, key, client) && seen' == Seen(client.op, seen)
    requires aside' == if response == NullBulk then aside + [client] else aside
    requires answers' == answers + if response == NullBulk then [] else [(client.conn, response)]
    ensures Then(answers', aside', OfferAll(execute, key, live, seen', store')) ==
            Then(answers, aside, OfferAll(execute, key, [client] + live, seen, store))
  {
    OfferedFirst(execute, key, client, live, seen, store, answers, aside);
    assert answers + [] == answers;
  }

  lemma {:induction false} NothingYet<Store>(ready: Ready, round: Offers<Store>)
    ensures Then(Replies([], ready), [], round) == round
  {
    assert [] + round.answers == round.answers && [] + round.aside == round.aside;
  }

  lemma {:induction false} RoundOver<Store>(execute: (Store, Key, Client) -> (Store, Response), key: Key, seen: Pairs, store: Store,
                                            answers: seq<(Conn, Response)>, aside: seq<Client>)
    ensures Then(answers, aside, OfferAll(execute, key, [], seen, store)) == Offers(answers, aside, store)
  {
    assert answers + [] == answers && aside + [] == aside;
  }

  /** Both lists are in registration order, and nobody left for the key registered earlier. */
  ghost predicate BothSorted(key: Key, clients: Clients, aside: seq<Client>, woke: seq<Conn>, stamps: Stamps) {
    && Sorted(Conns(aside), stamps) && Sorted(woke, stamps)
    && (forall q | q in aside :: key in q.keys)
    && (forall c, i | c in clients && key in clients[c].keys && 0 <= i < |aside| :: Stamp(stamps, aside[i].conn) <= Stamp(stamps, c))
    && (forall c, i | c in clients && key in clients[c].keys && 0 <= i < |woke| :: Stamp(stamps, woke[i]) <= Stamp(stamps, c))
  }

  /** Nobody who waits for the key registered earlier. */
  ghost predicate Earliest(key: Key, clients: Clients, stamps: Stamps, c: Conn) {
    forall d | d in clients && key in clients[d].keys :: Stamp(stamps, c) <= Stamp(stamps, d)
  }

  lemma {:induction false} FirstIsEarliest(waiters: Waiters, key: Key, clients: Clients, heap: Heap, stamps: Stamps, c: Conn)
    requires Fair(waiters, clients, heap, stamps)
    requires FirstLive(Queue(waiters, key), clients) == Some(c) && c in clients
    ensures key in clients[c].keys && Earliest(key, clients, stamps, c)
  {
    WaitsForKey(waiters, key, clients, heap, stamps, c);
    forall d | d in clients && key in clients[d].keys ensures Stamp(stamps, c) <= Stamp(stamps, d) {
      ServedInOrder(waiters, clients, heap, stamps, key, d);
    }
  }

  lemma {:induction false} SortedAside(key: Key, clients: Clients, stamps: Stamps, aside: seq<Client>, woke: seq<Conn>, c: Conn)
    requires BothSorted(key, clients, aside, woke, stamps)
    requires c in clients && clients[c].conn == c && key in clients[c].keys && Earliest(key, clients, stamps, c)
    ensures BothSorted(key, clients - {c}, aside + [clients[c]], woke, stamps)
  {
    assert Conns(aside + [clients[c]]) == Conns(aside) + [c];
  }

  lemma {:induction false} SortedWoke(key: Key, clients: Clients, stamps: Stamps, aside: seq<Client>, woke: seq<Conn>, c: Conn)
    requires BothSorted(key, clients, aside, woke, stamps)
    requires c in clients && key in clients[c].keys && Earliest(key, clients, stamps, c)
    ensures BothSorted(key, clients - {c}, aside, woke + [c], stamps)
  {
  }

  lemma {:induction false} WaitsForKey(waiters: Waiters, key: Key, clients: Clients, heap: Heap, stamps: Stamps, c: Conn)
    requires Fair(waiters, clients, heap, stamps) && FirstLive(Queue(waiters, key), clients) == Some(c) && c in clients
    ensures key in clients[c].keys
  {
    FirstLiveIsFirst(Queue(waiters, key), clients);
    var i :| 0 <= i < |Queue(waiters, key)| && Queue(waiters, key)[i] == c;
  }

  /** A queue that was drained and filled again with those who were set aside. */
  lemma {:induction false} DrainedRequeue(waiters: Waiters, clients: Clients, waiters1: Waiters, clients1: Clients, heap: Heap, stamps: Stamps,
                       waiters2: Waiters, key: Key, aside: seq<Client>)
    requires Fair(waiters, clients, heap, stamps) && Fair(waiters1, clients1, heap, stamps)
    requires Within(clients1, clients) && forall q | q in aside :: q.conn in clients && clients[q.conn] == q && key in q.keys
    requires Queue(waiters1, key) == [] && Sorted(Conns(aside), stamps)
    requires SameElsewhere(waiters, waiters2, key) && Queue(waiters2, key) == Conns(aside)
    ensures Fair(waiters2, Restore(clients1, aside), heap, stamps)
  {
    RestoredWithin(clients, clients1, aside);
    var clients2 := Restore(clients1, aside);
    forall c | c in Conns(aside) && c in clients2 ensures key in clients2[c].keys {
      var i :| 0 <= i < |aside| && aside[i].conn == c;
      assert aside[i] in aside;
    }
    forall c | c in clients1 ensures c in clients2 && key !in clients2[c].keys {
      assert clients1[c] == clients2[c];
      assert key in clients1[c].keys ==> c in Queue(waiters1, key);
    }
    FairRequeue(waiters, clients, heap, stamps, waiters2, key, Conns(aside), clients2);
  }
}
