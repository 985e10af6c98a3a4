/**
 The registry of blocked clients of senko-net/src/blocked.rs.  What a blocked command does to the
 store is a function parameter.
 */
module Blocked {
  import opened Common
  import opened WaitQueues
  import opened StreamOffers
  import opened StreamRounds
  import opened Deadlines
  import opened MoveCascade

  /** The list of those who no longer wait; each has the answer of a timeout. */
  ghost predicate Cancelled(clients: Clients, clients': Clients, ready': Ready, cancelled: seq<Conn>) {
    && (forall c :: c in cancelled <==> c in clients && c !in clients')
    && (forall c | c in cancelled :: c in ready' && ready'[c] == clients[c].onTimeout)
  }

  lemma {:induction false} CancelledOn(clients0: Clients, clients: Clients, ready: Ready, cancelled: seq<Conn>, c: Conn)
    requires Cancelled(clients0, clients, ready, cancelled) && Within(clients, clients0) && c in clients
    ensures Cancelled(clients0, clients - {c}, ready[c := clients[c].onTimeout], cancelled + [c])
  {
  }

  ghost function Except(conns: set<Conn>, queue: seq<Conn>): set<Conn> {
    conns - set c | c in queue
  }

  lemma {:induction false} ExceptNext(conns: set<Conn>, queue: seq<Conn>, i: nat)
    requires i < |queue|
    ensures Except(conns, queue[..i + 1]) == Except(conns, queue[..i]) - {queue[i]}
  {
    assert queue[..i + 1] == queue[..i] + [queue[i]];
  }

  lemma {:induction false} ExceptAll(conns: set<Conn>, queue: seq<Conn>)
    ensures Except(conns, []) == conns && Except(conns, queue[..|queue|]) == conns - set c | c in queue
  {
    assert queue[..|queue|] == queue;
  }

  lemma {:induction false} NobodyWaits(stamps: Stamps)
    ensures Fair(map[], map[], multiset{}, stamps)
  {
  }

  lemma {:induction false} AllCancelled(clients: Clients, ready: Ready, cancelled: seq<Conn>)
    requires Cancelled(clients, map[], ready, cancelled)
    ensures forall c | c in clients :: c in ready && ready[c] == clients[c].onTimeout
    ensures forall c :: c in cancelled <==> c in clients
  {
  }

  class Registry<Store> {
    var waiters: Waiters
    var clients: Clients
    var ready: Ready
    var heap: Heap
    const execute: (Store, Key, Client) -> (Store, Response)
    ghost var stamps: Stamps
    ghost var clock: nat

    /** Nobody is both waiting and answered. */
    ghost predicate Basic()
      reads this
    {
      && clients.Keys !! ready.Keys
      && (forall c | c in clients :: clients[c].conn == c && Stamp(stamps, c) < clock)
    }

    ghost predicate IsFair()
      reads this
    {
      Fair(waiters, clients, heap, stamps)
    }

    constructor (execute: (Store, Key, Client) -> (Store, Response))
      ensures Basic() && IsFair() && clients == map[] && ready == map[] && this.execute == execute
    {
      waiters, clients, ready, heap := map[], map[], map[], multiset{};
      this.execute := execute;
      stamps, clock := map[], 0;
    }

    method Register(client: Client)
      requires Basic()
      modifies this`waiters, this`clients, this`heap, this`stamps, this`clock
      ensures Basic() <==> client.conn !in ready
      ensures clients == old(clients)[client.conn := client]
      ensures waiters == Enqueue(old(waiters), client.keys, client.conn)
      ensures Joins(old(waiters), waiters, client.keys, client.conn)
      ensures client.deadline.None? ==> heap == old(heap)
      ensures client.deadline.Some? ==> heap == old(heap) + multiset{Deadline(client.deadline.value, client.conn)}
      ensures stamps == old(stamps)[client.conn := old(clock)]
      ensures old(IsFair()) ==>
                (IsFair() <==> Harmless(old(waiters), old(clients) - {client.conn}, old(heap), client))
    {
      if IsFair() {
        ReregisterFairIff(waiters, clients, heap, stamps, clock, client);
      }
      Registered(waiters, client.keys, client.conn);
      Enroll(client);
    }

    method Enroll(client: Client)
      modifies this`waiters, this`clients, this`heap, this`stamps, this`clock
      ensures clients == old(clients)[client.conn := client]
      ensures waiters == Enqueue(old(waiters), client.keys, client.conn) && heap == WithDeadline(old(heap), client)
      ensures stamps == old(stamps)[client.conn := old(clock)] && clock == old(clock) + 1
    {
      heap := WithDeadline(heap, client);
      EnqueueAll(client.keys, client.conn);
      clients := clients[client.conn := client];
      stamps, clock := stamps[client.conn := clock], clock + 1;
    }

    method EnqueueAll(keys: seq<Key>, conn: Conn)
      modifies this`waiters
      ensures waiters == Enqueue(old(waiters), keys, conn)
    {
      for i := 0 to |keys|
        invariant Enqueue(waiters, keys[i..], conn) == Enqueue(old(waiters), keys, conn)
      {
        assert keys[i..][0] == keys[i] && keys[i..][1..] == keys[i + 1..];
        waiters := waiters[keys[i] := Queue(waiters, keys[i]) + [conn]];
      }
    }

    /** Pop until somebody who waits is found; stale entries go. */
    method PopLive(key: Key) returns (r: Option<Conn>)
      modifies this`waiters
      ensures r == FirstLive(Queue(old(waiters), key), clients)
      ensures r.Some? ==> r.value in clients && Slots(waiters) < Slots(old(waiters))
      ensures r.None? ==> Queue(waiters, key) == [] && Slots(waiters) <= Slots(old(waiters))
      ensures SameElsewhere(old(waiters), waiters, key) && Shrunk(old(waiters), waiters)
      ensures LiveQueue(Queue(old(waiters), key), clients) ==
              if r.None? then [] else [clients[r.value]] + LiveQueue(Queue(waiters, key), clients - {r.value})
      ensures old(IsFair()) ==> Fair(waiters, if r.Some? then clients - {r.value} else clients, heap, stamps)
    {
      while key in waiters && waiters[key] != []
        invariant FirstLive(Queue(waiters, key), clients) == FirstLive(Queue(old(waiters), key), clients)
        invariant LiveQueue(Queue(waiters, key), clients) == LiveQueue(Queue(old(waiters), key), clients)
        invariant Slots(waiters) <= Slots(old(waiters)) && SameElsewhere(old(waiters), waiters, key)
        invariant Shrunk(old(waiters), waiters)
        invariant old(IsFair()) ==> IsFair()
        decreases Slots(waiters)
      {
        ghost var waiters1 := waiters;
        var conn := PopFront(key);
        SameElsewhereTwice(old(waiters), waiters1, waiters, key);
        ShrunkTwice(old(waiters), waiters1, waiters);
        if conn in clients {
          return Some(conn);
        }
        assert clients - {conn} == clients;
      }
      return None;
    }

    /** The front of a queue that is not empty. */
    method PopFront(key: Key) returns (conn: Conn)
      requires key in waiters && waiters[key] != []
      modifies this`waiters
      ensures conn == old(waiters)[key][0] && waiters == old(waiters)[key := old(waiters)[key][1..]]
      ensures Slots(waiters) < Slots(old(waiters)) && SameElsewhere(old(waiters), waiters, key) && Shrunk(old(waiters), waiters)
      ensures FirstLive(Queue(old(waiters), key), clients) ==
              if conn in clients then Some(conn) else FirstLive(Queue(waiters, key), clients)
      ensures LiveQueue(Queue(old(waiters), key), clients) ==
              if conn in clients then [clients[conn]] + LiveQueue(Queue(waiters, key), clients - {conn})
              else LiveQueue(Queue(waiters, key), clients)
      ensures old(IsFair()) ==> Fair(waiters, clients - {conn}, heap, stamps)
    {
      SlotsPop(waiters, key);
      ShrunkPop(waiters, key);
      if IsFair() {
        FairPopFirst(waiters, clients, heap, stamps, key);
      }
      conn := waiters[key][0];
      waiters := waiters[key := waiters[key][1..]];
    }

    /** Who waits for the destination of a move after its client was answered. */
    ghost function WaitFor(key: Key, conn: Conn, dest: Key): seq<Client>
      requires dest == key ==> LiveQueue(Queue(waiters, key), clients) != []
      reads this
    {
      if dest == key then LiveQueue(Queue(waiters, key), clients)[1..]
      else LiveQueue(Queue(waiters, dest), clients - {conn})
    }

    /**
     Answer the first who waits for a key.  After a move everybody who waits for its target is
     answered; unless one of those moves on, with what those before it left.
     */
    method Notify(key: Key, store: Store) returns (r: Option<Conn>, store': Store)
      requires Basic()
      modifies this`waiters, this`clients, this`ready
      ensures Basic() && Served(old(clients), old(ready), clients, ready)
      ensures r == FirstLive(Queue(old(waiters), key), old(clients))
      ensures r.None? ==> clients == old(clients) && ready == old(ready) && store' == store && Queue(waiters, key) == []
      ensures r.None? ==> LiveQueue(Queue(old(waiters), key), old(clients)) == []
      ensures Shrunk(old(waiters), waiters) && (r.None? ==> SameElsewhere(old(waiters), waiters, key))
      ensures r.Some? ==> r.value in old(clients) && r.value in ready
      ensures r.Some? ==> [old(clients)[r.value]] <= LiveQueue(Queue(old(waiters), key), old(clients))
      ensures r.Some? ==> ready[r.value] == execute(store, key, old(clients)[r.value]).1
      ensures r.Some? && !old(clients)[r.value].op.Move? ==>
                && SameElsewhere(old(waiters), waiters, key)
                && clients == old(clients) - {r.value} && store' == execute(store, key, old(clients)[r.value]).0
                && LiveQueue(Queue(old(waiters), key), old(clients)) ==
                   [old(clients)[r.value]] + LiveQueue(Queue(waiters, key), clients)
      ensures r.Some? && old(clients)[r.value].op.Move? ==> Queue(waiters, old(clients)[r.value].op.dest) == []
      ensures r.Some? && old(clients)[r.value].op.Move? ==>
                var dest := old(clients)[r.value].op.dest;
                HandedOut(dest, old(WaitFor(key, r.value, dest)), execute(store, key, old(clients)[r.value]).0, store')
      ensures if r.Some? then Slots(waiters) < Slots(old(waiters)) else Slots(waiters) <= Slots(old(waiters))
      ensures old(IsFair()) ==> IsFair()
      decreases Slots(waiters), 0
    {
      r := PopLive(key);
      if r.None? {
        return r, store;
      }
      var conn := r.value;
      var client := clients[conn];
      var (store1, response) := execute(store, key, client);
      store' := store1;
      Answer(conn, response);
      if client.op.Move? {
        assert LiveQueue(Queue(waiters, client.op.dest), clients) == old(WaitFor(key, conn, client.op.dest));
        ghost var clients1, ready1, waiters1 := clients, ready, waiters;
        store' := Cascade(client.op.dest, store1);
        ServedTwice(old(clients), old(ready), clients1, ready1, clients, ready);
        ShrunkTwice(old(waiters), waiters1, waiters);
      }
    }

    /** What a queue without moves was handed: all of it is answered. */
    ghost predicate HandedOut(key: Key, live: seq<Client>, store: Store, store': Store)
      reads this
    {
      NoMoves(live) ==> ServeAll(execute, key, live, store).store == store' && AllIn(ServeAll(execute, key, live, store).answers, ready)
    }

    /** Of a queue without moves, `done` are answered and the rest will bring the whole to `goal`. */
    ghost predicate Handing(key: Key, store: Store, done: seq<(Conn, Response)>, goal: Handed<Store>)
      reads this
    {
      var live := LiveQueue(Queue(waiters, key), clients);
      NoMoves(live) && Behind(done, ServeAll(execute, key, live, store)) == goal && AllIn(done, ready)
    }

    /** Since these tables, queues have only shrunk and clients were only answered. */
    ghost predicate Advanced(waiters0: Waiters, clients0: Clients, ready0: Ready)
      reads this
    {
      Shrunk(waiters0, waiters) && Slots(waiters) <= Slots(waiters0) && Served(clients0, ready0, clients, ready)
    }

    /** The loop after a move. */
    method Cascade(dest: Key, store: Store) returns (store': Store)
      requires Basic()
      modifies this`waiters, this`clients, this`ready
      ensures Basic() && Queue(waiters, dest) == [] && Advanced(old(waiters), old(clients), old(ready))
      ensures HandedOut(dest, LiveQueue(Queue(old(waiters), dest), old(clients)), store, store')
      ensures old(IsFair()) ==> IsFair()
      decreases Slots(waiters), 2
    {
      store' := store;
      var more := true;
      ghost var done: seq<(Conn, Response)> := [];
      ghost var live := LiveQueue(Queue(waiters, dest), clients);
      ghost var goal := ServeAll(execute, dest, live, store);
      assert [] + goal.answers == goal.answers;
      while more
        invariant Basic() && Advanced(old(waiters), old(clients), old(ready))
        invariant NoMoves(live) ==> Handing(dest, store', done, goal)
        invariant old(IsFair()) ==> IsFair()
        invariant !more ==> Queue(waiters, dest) == []
        decreases Slots(waiters), more
      {
        more, store', done := CascadeOne(dest, store', done, goal, NoMoves(live), old(waiters), old(clients), old(ready));
      }
      assert done + [] == done;
    }

    method CascadeOne(dest: Key, store: Store, ghost done: seq<(Conn, Response)>, ghost goal: Handed<Store>, ghost still: bool,
                      ghost waiters0: Waiters, ghost clients0: Clients, ghost ready0: Ready)
      returns (more: bool, store': Store, ghost done': seq<(Conn, Response)>)
      requires Basic() && (still ==> Handing(dest, store, done, goal)) && Advanced(waiters0, clients0, ready0)
      modifies this`waiters, this`clients, this`ready
      ensures Basic() && Advanced(waiters0, clients0, ready0)
      ensures still ==> Handing(dest, store', done', goal)
      ensures if more then Slots(waiters) < Slots(old(waiters))
              else Slots(waiters) <= Slots(old(waiters)) && Queue(waiters, dest) == []
      ensures old(IsFair()) ==> IsFair()
      decreases Slots(waiters), 1
    {
      var answered;
      answered, store' := Notify(dest, store);
      ServedTwice(clients0, ready0, old(clients), old(ready), clients, ready);
      ShrunkTwice(waiters0, old(waiters), waiters);
      more, done' := answered.Some?, done;
      if more && still {
        ghost var client, rest := old(clients)[answered.value], LiveQueue(Queue(waiters, dest), clients);
        HandOne(execute, dest, client, rest, store, done, old(ready), ready);
        done' := done + [(client.conn, ready[client.conn])];
      }
    }

    /** Hand an answer to somebody who waits. */
    method Answer(conn: Conn, response: Response)
      requires Basic() && conn in clients
      modifies this`clients, this`ready
      ensures Basic() && clients == old(clients) - {conn} && ready == old(ready)[conn := response]
      ensures Served(old(clients), old(ready), clients, ready)
    {
      ServedOne(clients, ready, conn, response);
      clients, ready := clients - {conn}, ready[conn := response];
    }

    method TakeReady(conn: Conn) returns (r: Option<Response>)
      requires Basic()
      modifies this`ready
      ensures Basic() && ready == old(ready) - {conn}
      ensures r == if conn in old(ready) then Some(old(ready)[conn]) else None
    {
      r := if conn in ready then Some(ready[conn]) else None;
      ready := ready - {conn};
    }

    method ForceUnblock(conn: Conn, error: bool) returns (done: bool)
      requires Basic()
      modifies this`clients, this`ready
      ensures Basic() && Served(old(clients), old(ready), clients, ready)
      ensures done == (conn in old(clients)) && clients == old(clients) - {conn}
      ensures done ==> conn in ready && ready[conn] == if error then Unblocked else old(clients)[conn].onTimeout
      ensures old(IsFair()) ==> IsFair()
    {
      if conn !in clients {
        assert clients - {conn} == clients;
        return false;
      }
      if IsFair() {
        FairWithin(waiters, clients, heap, stamps, clients - {conn});
      }
      var response := if error then Unblocked else clients[conn].onTimeout;
      Answer(conn, response);
      return true;
    }

    /** A connection that goes away is forgotten; its queue and heap entries stay. */
    method RemoveClient(conn: Conn)
      requires Basic()
      modifies this`clients, this`ready
      ensures Basic() && clients == old(clients) - {conn} && ready == old(ready) - {conn}
      ensures old(IsFair()) ==> IsFair()
    {
      if IsFair() {
        FairWithin(waiters, clients, heap, stamps, clients - {conn});
      }
      clients, ready := clients - {conn}, ready - {conn};
    }

    /** Everybody who waits for the key is answered as by a timeout. */
    method CancelWaiters(key: Key) returns (cancelled: seq<Conn>)
      requires Basic()
      modifies this`waiters, this`clients, this`ready
      ensures Basic() && Served(old(clients), old(ready), clients, ready)
      ensures waiters == old(waiters) - {key}
      ensures clients.Keys == old(clients).Keys - set c | c in Queue(old(waiters), key)
      ensures forall c :: c in cancelled <==> c in old(clients) && c !in clients
      ensures forall c | c in cancelled :: ready[c] == old(clients)[c].onTimeout
      ensures old(IsFair()) ==> IsFair() && forall c | c in clients :: key !in clients[c].keys
    {
      var queue := Queue(waiters, key);
      waiters := waiters - {key};
      cancelled := [];
      ExceptAll(clients.Keys, queue);
      for i := 0 to |queue|
        invariant Basic() && Served(old(clients), old(ready), clients, ready) && waiters == old(waiters) - {key}
        invariant clients.Keys == Except(old(clients).Keys, queue[..i])
        invariant Cancelled(old(clients), clients, ready, cancelled)
      {
        ExceptNext(old(clients).Keys, queue, i);
        cancelled := CancelConn(queue[i], cancelled, old(clients), old(ready));
      }
      if old(IsFair()) {
        FairWithout(old(waiters), old(clients), heap, stamps, key, clients);
      }
    }

    /** Who waits is answered as by a timeout. */
    method CancelConn(conn: Conn, cancelled: seq<Conn>, ghost clients0: Clients, ghost ready0: Ready) returns (cancelled': seq<Conn>)
      requires Basic() && Served(clients0, ready0, clients, ready) && Cancelled(clients0, clients, ready, cancelled)
      modifies this`clients, this`ready
      ensures Basic() && clients == old(clients) - {conn}
      ensures Served(clients0, ready0, clients, ready) && Cancelled(clients0, clients, ready, cancelled')
    {
      if conn !in clients {
        assert clients - {conn} == clients;
        return cancelled;
      }
      CancelledOn(clients0, clients, ready, cancelled, conn);
      ghost var clients1, ready1 := clients, ready;
      Answer(conn, clients[conn].onTimeout);
      ServedTwice(clients0, ready0, clients1, ready1, clients, ready);
      return cancelled + [conn];
    }

    /** Every entry at or before `now` goes off the heap, and what that does to the clients; without leftovers nobody waits past a deadline. */
    method CheckTimeouts(now: nat) returns (expired: seq<Conn>, ghost gone: Heap)
      requires Basic()
      modifies this`clients, this`ready, this`heap
      ensures Basic() && old(heap) == gone + heap && IsDue(gone, old(heap), now) && forall e | e in heap :: e.at > now
      ensures Passed(old(clients), old(ready), gone, clients, ready)
      ensures forall c :: c in expired <==> c in old(clients) && OwnFirst(gone, c, old(clients)[c].deadline)
      ensures forall c | c in old(clients) :: c in clients <==> forall e | e in old(heap) && e.conn == c :: e.at > now
      ensures forall c | c in old(clients) ::
                c in expired <==>
                && old(clients)[c].deadline.Some? && old(clients)[c].deadline.value <= now
                && Deadline(old(clients)[c].deadline.value, c) in old(heap)
                && forall e | e in old(heap) && e.conn == c :: old(clients)[c].deadline.value <= e.at
      ensures Timed(old(heap), old(clients)) ==>
                && Served(old(clients), old(ready), clients, ready)
                && (forall c | c in old(clients) ::
                      c in clients <==> old(clients)[c].deadline.None? || old(clients)[c].deadline.value > now)
                && (forall c :: c in expired <==> c in old(clients) && c !in clients)
                && (forall c | c in expired :: c in ready && ready[c] == old(clients)[c].onTimeout)
      ensures old(IsFair()) ==> IsFair()
    {
      expired, gone := ExpireDue(now);
      PassOutcome(old(clients), old(ready), old(heap), gone, now, clients, ready, expired);
    }

    /** The loop over the heap. */
    method ExpireDue(now: nat) returns (expired: seq<Conn>, ghost gone: Heap)
      requires Basic()
      modifies this`clients, this`ready, this`heap
      ensures Basic() && old(heap) == gone + heap && IsDue(gone, old(heap), now) && forall e | e in heap :: e.at > now
      ensures Passed(old(clients), old(ready), gone, clients, ready)
      ensures forall c :: c in expired <==> c in ready && c !in old(ready)
      ensures old(IsFair()) ==> IsFair()
    {
      expired, gone := [], multiset{};
      var more := true;
      assert Passed(clients, ready, gone, clients, ready) by {
        forall c ensures PassedAt(clients, ready, gone, clients, ready, c) {
        }
      }
      while more
        invariant Basic() && old(heap) == gone + heap && Orderly(gone, heap, now)
        invariant Passed(old(clients), old(ready), gone, clients, ready)
        invariant forall c :: c in expired <==> c in ready && c !in old(ready)
        invariant !more ==> forall e | e in heap :: e.at > now
        invariant old(IsFair()) ==> IsFair()
        decreases |heap|, more
      {
        more, expired, gone := ExpireSoonest(now, expired, gone, old(clients), old(ready));
      }
    }

    /** One round of the loop: the soonest entry goes, if its time has come. */
    method ExpireSoonest(now: nat, expired: seq<Conn>, ghost gone: Heap, ghost clients0: Clients, ghost ready0: Ready)
      returns (more: bool, expired': seq<Conn>, ghost gone': Heap)
      requires Basic() && Orderly(gone, heap, now) && clients0.Keys !! ready0.Keys
      requires Passed(clients0, ready0, gone, clients, ready)
      requires forall c :: c in expired <==> c in ready && c !in ready0
      modifies this`clients, this`ready, this`heap
      ensures Basic() && gone' + heap == gone + old(heap) && Orderly(gone', heap, now)
      ensures Passed(clients0, ready0, gone', clients, ready)
      ensures forall c :: c in expired' <==> c in ready && c !in ready0
      ensures if more then |heap| < |old(heap)| else heap == old(heap) && forall e | e in heap :: e.at > now
      ensures old(IsFair()) ==> IsFair()
    {
      more, expired', gone' := false, expired, gone;
      if heap == multiset{} {
        return;
      }
      ghost var least := SoonestExists(heap);
      var e: Deadline :| e in heap && Soonest(heap, e);
      if e.at > now {
        LaterEntries(heap, e, now);
        return;
      }
      PassedOn(clients0, ready0, gone, clients, ready, e);
      OrderlyOn(gone, heap, e, now);
      FirstAnswer(clients0, ready0, gone, clients, ready, e);
      var answered := ExpireEntry(e);
      if answered {
        expired' := expired + [e.conn];
      }
      more, gone' := true, gone + multiset{e};
    }

    /** Take one entry off the heap. */
    method ExpireEntry(e: Deadline) returns (answered: bool)
      requires Basic() && e in heap
      modifies this`clients, this`ready, this`heap
      ensures Basic() && heap == old(heap) - multiset{e}
      ensures answered <==> e.conn in old(clients) && old(clients)[e.conn].deadline == Some(e.at)
      ensures clients == Expire(old(clients), old(ready), e.at, e.conn).0
      ensures ready == Expire(old(clients), old(ready), e.at, e.conn).1
      ensures old(IsFair()) ==> IsFair() && Served(old(clients), old(ready), clients, ready)
      ensures old(IsFair()) ==> e.conn in old(clients) ==> old(clients)[e.conn].deadline == Some(e.at)
    {
      if IsFair() {
        FairPopHeap(waiters, clients, heap, stamps, e);
        ExpireOwn(clients, ready, heap, e);
      }
      heap := heap - multiset{e};
      answered := false;
      if e.conn in clients {
        var client := clients[e.conn];
        clients := clients - {e.conn};
        if client.deadline == Some(e.at) {
          ready := ready[e.conn := client.onTimeout];
          answered := true;
        }
      }
    }

    /** What the round comes to from here on. */
    ghost function Progress(key: Key, woke: seq<Conn>, aside: seq<Client>, seen: Pairs, store: Store): Offers<Store>
      reads this
    {
      Then(Replies(woke, ready), aside, OfferAll(execute, key, LiveQueue(Queue(waiters, key), clients), seen, store))
    }

    /** Offer a new stream entry to everybody who waits for the stream; whoever gets nothing waits on. */
    method NotifyStream(key: Key, store: Store)
        returns (woke: seq<Conn>, store': Store, ghost stores: seq<Store>, ghost responses: seq<Response>)
      requires Basic()
      modifies this`waiters, this`clients, this`ready
      ensures Basic() && Served(old(clients), old(ready), clients, ready)
      ensures SameElsewhere(old(waiters), waiters, key)
      ensures forall c :: c in woke <==> c in old(clients) && c !in clients
      ensures old(IsFair()) ==> IsFair() && Sorted(woke, stamps)
      ensures var round := OfferAll(execute, key, LiveQueue(Queue(old(waiters), key), old(clients)), {}, store);
              Replies(woke, ready) == round.answers && store' == round.store && Queue(waiters, key) == Conns(round.aside)
      ensures Turns(execute, key, LiveQueue(Queue(old(waiters), key), old(clients)), store, stores, responses, store')
      ensures var live := LiveQueue(Queue(old(waiters), key), old(clients));
              forall i | 0 <= i < |live| ::
                if responses[i] == NullBulk then live[i].conn in clients && clients[live[i].conn] == live[i]
                else live[i].conn !in clients && live[i].conn in ready && ready[live[i].conn] == responses[i]
    {
      ghost var live := LiveQueue(Queue(waiters, key), clients);
      ghost var at, off;
      stores, responses, at, off := WholeRound(execute, key, live, store);
      NobodyStandsTwice(Queue(waiters, key), clients);
      woke, store' := OfferRound(key, store);
      RoundResult(OfferAll(execute, key, live, {}, store), live, responses, at, off, woke, ready);
    }

    method OfferRound(key: Key, store: Store) returns (woke: seq<Conn>, store': Store)
      requires Basic()
      modifies this`waiters, this`clients, this`ready
      ensures Basic() && Served(old(clients), old(ready), clients, ready)
      ensures SameElsewhere(old(waiters), waiters, key)
      ensures forall c :: c in woke <==> c in old(clients) && c !in clients
      ensures old(IsFair()) ==> IsFair() && Sorted(woke, stamps)
      ensures var round := OfferAll(execute, key, LiveQueue(Queue(old(waiters), key), old(clients)), {}, store);
              Replies(woke, ready) == round.answers && store' == round.store && Queue(waiters, key) == Conns(round.aside)
    {
      var aside;
      woke, aside, store' := OfferToQueue(key, store);
      OfferedServed(old(clients), old(ready), clients, ready, aside, woke);
      RestoredWithin(old(clients), clients, aside);
      ghost var clients1, waiters1 := clients, waiters;
      Requeue(key, aside);
      if old(IsFair()) {
        DrainedRequeue(old(waiters), old(clients), waiters1, clients1, heap, stamps, waiters, key, aside);
      }
    }

    /** The loop over the queue: who is answered and who is set aside. */
    method OfferToQueue(key: Key, store: Store) returns (woke: seq<Conn>, aside: seq<Client>, store': Store)
      requires Basic()
      modifies this`waiters, this`clients, this`ready
      ensures Basic() && SameElsewhere(old(waiters), waiters, key) && Queue(waiters, key) == []
      ensures Offered(old(clients), old(ready), clients, ready, aside, woke)
      ensures Offers(Replies(woke, ready), aside, store') ==
              OfferAll(execute, key, LiveQueue(Queue(old(waiters), key), old(clients)), {}, store)
      ensures old(IsFair()) ==> IsFair() && BothSorted(key, clients, aside, woke, stamps)
    {
      woke, aside, store' := [], [], store;
      var seen: Pairs := {};
      var more := true;
      ghost var round := OfferAll(execute, key, LiveQueue(Queue(waiters, key), clients), {}, store);
      NothingYet(ready, round);
      while more
        invariant Progress(key, woke, aside, seen, store') == round
        invariant Basic() && SameElsewhere(old(waiters), waiters, key)
        invariant Offered(old(clients), old(ready), clients, ready, aside, woke)
        invariant !more ==> Queue(waiters, key) == []
        invariant old(IsFair()) ==> IsFair() && BothSorted(key, clients, aside, woke, stamps)
        decreases Slots(waiters), more
      {
        ghost var waiters1 := waiters;
        more, woke, aside, seen, store' := OfferNext(key, woke, aside, seen, store', old(clients), old(ready), old(IsFair()), round);
        SameElsewhereTwice(old(waiters), waiters1, waiters, key);
      }
      RoundOver(execute, key, seen, store', Replies(woke, ready), aside);
    }

    /** The next to be offered; nobody who waits for the key registered earlier. */
    method NextWaiter(key: Key, ghost fair: bool) returns (r: Option<Conn>, ghost live: seq<Client>)
      requires fair ==> IsFair()
      modifies this`waiters
      ensures SameElsewhere(old(waiters), waiters, key)
      ensures r.Some? ==> r.value in clients && Slots(waiters) < Slots(old(waiters))
      ensures r.None? ==> Queue(waiters, key) == [] && Slots(waiters) <= Slots(old(waiters))
      ensures live == LiveQueue(Queue(waiters, key), if r.None? then clients else clients - {r.value})
      ensures LiveQueue(Queue(old(waiters), key), clients) == if r.None? then live else [clients[r.value]] + live
      ensures fair && r.Some? ==> key in clients[r.value].keys && Earliest(key, clients, stamps, r.value)
      ensures fair ==> Fair(waiters, if r.Some? then clients - {r.value} else clients, heap, stamps)
    {
      ghost var waiters1 := waiters;
      r := PopLive(key);
      live := LiveQueue(Queue(waiters, key), if r.None? then clients else clients - {r.value});
      if fair && r.Some? {
        FirstIsEarliest(waiters1, key, clients, heap, stamps, r.value);
      }
    }

    /** One round of the loop. */
    method OfferNext(key: Key, woke: seq<Conn>, aside: seq<Client>, seen: Pairs, store: Store,
                     ghost clients0: Clients, ghost ready0: Ready, ghost fair: bool, ghost round: Offers<Store>)
      returns (more: bool, woke': seq<Conn>, aside': seq<Client>, seen': Pairs, store': Store)
      requires Basic() && Offered(clients0, ready0, clients, ready, aside, woke) && Progress(key, woke, aside, seen, store) == round
      requires fair ==> IsFair() && BothSorted(key, clients, aside, woke, stamps)
      modifies this`waiters, this`clients, this`ready
      ensures Basic() && Offered(clients0, ready0, clients, ready, aside', woke')
      ensures SameElsewhere(old(waiters), waiters, key)
      ensures Progress(key, woke', aside', seen', store') == round
      ensures if more then Slots(waiters) < Slots(old(waiters))
              else Slots(waiters) <= Slots(old(waiters)) && Queue(waiters, key) == []
      ensures fair ==> IsFair() && BothSorted(key, clients, aside', woke', stamps)
    {
      woke', aside', seen', store' := woke, aside, seen, store;
      var r; ghost var live;
      r, live := NextWaiter(key, fair);
      more := r.Some?;
      if more {
        woke', aside', seen', store' := OfferTo(key, clients[r.value], woke, aside, seen, store, clients0, ready0, fair, live);
      }
    }

    method OfferTo(key: Key, client: Client, woke: seq<Conn>, aside: seq<Client>, seen: Pairs, store: Store,
                   ghost clients0: Clients, ghost ready0: Ready, ghost fair: bool, ghost live: seq<Client>)
      returns (woke': seq<Conn>, aside': seq<Client>, seen': Pairs, store': Store)
      requires Basic() && client.conn in clients && clients[client.conn] == client
      requires Offered(clients0, ready0, clients, ready, aside, woke)
      requires live == LiveQueue(Queue(waiters, key), clients - {client.conn})
      requires fair ==> key in client.keys && Earliest(key, clients, stamps, client.conn)
      requires fair ==> BothSorted(key, clients, aside, woke, stamps) && Fair(waiters, clients - {client.conn}, heap, stamps)
      modifies this`clients, this`ready
      ensures Basic() && Offered(clients0, ready0, clients, ready, aside', woke')
      ensures Progress(key, woke', aside', seen', store') ==
              Then(Replies(woke, old(ready)), aside, OfferAll(execute, key, [client] + live, seen, store))
      ensures fair ==> IsFair() && BothSorted(key, clients, aside', woke', stamps)
    {
      ghost var answers := Replies(woke, ready);
      var response;
      response, seen', store' := Offer(key, client, seen, store);
      woke', aside' := Settle(key, client, response, woke, aside, clients0, ready0, fair);
      Settled(execute, key, client, live, seen, store, response, seen', store', answers, aside, Replies(woke', ready), aside');
    }

    /** A group's consumer is offered the entry once; execution may find nothing for the client. */
    method Offer(key: Key, client: Client, seen: Pairs, store: Store)
      returns (response: Response, seen': Pairs, store': Store)
      ensures Repeats(client.op, seen) ==> response == NullBulk && seen' == seen && store' == store
      ensures !Repeats(client.op, seen) ==>
                (store', response) == execute(store, key, client) && seen' == Seen(client.op, seen)
    {
      response, seen', store' := NullBulk, seen, store;
      if client.op.ReadGroup? {
        if (client.op.group, client.op.consumer) in seen {
          return;
        }
        seen' := seen + {(client.op.group, client.op.consumer)};
      }
      var (next, answer) := execute(store, key, client);
      store', response := next, answer;
    }

    /** Nothing for the client sets it aside; anything else is its answer. */
    method Settle(key: Key, client: Client, response: Response, woke: seq<Conn>, aside: seq<Client>,
                  ghost clients0: Clients, ghost ready0: Ready, ghost fair: bool)
      returns (woke': seq<Conn>, aside': seq<Client>)
      requires Basic() && client.conn in clients && clients[client.conn] == client
      requires Offered(clients0, ready0, clients, ready, aside, woke)
      requires fair ==> key in client.keys && Earliest(key, clients, stamps, client.conn)
      requires fair ==> BothSorted(key, clients, aside, woke, stamps)
      modifies this`clients, this`ready
      ensures Basic() && clients == old(clients) - {client.conn}
      ensures Offered(clients0, ready0, clients, ready, aside', woke')
      ensures aside' == if response == NullBulk then aside + [client] else aside
      ensures Replies(woke', ready) ==
              Replies(woke, old(ready)) + if response == NullBulk then [] else [(client.conn, response)]
      ensures fair ==> BothSorted(key, clients, aside', woke', stamps)
    {
      assert Replies(woke, ready) + [] == Replies(woke, ready);
      RepliesOn(woke, ready, client.conn, response);
      OfferedOn(clients0, ready0, clients, ready, aside, woke, client, response);
      if fair {
        SortedAside(key, clients, stamps, aside, woke, client.conn);
        SortedWoke(key, clients, stamps, aside, woke, client.conn);
      }
      if response == NullBulk {
        clients := clients - {client.conn};
        return woke, aside + [client];
      }
      Answer(client.conn, response);
      return woke + [client.conn], aside;
    }

    method Requeue(key: Key, aside: seq<Client>)
      modifies this`waiters, this`clients
      ensures clients == Restore(old(clients), aside)
      ensures SameElsewhere(old(waiters), waiters, key) && Queue(waiters, key) == Queue(old(waiters), key) + Conns(aside)
    {
      for i := 0 to |aside|
        invariant clients == Restore(old(clients), aside[..i])
        invariant SameElsewhere(old(waiters), waiters, key)
        invariant Queue(waiters, key) == Queue(old(waiters), key) + Conns(aside[..i])
      {
        SetAsideNext(old(clients), aside, i);
        waiters := waiters[key := Queue(waiters, key) + [aside[i].conn]];
        clients := clients[aside[i].conn := aside[i]];
      }
      assert aside[..|aside|] == aside;
    }

    /** Everybody is answered as by a timeout. */
    method ClearAll() returns (cancelled: seq<Conn>)
      requires Basic()
      modifies this`waiters, this`clients, this`ready, this`heap
      ensures Basic() && IsFair() && clients == map[] && Served(old(clients), old(ready), clients, ready)
      ensures waiters == map[] && heap == multiset{}
      ensures forall c | c in old(clients) :: c in ready && ready[c] == old(clients)[c].onTimeout
      ensures forall c :: c in cancelled <==> c in old(clients)
    {
      waiters, heap := map[], multiset{};
      cancelled := [];
      while clients != map[]
        invariant Basic() && Served(old(clients), old(ready), clients, ready)
        invariant waiters == map[] && heap == multiset{}
        invariant Cancelled(old(clients), clients, ready, cancelled)
        decreases |clients|
      {
        cancelled := CancelOne(cancelled, old(clients), old(ready));
      }
      NobodyWaits(stamps);
      AllCancelled(old(clients), ready, cancelled);
    }

    /** One of those who wait is answered as by a timeout. */
    method CancelOne(cancelled: seq<Conn>, ghost clients0: Clients, ghost ready0: Ready) returns (cancelled': seq<Conn>)
      requires Basic() && clients != map[]
      requires Served(clients0, ready0, clients, ready) && Cancelled(clients0, clients, ready, cancelled)
      modifies this`clients, this`ready
      ensures Basic() && |clients| < |old(clients)|
      ensures Served(clients0, ready0, clients, ready) && Cancelled(clients0, clients, ready, cancelled')
    {
      var c :| c in clients.Keys;
      ghost var clients1 := clients;
      cancelled' := CancelConn(c, cancelled, clients0, ready0);
      assert |clients| < |clients1| by {
        assert clients.Keys < clients1.Keys;
      }
    }
  }
}
