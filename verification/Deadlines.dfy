/**
 The heap of deadlines of senko-net/src/blocked.rs, and what a pass over its due entries does to the
 waiting clients, with or without entries left over from earlier registrations.
 */
module Deadlines {
  import opened Common
  import opened WaitQueues

  predicate Sooner(a: Deadline, b: Deadline) {
    a.at < b.at || (a.at == b.at && a.conn < b.conn)
  }

  predicate Soonest(heap: Heap, e: Deadline) {
    e in heap && forall f | f in heap :: !Sooner(f, e)
  }

  lemma {:induction false} SoonestExists(heap: Heap) returns (e: Deadline)
    requires heap != multiset{}
    ensures Soonest(heap, e)
    decreases |heap|
  {
    var f :| f in heap;
    var rest := heap - multiset{f};
    assert forall h | h in heap :: h == f || h in rest;
    e := f;
    if rest != multiset{} {
      var g := SoonestExists(rest);
      if Sooner(g, f) {
        e := g;
      }
    }
  }

  /** What a deadline from the heap does: its client stops waiting, and is answered if the deadline is its own. */
  function Expire(clients: Clients, ready: Ready, deadline: nat, conn: Conn): (Clients, Ready) {
    if conn !in clients then (clients, ready)
    else if clients[conn].deadline != Some(deadline) then (clients - {conn}, ready)
    else (clients - {conn}, ready[conn := clients[conn].onTimeout])
  }

  ghost predicate HasEntry(gone: Heap, c: Conn) {
    exists at: nat :: Deadline(at, c) in gone
  }

  /** The earliest of these entries for the connection is the deadline itself. */
  ghost predicate OwnFirst(gone: Heap, c: Conn, deadline: Option<nat>) {
    && deadline.Some? && Deadline(deadline.value, c) in gone
    && forall e | e in gone && e.conn == c :: deadline.value <= e.at
  }

  /**
   What a pass over the entries `gone` of the heap, earliest first, does to a connection: a client with an
   entry stops waiting, and is answered if its own deadline is the earliest of its entries.
   */
  ghost predicate PassedAt(clients: Clients, ready: Ready, gone: Heap, clients': Clients, ready': Ready, c: Conn) {
    var answered := c in clients && OwnFirst(gone, c, clients[c].deadline);
    && (c in clients' ==> c in clients && clients'[c] == clients[c])
    && (c in clients ==> (c !in clients' <==> HasEntry(gone, c)))
    && (c in ready' <==> c in ready || answered)
    && (c in ready' ==> ready'[c] == if answered then clients[c].onTimeout else ready[c])
  }

  ghost predicate Passed(clients: Clients, ready: Ready, gone: Heap, clients': Clients, ready': Ready) {
    forall c :: PassedAt(clients, ready, gone, clients', ready', c)
  }

  /** Exactly the entries at or before `now`; each as often as in the heap, when the rest holds none of them. */
  ghost predicate IsDue(gone: Heap, heap: Heap, now: nat) {
    forall e :: e in gone <==> e in heap && e.at <= now
  }

  lemma {:induction false} HasEntryOn(gone: Heap, e: Deadline, c: Conn)
    ensures HasEntry(gone + multiset{e}, c) <==> HasEntry(gone, c) || e.conn == c
  {
    if e.conn == c {
      assert Deadline(e.at, c) in gone + multiset{e};
    }
    if HasEntry(gone, c) {
      var at: nat :| Deadline(at, c) in gone;
      assert Deadline(at, c) in gone + multiset{e};
    }
  }

  /** A later entry changes nothing for a connection that had one, and is the first for one that had none. */
  lemma {:induction false} OwnFirstOn(gone: Heap, e: Deadline, c: Conn, deadline: Option<nat>)
    requires forall f | f in gone :: !Sooner(e, f)
    ensures OwnFirst(gone + multiset{e}, c, deadline) <==>
            if e.conn == c && !HasEntry(gone, c) then deadline == Some(e.at) else OwnFirst(gone, c, deadline)
  {
    var more := gone + multiset{e};
    if e.conn == c && HasEntry(gone, c) {
      var at: nat :| Deadline(at, c) in gone;
      assert !Sooner(e, Deadline(at, c)) && Deadline(at, c) in more;
      assert deadline == Some(e.at) && OwnFirst(more, c, deadline) ==> Deadline(at, c) == e;
      assert OwnFirst(more, c, deadline) ==> Deadline(deadline.value, c) in gone;
    } else if e.conn == c {
      assert forall f | f in gone :: f == Deadline(f.at, f.conn) && f.conn != c;
    }
  }

  lemma {:induction false} PassedOnAt(clients0: Clients, ready0: Ready, gone: Heap, clients: Clients, ready: Ready, e: Deadline, c: Conn)
    requires PassedAt(clients0, ready0, gone, clients, ready, c) && !(c in clients0 && c in ready0)
    requires forall f | f in gone :: !Sooner(e, f)
    ensures var (clients', ready') := Expire(clients, ready, e.at, e.conn);
            PassedAt(clients0, ready0, gone + multiset{e}, clients', ready', c)
  {
    HasEntryOn(gone, e, c);
    if c in clients0 {
      OwnFirstOn(gone, e, c, clients0[c].deadline);
      assert OwnFirst(gone, c, clients0[c].deadline) ==> HasEntry(gone, c);
    }
  }

  lemma {:induction false} PassedOn(clients0: Clients, ready0: Ready, gone: Heap, clients: Clients, ready: Ready, e: Deadline)
    requires Passed(clients0, ready0, gone, clients, ready) && clients0.Keys !! ready0.Keys
    requires forall f | f in gone :: !Sooner(e, f)
    ensures var (clients', ready') := Expire(clients, ready, e.at, e.conn);
            Passed(clients0, ready0, gone + multiset{e}, clients', ready')
  {
    var (clients', ready') := Expire(clients, ready, e.at, e.conn);
    forall c ensures PassedAt(clients0, ready0, gone + multiset{e}, clients', ready', c) {
      assert PassedAt(clients0, ready0, gone, clients, ready, c);
      PassedOnAt(clients0, ready0, gone, clients, ready, e, c);
    }
  }

  /** In a pass everybody who leaves is answered exactly when for each of them the earliest entry is the deadline itself. */
  lemma {:induction false} AllAnsweredIff(clients: Clients, ready: Ready, gone: Heap, clients': Clients, ready': Ready)
    requires Passed(clients, ready, gone, clients', ready') && clients.Keys !! ready.Keys
    ensures Served(clients, ready, clients', ready') <==>
            forall c | c in clients && HasEntry(gone, c) :: OwnFirst(gone, c, clients[c].deadline)
  {
    var left := clients.Keys - clients'.Keys;
    var answered := set c | c in clients && OwnFirst(gone, c, clients[c].deadline);
    forall c ensures c in ready' <==> c in ready || c in answered {
      assert PassedAt(clients, ready, gone, clients', ready', c);
    }
    forall c ensures (c in clients' ==> c in clients && clients'[c] == clients[c]) && (c in ready ==> ready'[c] == ready[c]) {
      assert PassedAt(clients, ready, gone, clients', ready', c);
    }
    forall c ensures c in left <==> c in clients && HasEntry(gone, c) {
      assert PassedAt(clients, ready, gone, clients', ready', c);
    }
    assert answered <= left;
    assert ready'.Keys == ready.Keys + answered;
    assert Served(clients, ready, clients', ready') <==> answered == left;
  }

  /** The entries taken off the heap come before those left on it, and not after `now`. */
  ghost predicate Orderly(gone: Heap, heap: Heap, now: nat) {
    (forall e | e in gone :: e.at <= now) && forall e, f | e in gone && f in heap :: !Sooner(f, e)
  }

  lemma {:induction false} OrderlyOn(gone: Heap, heap: Heap, e: Deadline, now: nat)
    requires Orderly(gone, heap, now) && Soonest(heap, e) && e.at <= now
    ensures Orderly(gone + multiset{e}, heap - multiset{e}, now)
    ensures (gone + multiset{e}) + (heap - multiset{e}) == gone + heap
  {
  }

  lemma {:induction false} LaterEntries(heap: Heap, e: Deadline, now: nat)
    requires Soonest(heap, e) && e.at > now
    ensures forall f | f in heap :: f.at > now
  {
  }

  /** Whoever waits was not answered in this pass. */
  lemma {:induction false} FirstAnswer(clients0: Clients, ready0: Ready, gone: Heap, clients: Clients, ready: Ready, e: Deadline)
    requires Passed(clients0, ready0, gone, clients, ready) && clients0.Keys !! ready0.Keys
    ensures e.conn in clients ==> e.conn !in ready0
  {
    assert PassedAt(clients0, ready0, gone, clients, ready, e.conn);
  }

  lemma {:induction false} PassEnds(clients: Clients, ready: Ready, gone: Heap, clients': Clients, ready': Ready, expired: seq<Conn>)
    requires Passed(clients, ready, gone, clients', ready') && clients.Keys !! ready.Keys
    requires forall c :: c in expired <==> c in ready' && c !in ready
    ensures forall c :: c in expired <==> c in clients && OwnFirst(gone, c, clients[c].deadline)
  {
    forall c ensures c in expired <==> c in clients && OwnFirst(gone, c, clients[c].deadline) {
      assert PassedAt(clients, ready, gone, clients', ready', c);
    }
  }

  /** The same by the heap: who leaves, and who leaves with an answer. */
  lemma {:induction false} PassByHeap(clients: Clients, ready: Ready, heap: Heap, gone: Heap, now: nat, clients': Clients, ready': Ready)
    requires Passed(clients, ready, gone, clients', ready') && IsDue(gone, heap, now)
    ensures forall c | c in clients :: c in clients' <==> forall e | e in heap && e.conn == c :: e.at > now
    ensures forall c | c in clients ::
              OwnFirst(gone, c, clients[c].deadline) <==>
              && clients[c].deadline.Some? && clients[c].deadline.value <= now && Deadline(clients[c].deadline.value, c) in heap
              && forall e | e in heap && e.conn == c :: clients[c].deadline.value <= e.at
  {
    forall c | c in clients ensures c in clients' <==> forall e | e in heap && e.conn == c :: e.at > now {
      assert PassedAt(clients, ready, gone, clients', ready', c);
      if HasEntry(gone, c) {
        var at: nat :| Deadline(at, c) in gone;
        assert Deadline(at, c) in heap;
      } else {
        forall e | e in heap && e.conn == c ensures e.at > now {
          assert e == Deadline(e.at, c);
        }
      }
    }
  }

  lemma {:induction false} TimelyExpired(clients: Clients, ready: Ready, clients': Clients, ready': Ready, expired: seq<Conn>)
    requires Served(clients, ready, clients', ready') && clients.Keys !! ready.Keys
    requires forall c :: c in expired <==> c in ready' && c !in ready
    ensures forall c :: c in expired <==> c in clients && c !in clients'
  {
  }

  /** When the heap holds no leftovers: everybody past the deadline is answered, nobody else. */
  lemma {:induction false} TimelyPass(clients: Clients, ready: Ready, heap: Heap, gone: Heap, now: nat, clients': Clients, ready': Ready)
    requires Passed(clients, ready, gone, clients', ready') && clients.Keys !! ready.Keys
    requires IsDue(gone, heap, now) && Timed(heap, clients)
    ensures Served(clients, ready, clients', ready') && TimedOut(clients, clients', ready', now)
    ensures forall c | c in clients' && clients'[c].deadline.Some? :: clients'[c].deadline.value > now
  {
    forall c | c in clients && HasEntry(gone, c)
      ensures OwnFirst(gone, c, clients[c].deadline) && clients[c].deadline.value <= now
    {
      var at: nat :| Deadline(at, c) in gone;
    }
    AllAnsweredIff(clients, ready, gone, clients', ready');
    forall c | c in clients && c !in clients'
      ensures clients[c].deadline.Some? && clients[c].deadline.value <= now && c in ready' && ready'[c] == clients[c].onTimeout
    {
      assert PassedAt(clients, ready, gone, clients', ready', c);
    }
    forall c | c in clients' && clients'[c].deadline.Some? ensures clients'[c].deadline.value > now {
      assert PassedAt(clients, ready, gone, clients', ready', c);
      var d := Deadline(clients'[c].deadline.value, c);
      assert d in heap && !HasEntry(gone, c);
      assert d !in gone;
    }
  }

  /**
   A deadline left over from an earlier registration: client 1 waits until 10, but its connection once
   waited until 3.  A pass at time 5 drops it without an answer.
   */
  lemma {:induction false} LeftoverDropsClient(client: Client, gone: Heap, clients': Clients, ready': Ready)
    requires client.conn == 1 && client.deadline == Some(10)
    requires IsDue(gone, multiset{Deadline(3, 1), Deadline(10, 1)}, 5) && Passed(map[1 := client], map[], gone, clients', ready')
    ensures 1 !in clients' && 1 !in ready'
  {
    assert Deadline(3, 1) in gone && Deadline(10, 1) !in gone;
    assert HasEntry(gone, 1);
    assert PassedAt(map[1 := client], map[], gone, clients', ready', 1);
  }

  /** Without leftovers every deadline of the heap is its client's own. */
  lemma {:induction false} ExpireOwn(clients: Clients, ready: Ready, heap: Heap, e: Deadline)
    requires Timed(heap, clients) && e in heap && clients.Keys !! ready.Keys
    ensures var (clients', ready') := Expire(clients, ready, e.at, e.conn);
            && Served(clients, ready, clients', ready')
            && (e.conn in clients ==> clients[e.conn].deadline == Some(e.at))
  {
    if e.conn in clients {
      ServedOne(clients, ready, e.conn, clients[e.conn].onTimeout);
    }
  }

  lemma {:induction false} FairPopHeap(waiters: Waiters, clients: Clients, heap: Heap, stamps: Stamps, e: Deadline)
    requires Fair(waiters, clients, heap, stamps) && e in heap
    ensures Fair(waiters, Expire(clients, map[], e.at, e.conn).0, heap - multiset{e}, stamps)
  {
    var clients' := Expire(clients, map[], e.at, e.conn).0;
    FairWithin(waiters, clients, heap, stamps, clients');
  }

  /** Who leaves and who is answered in a pass, by the heap; and by the deadlines, when the heap holds no leftovers. */
  lemma {:induction false} PassOutcome(clients: Clients, ready: Ready, heap: Heap, gone: Heap, now: nat, clients': Clients, ready': Ready,
                                       expired: seq<Conn>)
    requires Passed(clients, ready, gone, clients', ready') && clients.Keys !! ready.Keys && IsDue(gone, heap, now)
    requires forall c :: c in expired <==> c in ready' && c !in ready
    ensures forall c :: c in expired <==> c in clients && OwnFirst(gone, c, clients[c].deadline)
    ensures forall c | c in clients :: c in clients' <==> forall e | e in heap && e.conn == c :: e.at > now
    ensures forall c | c in clients ::
              c in expired <==>
              && clients[c].deadline.Some? && clients[c].deadline.value <= now && Deadline(clients[c].deadline.value, c) in heap
              && forall e | e in heap && e.conn == c :: clients[c].deadline.value <= e.at
    ensures Timed(heap, clients) ==>
              && Served(clients, ready, clients', ready')
              && (forall c | c in clients :: c in clients' <==> clients[c].deadline.None? || clients[c].deadline.value > now)
              && (forall c :: c in expired <==> c in clients && c !in clients')
              && (forall c | c in expired :: c in ready' && ready'[c] == clients[c].onTimeout)
  {
    PassEnds(clients, ready, gone, clients', ready', expired);
    PassByHeap(clients, ready, heap, gone, now, clients', ready');
    if Timed(heap, clients) {
      TimelyPass(clients, ready, heap, gone, now, clients', ready');
      TimelyExpired(clients, ready, clients', ready', expired);
    }
  }

  ghost predicate TimedOut(clients: Clients, clients': Clients, ready': Ready, now: nat) {
    forall c | c in clients && c !in clients' ::
      && clients[c].deadline.Some? && clients[c].deadline.value <= now
      && c in ready' && ready'[c] == clients[c].onTimeout
  }
}
