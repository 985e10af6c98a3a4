/**
 The tables of the registry of blocked clients (senko-net/src/blocked.rs): a queue of connections
 per key, the waiting clients, the answers that are ready, and a heap of deadlines.  What it means
 that every key is served in the order of the registrations, and when a registration keeps that.
 */
module WaitQueues {
  import opened Common

  type Conn = nat
  type Key = Bytes

  /** What matters of a blocked command: where a move goes, and for whom a group is read. */
  datatype Op = Pop(kind: nat) | Move(dest: Key, kind: nat) | ReadGroup(group: Bytes, consumer: Bytes)

  datatype Response = NullBulk | NullArray | Unblocked | Reply(payload: Bytes)

  datatype Client = Client(conn: Conn, keys: seq<Key>, deadline: Option<nat>, op: Op, onTimeout: Response)

  type Waiters = map<Key, seq<Conn>>
  type Clients = map<Conn, Client>
  type Ready = map<Conn, Response>
  datatype Deadline = Deadline(at: nat, conn: Conn)
  type Heap = multiset<Deadline>

  function Queue(waiters: Waiters, key: Key): seq<Conn> {
    if key in waiters then waiters[key] else []
  }

  // ----- what holds between the tables -----

  /** Registration times; the registry itself does not keep them. */
  type Stamps = map<Conn, nat>

  /** Every waiting client sits in the queue of each of its keys. */
  ghost predicate Queued(waiters: Waiters, clients: Clients) {
    forall c, k | c in clients && k in clients[c].keys :: c in Queue(waiters, k)
  }

  /** A waiting client sits in no other queue. */
  ghost predicate Own(waiters: Waiters, clients: Clients) {
    forall k, i | k in waiters && 0 <= i < |waiters[k]| && waiters[k][i] in clients :: k in clients[waiters[k][i]].keys
  }

  /** Waiting clients stand in each queue in the order of their registrations. */
  ghost predicate InOrder(waiters: Waiters, clients: Clients, stamps: Stamps) {
    forall k, i, j | k in waiters && 0 <= i < j < |waiters[k]| && waiters[k][i] in clients && waiters[k][j] in clients ::
      Stamp(stamps, waiters[k][i]) <= Stamp(stamps, waiters[k][j])
  }

  ghost function Stamp(stamps: Stamps, c: Conn): nat {
    if c in stamps then stamps[c] else 0
  }

  /** The heap holds a waiting client's deadline and no other time for it. */
  ghost predicate Timed(heap: Heap, clients: Clients) {
    && (forall c | c in clients && clients[c].deadline.Some? :: Deadline(clients[c].deadline.value, c) in heap)
    && (forall e | e in heap && e.conn in clients :: clients[e.conn].deadline == Some(e.at))
  }

  ghost predicate Fair(waiters: Waiters, clients: Clients, heap: Heap, stamps: Stamps) {
    Queued(waiters, clients) && Own(waiters, clients) && InOrder(waiters, clients, stamps) && Timed(heap, clients)
  }

  ghost predicate Within<K(!new), V(!new)>(a: map<K, V>, b: map<K, V>) {
    forall x | x in a :: x in b && a[x] == b[x]
  }

  /** Clients that stopped waiting are exactly those that now have an answer; old answers stay. */
  ghost predicate Served(clients: Clients, ready: Ready, clients': Clients, ready': Ready) {
    && Within(clients', clients) && Within(ready, ready')
    && ready'.Keys == ready.Keys + (clients.Keys - clients'.Keys)
  }

  lemma {:induction false} ServedTwice(c0: Clients, r0: Ready, c1: Clients, r1: Ready, c2: Clients, r2: Ready)
    requires Served(c0, r0, c1, r1) && Served(c1, r1, c2, r2)
    ensures Served(c0, r0, c2, r2)
  {
  }

  lemma {:induction false} ServedOne(clients: Clients, ready: Ready, c: Conn, response: Response)
    requires c in clients && c !in ready
    ensures Served(clients, ready, clients - {c}, ready[c := response])
  {
  }

  /** Fewer clients wait, with the same queues: nothing is upset. */
  lemma {:induction false} FairWithin(waiters: Waiters, clients: Clients, heap: Heap, stamps: Stamps, clients': Clients)
    requires Fair(waiters, clients, heap, stamps) && Within(clients', clients)
    ensures Fair(waiters, clients', heap, stamps)
  {
  }

  /** The front of a queue goes, and it belongs to nobody who waits. */
  lemma {:induction false} FairPop(waiters: Waiters, clients: Clients, heap: Heap, stamps: Stamps, key: Key)
    requires Fair(waiters, clients, heap, stamps) && key in waiters && waiters[key] != [] && waiters[key][0] !in clients
    ensures Fair(waiters[key := waiters[key][1..]], clients, heap, stamps)
  {
    var waiters' := waiters[key := waiters[key][1..]];
    assert Queued(waiters', clients) by {
      forall c, k | c in clients && k in clients[c].keys ensures c in Queue(waiters', k) {
        assert c in Queue(waiters, k);
      }
    }
    assert Own(waiters', clients) by {
      forall k, i | k in waiters' && 0 <= i < |waiters'[k]| && waiters'[k][i] in clients
        ensures k in clients[waiters'[k][i]].keys
      {
        if k == key {
          assert waiters'[k][i] == waiters[k][i + 1];
        }
      }
    }
    assert InOrder(waiters', clients, stamps) by {
      forall k, i, j | k in waiters' && 0 <= i < j < |waiters'[k]| && waiters'[k][i] in clients && waiters'[k][j] in clients
        ensures Stamp(stamps, waiters'[k][i]) <= Stamp(stamps, waiters'[k][j])
      {
        if k == key {
          assert waiters'[k][i] == waiters[k][i + 1] && waiters'[k][j] == waiters[k][j + 1];
        }
      }
    }
  }

  // ----- the next client of a key -----

  /** The front of a queue stops waiting and goes. */
  lemma {:induction false} FairPopFirst(waiters: Waiters, clients: Clients, heap: Heap, stamps: Stamps, key: Key)
    requires Fair(waiters, clients, heap, stamps) && key in waiters && waiters[key] != []
    ensures Fair(waiters[key := waiters[key][1..]], clients - {waiters[key][0]}, heap, stamps)
  {
    var rest := clients - {waiters[key][0]};
    FairWithin(waiters, clients, heap, stamps, rest);
    FairPop(waiters, rest, heap, stamps, key);
  }

  function FirstLive(queue: seq<Conn>, clients: Clients): Option<Conn> {
    if queue == [] then None
    else if queue[0] in clients then Some(queue[0])
    else FirstLive(queue[1..], clients)
  }

  lemma {:induction false} FirstLiveIsFirst(queue: seq<Conn>, clients: Clients)
    ensures match FirstLive(queue, clients)
            case None => forall i | 0 <= i < |queue| :: queue[i] !in clients
            case Some(c) => c in clients && exists i | 0 <= i < |queue| ::
                              queue[i] == c && forall j | 0 <= j < i :: queue[j] !in clients
    decreases |queue|
  {
    if queue != [] && queue[0] !in clients {
      FirstLiveIsFirst(queue[1..], clients);
      if FirstLive(queue, clients).Some? {
        var i :| 0 <= i < |queue[1..]| && queue[1..][i] == FirstLive(queue, clients).value
                 && forall j | 0 <= j < i :: queue[1..][j] !in clients;
        assert queue[i + 1] == FirstLive(queue, clients).value;
        forall j | 0 <= j < i + 1 ensures queue[j] !in clients {
          if j > 0 {
            assert queue[j] == queue[1..][j - 1];
          }
        }
      } else {
        forall i | 0 <= i < |queue| ensures queue[i] !in clients {
          if i > 0 {
            assert queue[i] == queue[1..][i - 1];
          }
        }
      }
    }
  }

  /** A key is served in registration order: nobody who waits for it registered earlier. */
  lemma {:induction false} ServedInOrder(waiters: Waiters, clients: Clients, heap: Heap, stamps: Stamps, key: Key, c: Conn)
    requires Fair(waiters, clients, heap, stamps) && c in clients && key in clients[c].keys
    ensures var first := FirstLive(Queue(waiters, key), clients);
            && first.Some? && first.value in clients && key in clients[first.value].keys
            && Stamp(stamps, first.value) <= Stamp(stamps, c)
  {
    FirstLiveIsFirst(Queue(waiters, key), clients);
    assert c in Queue(waiters, key);
    var queue := waiters[key];
    var at :| 0 <= at < |queue| && queue[at] == c;
    var first := FirstLive(queue, clients).value;
    var i :| 0 <= i < |queue| && queue[i] == first && forall j | 0 <= j < i :: queue[j] !in clients;
    assert i <= at;
  }

  // ----- registration -----

  function Enqueue(waiters: Waiters, keys: seq<Key>, c: Conn): Waiters
    decreases |keys|
  {
    if keys == [] then waiters
    else Enqueue(waiters[keys[0] := Queue(waiters, keys[0]) + [c]], keys[1..], c)
  }

  /** Old entries stay in front; the new ones are the connection's, in the queues of its keys. */
  ghost predicate Extended(queue: seq<Conn>, queue': seq<Conn>, c: Conn, grown: bool) {
    && |queue| <= |queue'| && (|queue'| > |queue| <==> grown)
    && (forall i | 0 <= i < |queue| :: queue'[i] == queue[i])
    && (forall i | |queue| <= i < |queue'| :: queue'[i] == c)
  }

  lemma {:induction false} EnqueuedQueue(waiters: Waiters, keys: seq<Key>, c: Conn, k: Key)
    ensures Extended(Queue(waiters, k), Queue(Enqueue(waiters, keys, c), k), c, k in keys)
    ensures k in Enqueue(waiters, keys, c) <==> k in waiters || k in keys
    decreases |keys|
  {
    if keys != [] {
      var next := waiters[keys[0] := Queue(waiters, keys[0]) + [c]];
      EnqueuedQueue(next, keys[1..], c, k);
      assert k in keys <==> k == keys[0] || k in keys[1..];
    }
  }

  /** Each queue grows by as many entries as the key is named. */
  lemma {:induction false} EnqueuedExactly(waiters: Waiters, keys: seq<Key>, c: Conn, k: Key)
    ensures Queue(Enqueue(waiters, keys, c), k) == Queue(waiters, k) + seq(multiset(keys)[k], _ => c)
    decreases |keys|
  {
    if keys != [] {
      var next := waiters[keys[0] := Queue(waiters, keys[0]) + [c]];
      EnqueuedExactly(next, keys[1..], c, k);
      assert keys == [keys[0]] + keys[1..];
      var n := multiset(keys[1..])[k];
      assert [c] + seq(n, _ => c) == seq(n + 1, _ => c);
    }
  }

  ghost predicate Joins(waiters: Waiters, waiters': Waiters, keys: seq<Key>, c: Conn) {
    forall k :: Queue(waiters', k) == Queue(waiters, k) + seq(multiset(keys)[k], _ => c)
  }

  lemma {:induction false} Registered(waiters: Waiters, keys: seq<Key>, c: Conn)
    ensures Joins(waiters, Enqueue(waiters, keys, c), keys, c)
  {
    forall k ensures Queue(Enqueue(waiters, keys, c), k) == Queue(waiters, k) + seq(multiset(keys)[k], _ => c) {
      EnqueuedExactly(waiters, keys, c, k);
    }
  }

  function WithDeadline(heap: Heap, client: Client): Heap {
    if client.deadline.Some? then heap + multiset{Deadline(client.deadline.value, client.conn)} else heap
  }

  /** Entries that an earlier registration left behind do no harm to this one. */
  ghost predicate Harmless(waiters: Waiters, clients: Clients, heap: Heap, client: Client) {
    && (forall k, i | k in waiters && 0 <= i < |waiters[k]| && waiters[k][i] == client.conn :: k in client.keys)
    && (forall k, i, j | k in waiters && 0 <= i < j < |waiters[k]| && waiters[k][i] == client.conn ::
          waiters[k][j] !in clients)
    && (forall e | e in heap && e.conn == client.conn :: client.deadline == Some(e.at))
  }

  /** A connection without leftovers is always harmless. */
  lemma {:induction false} NoLeftovers(waiters: Waiters, clients: Clients, heap: Heap, client: Client)
    requires forall k | k in waiters :: client.conn !in waiters[k]
    requires forall e | e in heap :: e.conn != client.conn
    ensures Harmless(waiters, clients, heap, client)
  {
  }

  /** What a registration must find for the registry to stay fair, given that it was. */
  ghost predicate CanRegister(clients: Clients, stamps: Stamps, clock: nat, client: Client) {
    client.conn !in clients && forall x | x in clients :: Stamp(stamps, x) < clock
  }

  lemma {:induction false} RegisterFair(waiters: Waiters, clients: Clients, heap: Heap, stamps: Stamps, clock: nat, client: Client)
    requires Fair(waiters, clients, heap, stamps) && CanRegister(clients, stamps, clock, client)
    requires Harmless(waiters, clients, heap, client)
    ensures Fair(Enqueue(waiters, client.keys, client.conn), clients[client.conn := client],
                 WithDeadline(heap, client), stamps[client.conn := clock])
  {
    var c := client.conn;
    var waiters', clients', stamps' := Enqueue(waiters, client.keys, c), clients[c := client], stamps[c := clock];
    assert Queued(waiters', clients') by {
      forall x, k | x in clients' && k in clients'[x].keys ensures x in Queue(waiters', k) {
        EnqueuedQueue(waiters, client.keys, c, k);
        if x != c {
          assert x in Queue(waiters, k);
          var i :| 0 <= i < |Queue(waiters, k)| && Queue(waiters, k)[i] == x;
          assert Queue(waiters', k)[i] == x;
        } else {
          assert Queue(waiters', k)[|Queue(waiters, k)|] == x;
        }
      }
    }
    assert Own(waiters', clients') by {
      forall k, i | k in waiters' && 0 <= i < |waiters'[k]| && waiters'[k][i] in clients'
        ensures k in clients'[waiters'[k][i]].keys
      {
        EnqueuedQueue(waiters, client.keys, c, k);
        if i < |Queue(waiters, k)| {
          assert waiters'[k][i] == waiters[k][i];
        }
      }
    }
    assert InOrder(waiters', clients', stamps') by {
      forall k, i, j | k in waiters' && 0 <= i < j < |waiters'[k]| && waiters'[k][i] in clients' && waiters'[k][j] in clients'
        ensures Stamp(stamps', waiters'[k][i]) <= Stamp(stamps', waiters'[k][j])
      {
        EnqueuedQueue(waiters, client.keys, c, k);
        if j < |Queue(waiters, k)| {
          assert waiters'[k][i] == waiters[k][i] && waiters'[k][j] == waiters[k][j];
        }
      }
    }
  }

  lemma {:induction false} UnfairIfHarmful(waiters: Waiters, clients: Clients, heap: Heap, stamps: Stamps, clock: nat, client: Client)
    requires CanRegister(clients, stamps, clock, client)
    requires Fair(Enqueue(waiters, client.keys, client.conn), clients[client.conn := client],
                  WithDeadline(heap, client), stamps[client.conn := clock])
    ensures Harmless(waiters, clients, heap, client)
  {
    var c := client.conn;
    var waiters', clients', stamps' := Enqueue(waiters, client.keys, c), clients[c := client], stamps[c := clock];
    forall k, i | k in waiters && 0 <= i < |waiters[k]| && waiters[k][i] == c ensures k in client.keys {
      EnqueuedQueue(waiters, client.keys, c, k);
      assert waiters'[k][i] == c;
    }
    forall k, i, j | k in waiters && 0 <= i < j < |waiters[k]| && waiters[k][i] == c ensures waiters[k][j] !in clients {
      EnqueuedQueue(waiters, client.keys, c, k);
      assert waiters'[k][i] == c && waiters'[k][j] == waiters[k][j];
      assert waiters'[k][j] in clients' ==> Stamp(stamps', waiters'[k][i]) <= Stamp(stamps', waiters'[k][j]);
    }
    forall e | e in heap && e.conn == c ensures client.deadline == Some(e.at) {
      assert e in WithDeadline(heap, client);
    }
  }

  /** A registration keeps the registry fair exactly when what it finds of itself is harmless. */
  lemma {:induction false} RegisterFairIff(waiters: Waiters, clients: Clients, heap: Heap, stamps: Stamps, clock: nat, client: Client)
    requires Fair(waiters, clients, heap, stamps) && CanRegister(clients, stamps, clock, client)
    ensures Fair(Enqueue(waiters, client.keys, client.conn), clients[client.conn := client],
                 WithDeadline(heap, client), stamps[client.conn := clock])
            <==> Harmless(waiters, clients, heap, client)
  {
    if Harmless(waiters, clients, heap, client) {
      RegisterFair(waiters, clients, heap, stamps, clock, client);
    } else if Fair(Enqueue(waiters, client.keys, client.conn), clients[client.conn := client],
                   WithDeadline(heap, client), stamps[client.conn := clock]) {
      UnfairIfHarmful(waiters, clients, heap, stamps, clock, client);
    }
  }

  /** The same for a connection that may wait already: its earlier registration is overwritten, and its entries are leftovers. */
  lemma {:induction false} ReregisterFairIff(waiters: Waiters, clients: Clients, heap: Heap, stamps: Stamps, clock: nat, client: Client)
    requires Fair(waiters, clients, heap, stamps) && forall x | x in clients :: Stamp(stamps, x) < clock
    ensures Fair(Enqueue(waiters, client.keys, client.conn), clients[client.conn := client],
                 WithDeadline(heap, client), stamps[client.conn := clock])
            <==> Harmless(waiters, clients - {client.conn}, heap, client)
  {
    var others := clients - {client.conn};
    FairWithin(waiters, clients, heap, stamps, others);
    RegisterFairIff(waiters, others, heap, stamps, clock, client);
    assert others[client.conn := client] == clients[client.conn := client];
  }

  /**
   A client that was answered through one key leaves an entry in its other queues.  When it
   registers again for such a key it is served before a client that has waited longer.
   */
  lemma {:induction false} LeftoverJumpsQueue(key: Key, op: Op)
    ensures var waiters: Waiters, clients: Clients := map[key := [1, 2]], map[2 := Client(2, [key], None, op, NullArray)];
            var again := Client(1, [key], None, op, NullArray);
            var stamps: Stamps := map[2 := 5];
            && Fair(waiters, clients, multiset{}, stamps) && CanRegister(clients, stamps, 6, again)
            && FirstLive(Queue(Enqueue(waiters, [key], 1), key), clients[1 := again]) == Some(1)
  {
    var waiters: Waiters := map[key := [1, 2]];
    assert [key][1..] == [];
    assert Queue(Enqueue(waiters, [key], 1), key) == [1, 2, 1];
  }

  // ----- queue lengths -----

  /** All queue positions: the measure that every look at a queue lowers. */
  ghost function Slots(waiters: Waiters): set<(Key, nat)> {
    set k, i: nat | k in waiters && i < |waiters[k]| :: (k, i)
  }

  lemma {:induction false} SlotsPop(waiters: Waiters, key: Key)
    requires key in waiters && waiters[key] != []
    ensures Slots(waiters[key := waiters[key][1..]]) < Slots(waiters)
  {
    var waiters' := waiters[key := waiters[key][1..]];
    assert (key, |waiters[key]| - 1) in Slots(waiters);
    assert (key, |waiters[key]| - 1) !in Slots(waiters');
  }

  /** Every queue is what is left of it when some of its front has gone. */
  ghost predicate Shrunk(waiters: Waiters, waiters': Waiters) {
    forall k :: |Queue(waiters', k)| <= |Queue(waiters, k)| &&
                Queue(waiters', k) == Queue(waiters, k)[|Queue(waiters, k)| - |Queue(waiters', k)|..]
  }

  lemma {:induction false} ShrunkTwice(w0: Waiters, w1: Waiters, w2: Waiters)
    requires Shrunk(w0, w1) && Shrunk(w1, w2)
    ensures Shrunk(w0, w2)
  {
    forall k ensures |Queue(w2, k)| <= |Queue(w0, k)| && Queue(w2, k) == Queue(w0, k)[|Queue(w0, k)| - |Queue(w2, k)|..] {
      assert Queue(w1, k) == Queue(w0, k)[|Queue(w0, k)| - |Queue(w1, k)|..];
    }
  }

  lemma {:induction false} ShrunkPop(waiters: Waiters, key: Key)
    requires key in waiters && waiters[key] != []
    ensures Shrunk(waiters, waiters[key := waiters[key][1..]]) && Shrunk(waiters, waiters)
  {
  }

  ghost predicate SameElsewhere(waiters: Waiters, waiters': Waiters, key: Key) {
    forall k | k != key :: Queue(waiters', k) == Queue(waiters, k)
  }

  lemma {:induction false} SameElsewhereTwice(w0: Waiters, w1: Waiters, w2: Waiters, key: Key)
    requires SameElsewhere(w0, w1, key) && SameElsewhere(w1, w2, key)
    ensures SameElsewhere(w0, w2, key)
  {
    forall k | k != key ensures Queue(w2, k) == Queue(w0, k) {
      assert Queue(w1, k) == Queue(w0, k);
    }
  }

  /** A queue goes, together with everybody in it. */
  lemma {:induction false} FairWithout(waiters: Waiters, clients: Clients, heap: Heap, stamps: Stamps, key: Key, clients': Clients)
    requires Fair(waiters, clients, heap, stamps) && Within(clients', clients)
    requires forall c | c in clients' :: c !in Queue(waiters, key)
    ensures Fair(waiters - {key}, clients', heap, stamps) && forall c | c in clients' :: key !in clients'[c].keys
  {
    FairWithin(waiters, clients, heap, stamps, clients');
    forall c, k | c in clients' && k in clients'[c].keys ensures k != key && c in Queue(waiters - {key}, k) {
      assert c in Queue(waiters, k);
    }
  }

  /** Connections put back into a drained queue, in the order in which they registered. */
  ghost predicate Sorted(conns: seq<Conn>, stamps: Stamps) {
    forall i, j | 0 <= i < j < |conns| :: Stamp(stamps, conns[i]) <= Stamp(stamps, conns[j])
  }

  lemma {:induction false} FairRequeue(waiters: Waiters, clients: Clients, heap: Heap, stamps: Stamps, waiters': Waiters, key: Key,
                    conns: seq<Conn>, clients': Clients)
    requires Fair(waiters, clients, heap, stamps) && Within(clients', clients)
    requires SameElsewhere(waiters, waiters', key) && Queue(waiters', key) == conns
    requires Sorted(conns, stamps)
    requires forall c | c in conns && c in clients' :: key in clients'[c].keys
    requires forall c | c in clients' && key in clients'[c].keys :: c in conns
    ensures Fair(waiters', clients', heap, stamps)
  {
    FairWithin(waiters, clients, heap, stamps, clients');
    forall c, k | c in clients' && k in clients'[c].keys ensures c in Queue(waiters', k) {
      assert c in Queue(waiters, k);
    }
    forall k, i | k in waiters' && 0 <= i < |waiters'[k]| && waiters'[k][i] in clients'
      ensures k in clients'[waiters'[k][i]].keys
    {
      if k == key {
        assert waiters'[k][i] in conns;
      } else {
        assert Queue(waiters, k)[i] == waiters'[k][i];
      }
    }
    forall k, i, j | k in waiters' && 0 <= i < j < |waiters'[k]| && waiters'[k][i] in clients' && waiters'[k][j] in clients'
      ensures Stamp(stamps, waiters'[k][i]) <= Stamp(stamps, waiters'[k][j])
    {
      if k != key {
        assert Queue(waiters, k)[i] == waiters'[k][i] && Queue(waiters, k)[j] == waiters'[k][j];
      }
    }
  }
}
