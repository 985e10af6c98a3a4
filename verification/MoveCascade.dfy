/**
 What the cascade after a move hands out (`notify` of senko-net/src/blocked.rs): everybody in the
 queue of the destination is served, whether or not anything is left.
 */
module MoveCascade {
  import opened Common
  import opened WaitQueues

  datatype Handed<Store> = Handed(answers: seq<(Conn, Response)>, store: Store)

  /** Each in turn is served from what those before it have left. */
  function ServeAll<Store>(execute: (Store, Key, Client) -> (Store, Response), key: Key, live: seq<Client>, store: Store): Handed<Store>
    decreases |live|
  {
    if live == [] then Handed([], store)
    else
      var (next, response) := execute(store, key, live[0]);
      Behind([(live[0].conn, response)], ServeAll(execute, key, live[1..], next))
  }

  function Behind<Store>(first: seq<(Conn, Response)>, rest: Handed<Store>): Handed<Store> {
    Handed(first + rest.answers, rest.store)
  }

  ghost predicate TurnOf<Store(!new)>(execute: (Store, Key, Client) -> (Store, Response), key: Key, live: seq<Client>,
                                      stores: seq<Store>, answers: seq<(Conn, Response)>, i: nat)
    requires i < |live| == |answers| && |stores| == |live| + 1
  {
    answers[i].0 == live[i].conn && execute(stores[i], key, live[i]) == (stores[i + 1], answers[i].1)
  }

  /** Everybody gets an answer, in the order of the queue, from the store that the one before has left. */
  lemma {:induction false} InTurn<Store(!new)>(execute: (Store, Key, Client) -> (Store, Response), key: Key, live: seq<Client>, store: Store)
    returns (stores: seq<Store>)
    ensures var handed := ServeAll(execute, key, live, store);
            && |handed.answers| == |live| && |stores| == |live| + 1 && stores[0] == store && stores[|live|] == handed.store
            && forall i: nat | i < |live| :: TurnOf(execute, key, live, stores, handed.answers, i)
    decreases |live|
  {
    stores := [store];
    if live != [] {
      var (next, response) := execute(store, key, live[0]);
      var later := InTurn(execute, key, live[1..], next);
      stores := [store] + later;
      var handed, rest := ServeAll(execute, key, live, store), ServeAll(execute, key, live[1..], next);
      forall i: nat | i < |live| ensures TurnOf(execute, key, live, stores, handed.answers, i) {
        if i > 0 {
          assert TurnOf(execute, key, live[1..], later, rest.answers, i - 1);
        }
      }
    }
  }

  ghost predicate NoMoves(live: seq<Client>) {
    forall i | 0 <= i < |live| :: !live[i].op.Move?
  }

  ghost predicate AllIn(answers: seq<(Conn, Response)>, ready: Ready) {
    forall i | 0 <= i < |answers| :: answers[i].0 in ready && ready[answers[i].0] == answers[i].1
  }

  /** One is served, the others remain. */
  lemma {:induction false} ServeOn<Store>(execute: (Store, Key, Client) -> (Store, Response), key: Key, client: Client,
                                          rest: seq<Client>, store: Store, done: seq<(Conn, Response)>)
    ensures var (next, response) := execute(store, key, client);
            Behind(done, ServeAll(execute, key, [client] + rest, store)) ==
            Behind(done + [(client.conn, response)], ServeAll(execute, key, rest, next))
  {
    assert ([client] + rest)[1..] == rest;
    var (next, response) := execute(store, key, client);
    Assoc(done, [(client.conn, response)], ServeAll(execute, key, rest, next).answers);
  }

  lemma {:induction false} HandOne<Store>(execute: (Store, Key, Client) -> (Store, Response), key: Key, client: Client, rest: seq<Client>,
                                          store: Store, done: seq<(Conn, Response)>, ready: Ready, ready': Ready)
    requires NoMoves([client] + rest) && AllIn(done, ready) && Within(ready, ready')
    requires client.conn in ready' && ready'[client.conn] == execute(store, key, client).1
    ensures var done' := done + [(client.conn, ready'[client.conn])];
            && NoMoves(rest) && AllIn(done', ready')
            && Behind(done, ServeAll(execute, key, [client] + rest, store)) ==
               Behind(done', ServeAll(execute, key, rest, execute(store, key, client).0))
  {
    forall i | 0 <= i < |rest| ensures !rest[i].op.Move? {
      assert ([client] + rest)[i + 1] == rest[i];
    }
    ServeOn(execute, key, client, rest, store, done);
  }

  /** A pop takes one element; where there is none it answers with nothing. */
  ghost predicate TakesOne<Store(!new)>(execute: (Store, Key, Client) -> (Store, Response), key: Key, size: Store -> nat) {
    forall store: Store, client: Client | client.op.Pop? ::
      var (next, response) := execute(store, key, client);
      if size(store) == 0 then next == store && response == NullArray
      else size(next) == size(store) - 1 && response.Reply?
  }

  /** Of those who wait with a pop, one is answered with nothing exactly when there are at least as many before it as elements. */
  lemma {:induction false} NothingLeftIff<Store(!new)>(execute: (Store, Key, Client) -> (Store, Response), key: Key,
                                                       size: Store -> nat, live: seq<Client>, store: Store, i: nat)
    requires TakesOne(execute, key, size) && i < |live| && forall j | 0 <= j < |live| :: live[j].op.Pop?
    ensures var answers := ServeAll(execute, key, live, store).answers;
            && |answers| == |live| && answers[i].0 == live[i].conn
            && (answers[i].1 == NullArray <==> size(store) <= i)
    decreases |live|
  {
    var (next, response) := execute(store, key, live[0]);
    if |live| > 1 {
      NothingLeftIff(execute, key, size, live[1..], next, if i > 0 then i - 1 else 0);
    }
  }

  /** A list as its length: a pop takes one element. */
  function PopOne(length: nat, key: Key, client: Client): (nat, Response) {
    if length == 0 then (0, NullArray) else (length - 1, Reply([]))
  }

  /** Two who wait for a list that a move gives one element: the second no longer waits and has nothing. */
  lemma {:induction false} SecondGetsNothing(key: Key, first: Client, second: Client)
    ensures ServeAll(PopOne, key, [first, second], 1).answers == [(first.conn, Reply([])), (second.conn, NullArray)]
  {
    assert [first, second][1..] == [second] && [second][1..] == [];
    assert ServeAll(PopOne, key, [second], 0).answers == [(second.conn, NullArray)] + ServeAll(PopOne, key, [], 0).answers;
  }
}
