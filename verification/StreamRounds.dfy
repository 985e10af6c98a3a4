/**
 A round of offers client by client (`notify_stream` of senko-net/src/blocked.rs): who is executed, on
 what store, and who is answered with what, told by the fields of the blocked operations alone.
 */
module StreamRounds {
  import opened Common
  import opened WaitQueues
  import opened StreamOffers

  // ----- picking from a sequence -----

  /** In ascending order the positions below `n` that are to be kept. */
  ghost predicate Selects(at: seq<nat>, n: nat, keep: nat -> bool) {
    (forall k, l | 0 <= k < l < |at| :: at[k] < at[l]) && forall i: nat :: i in at <==> i < n && keep(i)
  }

  ghost function Later(at: seq<nat>): seq<nat> {
    seq(|at|, k requires 0 <= k < |at| => at[k] + 1)
  }

  lemma {:induction false} LaterIn(at: seq<nat>, i: nat)
    ensures i in Later(at) <==> i > 0 && i - 1 in at
  {
    if i > 0 && i - 1 in at {
      var k :| 0 <= k < |at| && at[k] == i - 1;
      assert Later(at)[k] == i;
    }
  }

  lemma {:induction false} SelectsOn(at: seq<nat>, n: nat, rest: nat -> bool, keep: nat -> bool)
    requires Selects(at, n, rest) && forall i: nat | 0 < i <= n :: keep(i) == rest(i - 1)
    ensures Selects((if keep(0) then [0] else []) + Later(at), n + 1, keep)
  {
    var all := (if keep(0) then [0] else []) + Later(at);
    forall i: nat ensures i in all <==> i < n + 1 && keep(i) {
      LaterIn(at, i);
    }
  }

  /** `out` takes from `all` what stands at these positions. */
  ghost predicate Picked<T>(out: seq<T>, at: seq<nat>, all: seq<T>) {
    |out| == |at| && forall k | 0 <= k < |at| :: at[k] < |all| && out[k] == all[at[k]]
  }

  lemma {:induction false} PickedOn<T>(out: seq<T>, at: seq<nat>, all: seq<T>, x: T, take: bool)
    requires Picked(out, at, all)
    ensures Picked((if take then [x] else []) + out, (if take then [0] else []) + Later(at), [x] + all)
  {
  }

  // ----- the queue -----

  ghost predicate StandsFirst(queue: seq<Conn>, clients: Clients, i: nat) {
    i < |queue| && queue[i] in clients && forall j | 0 <= j < i :: queue[j] != queue[i]
  }

  lemma {:induction false} StandsFirstOn(queue: seq<Conn>, clients: Clients, i: nat)
    requires 0 < i < |queue|
    ensures StandsFirst(queue, clients, i) <==> StandsFirst(queue[1..], clients - {queue[0]}, i - 1)
  {
    if StandsFirst(queue[1..], clients - {queue[0]}, i - 1) {
      forall j | 0 <= j < i ensures queue[j] != queue[i] {
        assert j > 0 ==> queue[1..][j - 1] == queue[j];
      }
    }
    if StandsFirst(queue, clients, i) {
      forall j | 0 <= j < i - 1 ensures queue[1..][j] != queue[1..][i - 1] {
        assert queue[j + 1] != queue[i];
      }
    }
  }

  /** The live queue: those who stand in the queue and wait, each once, in the order in which they first stand there. */
  lemma {:induction false} LiveQueueMeaning(queue: seq<Conn>, clients: Clients) returns (at: seq<nat>)
    requires forall c | c in clients :: clients[c].conn == c
    ensures Selects(at, |queue|, (i: nat) => StandsFirst(queue, clients, i)) && Picked(Conns(LiveQueue(queue, clients)), at, queue)
    ensures forall q | q in LiveQueue(queue, clients) :: q.conn in clients && clients[q.conn] == q
    decreases |queue|
  {
    if queue == [] {
      at := [];
    } else {
      var first, tail, others := queue[0] in clients, queue[1..], clients - {queue[0]};
      var rest := LiveQueueMeaning(tail, others);
      var keep, keep' := (i: nat) => StandsFirst(queue, clients, i), (i: nat) => StandsFirst(tail, others, i);
      forall i: nat | 0 < i <= |tail| ensures keep(i) == keep'(i - 1) {
        StandsFirstOn(queue, clients, i);
      }
      SelectsOn(rest, |tail|, keep', keep);
      at := (if first then [0] else []) + Later(rest);
      LiveQueueOn(queue, clients, rest);
    }
  }

  lemma {:induction false} LiveQueueOn(queue: seq<Conn>, clients: Clients, rest: seq<nat>)
    requires queue != [] && forall c | c in clients :: clients[c].conn == c
    requires Picked(Conns(LiveQueue(queue[1..], clients - {queue[0]})), rest, queue[1..])
    ensures Picked(Conns(LiveQueue(queue, clients)), (if queue[0] in clients then [0] else []) + Later(rest), queue)
    ensures forall q | q in LiveQueue(queue, clients) ::
              q in LiveQueue(queue[1..], clients - {queue[0]}) || (queue[0] in clients && q == clients[queue[0]])
  {
    var live := LiveQueue(queue[1..], clients - {queue[0]});
    PickedOn(Conns(live), rest, queue[1..], queue[0], queue[0] in clients);
    assert [queue[0]] + queue[1..] == queue;
    if queue[0] in clients {
      assert Conns([clients[queue[0]]] + live) == [queue[0]] + Conns(live);
    } else {
      assert clients - {queue[0]} == clients && [] + Conns(live) == Conns(live);
    }
  }

  lemma {:induction false} NobodyStandsTwice(queue: seq<Conn>, clients: Clients)
    requires forall c | c in clients :: clients[c].conn == c
    ensures var live := LiveQueue(queue, clients);
            && (forall i | 0 <= i < |live| :: live[i].conn in clients && clients[live[i].conn] == live[i])
            && (forall i, j | 0 <= i < j < |live| :: live[i].conn != live[j].conn)
  {
    var live := LiveQueue(queue, clients);
    var at := LiveQueueMeaning(queue, clients);
    forall i, j | 0 <= i < j < |live| ensures live[i].conn != live[j].conn {
      assert at[j] in at && StandsFirst(queue, clients, at[j]);
      assert Conns(live)[i] == queue[at[i]] && Conns(live)[j] == queue[at[j]];
    }
  }

  // ----- the round -----

  /** Nobody earlier in the queue reads for the same consumer of the same group. */
  ghost predicate FirstOfConsumer(live: seq<Client>, i: nat)
    requires i < |live|
  {
    live[i].op.ReadGroup? ==>
      forall j | 0 <= j < i && live[j].op.ReadGroup? ::
        live[j].op.group != live[i].op.group || live[j].op.consumer != live[i].op.consumer
  }

  /**
   The stores and the responses of a round.  The first client of each consumer of a group, and
   everybody who does not read for a group, is executed, on the store that those before have left;
   the others are passed over.
   */
  ghost predicate Turns<Store>(execute: (Store, Key, Client) -> (Store, Response), key: Key, live: seq<Client>, store: Store,
                               stores: seq<Store>, responses: seq<Response>, store': Store) {
    && |stores| == |live| + 1 && |responses| == |live| && stores[0] == store && stores[|live|] == store'
    && forall i: nat | i < |live| ::
         if FirstOfConsumer(live, i) then (stores[i + 1], responses[i]) == execute(stores[i], key, live[i])
         else stores[i + 1] == stores[i] && responses[i] == NullBulk
  }

  /** A round from the middle, with some consumers seen before. */
  ghost predicate TurnsFrom<Store>(execute: (Store, Key, Client) -> (Store, Response), key: Key, live: seq<Client>, seen: Pairs, store: Store,
                                   stores: seq<Store>, responses: seq<Response>, store': Store) {
    && |stores| == |live| + 1 && |responses| == |live| && stores[0] == store && stores[|live|] == store'
    && forall i: nat | i < |live| ::
         if Executes(live, seen, i) then (stores[i + 1], responses[i]) == execute(stores[i], key, live[i])
         else stores[i + 1] == stores[i] && responses[i] == NullBulk
  }

  lemma {:induction false} TurnsOn<Store>(execute: (Store, Key, Client) -> (Store, Response), key: Key, live: seq<Client>, seen: Pairs, store: Store,
                                          stores: seq<Store>, responses: seq<Response>, store': Store, next: Store, response: Response)
    requires live != []
    requires if Repeats(live[0].op, seen) then next == store && response == NullBulk else (next, response) == execute(store, key, live[0])
    requires TurnsFrom(execute, key, live[1..], Seen(live[0].op, seen), next, stores, responses, store')
    ensures TurnsFrom(execute, key, live, seen, store, [store] + stores, [response] + responses, store')
  {
    forall i: nat | 0 < i < |live| ensures Executes(live, seen, i) <==> Executes(live[1..], Seen(live[0].op, seen), i - 1) {
      ExecutesOn(live, seen, i);
    }
  }

  lemma {:induction false} EarlierToo(live: seq<Client>, i: nat)
    requires 0 < i < |live|
    ensures FirstOfConsumer(live, i) <==>
            FirstOfConsumer(live[1..], i - 1) && (live[0].op.ReadGroup? && live[i].op.ReadGroup? ==>
              live[0].op.group != live[i].op.group || live[0].op.consumer != live[i].op.consumer)
  {
    if FirstOfConsumer(live, i) && live[i].op.ReadGroup? {
      assert forall j | 0 <= j < i - 1 :: live[1..][j] == live[j + 1];
    }
    if live[i].op.ReadGroup? && FirstOfConsumer(live[1..], i - 1) {
      forall j | 0 < j < i && live[j].op.ReadGroup?
        ensures live[j].op.group != live[i].op.group || live[j].op.consumer != live[i].op.consumer
      {
        assert live[1..][j - 1] == live[j];
      }
    }
  }

  function WithConns(live: seq<Client>, responses: seq<Response>): seq<(Conn, Response)>
    requires |responses| == |live|
  {
    seq(|live|, i requires 0 <= i < |live| => (live[i].conn, responses[i]))
  }

  ghost predicate Got(responses: seq<Response>, i: nat) {
    i < |responses| && responses[i] != NullBulk
  }

  /** Whoever got something is answered with it, the others wait on, both in the order of the queue. */
  ghost predicate Gathers<Store>(round: Offers<Store>, live: seq<Client>, responses: seq<Response>, at: seq<nat>, off: seq<nat>) {
    && |responses| == |live| && Selects(at, |live|, (i: nat) => Got(responses, i)) && Selects(off, |live|, (i: nat) => !Got(responses, i))
    && Picked(round.answers, at, WithConns(live, responses)) && Picked(round.aside, off, live)
  }

  lemma {:induction false} GathersOn<Store>(rest: Offers<Store>, round: Offers<Store>, live: seq<Client>, responses: seq<Response>, at: seq<nat>, off: seq<nat>,
                                            response: Response) returns (at': seq<nat>, off': seq<nat>)
    requires live != [] && Gathers(rest, live[1..], responses, at, off)
    requires round == if response == NullBulk then Then([], [live[0]], rest) else Then([(live[0].conn, response)], [], rest)
    ensures Gathers(round, live, [response] + responses, at', off')
  {
    var some := response != NullBulk;
    var all := [response] + responses;
    SelectsOn(at, |live| - 1, (i: nat) => Got(responses, i), (i: nat) => Got(all, i));
    SelectsOn(off, |live| - 1, (i: nat) => !Got(responses, i), (i: nat) => !Got(all, i));
    PickedOn(rest.answers, at, WithConns(live[1..], responses), (live[0].conn, response), some);
    PickedOn(rest.aside, off, live[1..], live[0], !some);
    at' := (if some then [0] else []) + Later(at);
    off' := (if !some then [0] else []) + Later(off);
    assert [(live[0].conn, response)] + WithConns(live[1..], responses) == WithConns(live, [response] + responses);
    assert [live[0]] + live[1..] == live;
  }

  /** Who is executed in a round, on what, and what becomes of the responses. */
  lemma {:induction false} RoundTurns<Store>(execute: (Store, Key, Client) -> (Store, Response), key: Key, live: seq<Client>, seen: Pairs, store: Store)
      returns (stores: seq<Store>, responses: seq<Response>, at: seq<nat>, off: seq<nat>)
    ensures var round := OfferAll(execute, key, live, seen, store);
            TurnsFrom(execute, key, live, seen, store, stores, responses, round.store) && Gathers(round, live, responses, at, off)
    decreases |live|
  {
    if live == [] {
      stores, responses, at, off := [store], [], [], [];
    } else {
      var repeats := Repeats(live[0].op, seen);
      var (next, response) := if repeats then (store, NullBulk) else execute(store, key, live[0]);
      stores, responses, at, off := RoundTurns(execute, key, live[1..], Seen(live[0].op, seen), next);
      var rest := OfferAll(execute, key, live[1..], Seen(live[0].op, seen), next);
      assert repeats ==> Seen(live[0].op, seen) == seen;
      TurnsOn(execute, key, live, seen, store, stores, responses, rest.store, next, response);
      at, off := GathersOn(rest, OfferAll(execute, key, live, seen, store), live, responses, at, off, response);
      stores, responses := [store] + stores, [response] + responses;
    }
  }

  ghost predicate Executes(live: seq<Client>, seen: Pairs, i: nat) {
    && i < |live| && FirstOfConsumer(live, i)
    && (live[i].op.ReadGroup? ==> (live[i].op.group, live[i].op.consumer) !in seen)
  }

  lemma {:induction false} ExecutesOn(live: seq<Client>, seen: Pairs, i: nat)
    requires 0 < i < |live|
    ensures Executes(live, seen, i) <==> Executes(live[1..], Seen(live[0].op, seen), i - 1)
  {
    EarlierToo(live, i);
  }

  /** Executed are exactly the first of each consumer of a group and those who do not read for a group, in the order of the queue. */
  lemma {:induction false} ExecutedIff(live: seq<Client>, seen: Pairs) returns (at: seq<nat>)
    ensures Selects(at, |live|, (i: nat) => Executes(live, seen, i)) && Picked(Executed(live, seen), at, live)
    decreases |live|
  {
    if live == [] {
      at := [];
    } else {
      var repeats, seen' := Repeats(live[0].op, seen), Seen(live[0].op, seen);
      assert repeats ==> seen' == seen;
      var rest := ExecutedIff(live[1..], seen');
      var keep, keep' := (i: nat) => Executes(live, seen, i), (i: nat) => Executes(live[1..], seen', i);
      forall i: nat | 0 < i <= |live| - 1 ensures keep(i) == keep'(i - 1) {
        ExecutesOn(live, seen, i);
      }
      SelectsOn(rest, |live| - 1, keep', keep);
      PickedOn(Executed(live[1..], seen'), rest, live[1..], live[0], !repeats);
      assert [live[0]] + live[1..] == live;
      assert [] + Executed(live[1..], seen') == Executed(live[1..], seen');
      at := (if repeats then [] else [0]) + Later(rest);
    }
  }

  /** The same for a whole round. */
  lemma {:induction false} WholeRound<Store>(execute: (Store, Key, Client) -> (Store, Response), key: Key, live: seq<Client>, store: Store)
      returns (stores: seq<Store>, responses: seq<Response>, at: seq<nat>, off: seq<nat>)
    ensures var round := OfferAll(execute, key, live, {}, store);
            Turns(execute, key, live, store, stores, responses, round.store) && Gathers(round, live, responses, at, off)
  {
    stores, responses, at, off := RoundTurns(execute, key, live, {}, store);
  }

  /** Whoever got something is among the answered with it, nobody else is. */
  lemma {:induction false} RoundResult<Store>(round: Offers<Store>, live: seq<Client>, responses: seq<Response>, at: seq<nat>, off: seq<nat>,
                                              woke: seq<Conn>, ready: Ready)
    requires Gathers(round, live, responses, at, off) && Replies(woke, ready) == round.answers
    requires (forall i, j | 0 <= i < j < |live| :: live[i].conn != live[j].conn) && forall c | c in woke :: c in ready
    ensures forall i | 0 <= i < |live| ::
              if responses[i] == NullBulk then live[i].conn !in woke
              else live[i].conn in woke && ready[live[i].conn] == responses[i]
  {
    forall k | 0 <= k < |woke| ensures woke[k] == live[at[k]].conn && woke[k] in ready && ready[woke[k]] == responses[at[k]] {
      assert round.answers[k] == WithConns(live, responses)[at[k]] == Replies(woke, ready)[k];
      assert woke[k] in woke;
    }
    forall i | 0 <= i < |live|
      ensures if responses[i] == NullBulk then live[i].conn !in woke
              else live[i].conn in woke && ready[live[i].conn] == responses[i]
    {
      if responses[i] == NullBulk {
        forall k | 0 <= k < |woke| ensures woke[k] != live[i].conn {
          assert at[k] in at && at[k] != i;
        }
      } else {
        assert i in at;
        var k :| 0 <= k < |at| && at[k] == i;
        assert woke[k] == live[i].conn;
      }
    }
  }

  /** Two consumers of one group are both executed, one consumer that waits twice only the first time. */
  lemma {:induction false} TwoConsumers<Store>(execute: (Store, Key, Client) -> (Store, Response), key: Key, first: Client, second: Client, store: Store)
    requires first.op.ReadGroup? && second.op.ReadGroup? && first.op.group == second.op.group
    ensures var round, (one, _) := OfferAll(execute, key, [first, second], {}, store), execute(store, key, first);
            round.store == if first.op.consumer == second.op.consumer then one else execute(one, key, second).0
  {
    assert [first, second][1..] == [second] && [second][1..] == [];
    var seen := Seen(first.op, {});
    assert Repeats(second.op, seen) <==> first.op.consumer == second.op.consumer;
    var (one, _) := execute(store, key, first);
    assert OfferAll(execute, key, [first, second], {}, store).store == OfferAll(execute, key, [second], seen, one).store;
    var next := if Repeats(second.op, seen) then one else execute(one, key, second).0;
    assert OfferAll(execute, key, [second], seen, one).store == next;
  }
}
