/**
 The single-producer/single-consumer message ring of senko-pubsub/src/slot.rs.

 `publish` and `recv` are split into their atomic memory operations.  A run is any
 sequence of such operations by the producer, the consumer and an observer calling
 `len`, so a statement about every run is a statement about every interleaving.
 `accepted`, `received` and the `seen` components are history: no operation reads them.
 */
module Slot {
  import opened Common

  const RING_SIZE: nat := 256

  /** `u64::wrapping_sub`. */
  function WrappingSub(a: nat, b: nat): (r: nat)
    requires a < U64 && b < U64
    ensures r < U64
  {
    (a + U64 - b) % U64
  }

  /** Where the producer stands inside `publish`. */
  datatype Producer<T> =
    | PIdle
    | PHead(msg: T, head: nat)
    | PTail(msg: T, head: nat, tail: nat, seen: nat)
    | PStored(msg: T)

  /** Where the consumer stands inside `recv`. */
  datatype Consumer<T> =
    | CIdle
    | CTail(tail: nat)
    | CHead(tail: nat, head: nat, seen: nat)
    | CSwapped(ptr: Option<T>)

  /** Where a third party stands inside `len`. */
  datatype Observer = OIdle | OHead(head: nat, seen: nat)

  datatype State<T> = State(
    head: nat,
    tail: nat,
    ring: seq<Option<T>>,
    lagged: bool,
    producer: Producer<T>,
    consumer: Consumer<T>,
    observer: Observer,
    accepted: seq<T>,
    received: seq<T>,
    lagReports: seq<nat>,
    nullReads: nat,
    lens: seq<nat>)

  datatype Action<T> = Publish(msg: T) | ProducerStep | Recv | ConsumerStep | ObserverStep

  function Init<T>(): State<T> {
    State(0, 0, seq(RING_SIZE, _ => None), false, PIdle, CIdle, OIdle, [], [], [], 0, [])
  }

  ghost predicate WordSized<T>(s: State<T>) {
    && s.head < U64 && s.tail < U64 && |s.ring| == RING_SIZE
    && (s.producer.PHead? ==> s.producer.head < U64)
    && (s.producer.PTail? ==> s.producer.head < U64 && s.producer.tail < U64)
    && (s.observer.OHead? ==> s.observer.head < U64)
  }

  /** `publish`: load tail, then either flag the lag or store the slot, then bump head. */
  function ProducerNext<T>(s: State<T>): (r: State<T>)
    requires WordSized(s)
    ensures WordSized(r)
  {
    match s.producer
    case PIdle => s
    case PHead(msg, head) => s.(producer := PTail(msg, head, s.tail, |s.received|))
    case PTail(msg, head, tail, _) =>
      var used := WrappingSub(head, tail);
      if used >= RING_SIZE then
        s.(lagged := true, producer := PIdle, lagReports := s.lagReports + [used - RING_SIZE])
      else
        s.(ring := s.ring[head % RING_SIZE := Some(msg)], producer := PStored(msg))
    case PStored(msg) =>
      s.(head := (s.head + 1) % U64, producer := PIdle, accepted := s.accepted + [msg])
  }

  /** `recv`: load head, swap the slot for null, bump tail and return the pointer. */
  function ConsumerNext<T>(s: State<T>): (r: State<T>)
    requires WordSized(s)
    ensures WordSized(r)
  {
    match s.consumer
    case CIdle => s
    case CTail(tail) => s.(consumer := CHead(tail, s.head, |s.accepted|))
    case CHead(tail, head, _) =>
      if tail == head then s.(consumer := CIdle)
      else
        var slot := tail % RING_SIZE;
        s.(ring := s.ring[slot := None], consumer := CSwapped(s.ring[slot]))
    case CSwapped(ptr) =>
      var next := s.(tail := (s.tail + 1) % U64, consumer := CIdle);
      if ptr.None? then next.(nullReads := s.nullReads + 1)
      else next.(received := s.received + [ptr.value])
  }

  /** `len`: load head, later load tail, return the wrapping difference. */
  function ObserverNext<T>(s: State<T>): (r: State<T>)
    requires WordSized(s)
    ensures WordSized(r)
  {
    match s.observer
    case OIdle => s.(observer := OHead(s.head, |s.accepted|))
    case OHead(head, _) => s.(observer := OIdle, lens := s.lens + [WrappingSub(head, s.tail)])
  }

  function Next<T>(s: State<T>, a: Action<T>): (r: State<T>)
    requires WordSized(s)
    ensures WordSized(r)
  {
    match a
    case Publish(msg) => if s.producer.PIdle? then s.(producer := PHead(msg, s.head)) else s
    case ProducerStep => ProducerNext(s)
    case Recv => if s.consumer.CIdle? then s.(consumer := CTail(s.tail)) else s
    case ConsumerStep => ConsumerNext(s)
    case ObserverStep => ObserverNext(s)
  }

  function Run<T>(s: State<T>, actions: seq<Action<T>>): (r: State<T>)
    requires WordSized(s)
    ensures WordSized(r)
    decreases |actions|
  {
    if actions == [] then s else Run(Next(s, actions[0]), actions[1..])
  }

  /** The slot that absolute index `i` maps to. */
  function At<T>(ring: seq<Option<T>>, i: nat): Option<T>
    requires |ring| == RING_SIZE
  {
    ring[i % RING_SIZE]
  }

  /** From `lo` on the ring holds `content`, one message a slot, and nothing else. */
  ghost predicate Window<T>(ring: seq<Option<T>>, lo: nat, content: seq<T>) {
    && |ring| == RING_SIZE && |content| <= RING_SIZE
    && (forall i: nat | lo <= i < lo + RING_SIZE ::
          At(ring, i) == if i - lo < |content| then Some(content[i - lo]) else None)
  }

  lemma {:induction false} WindowStore<T>(ring: seq<Option<T>>, lo: nat, content: seq<T>, msg: T)
    requires Window(ring, lo, content) && |content| < RING_SIZE
    ensures At(ring, lo + |content|) == None
    ensures Window(ring[(lo + |content|) % RING_SIZE := Some(msg)], lo, content + [msg])
  {
    var k := lo + |content|;
    var ring' := ring[k % RING_SIZE := Some(msg)];
    forall i: nat | lo <= i < lo + RING_SIZE
      ensures At(ring', i) == if i - lo < |content| + 1 then Some((content + [msg])[i - lo]) else None
    {
      assert i != k ==> At(ring', i) == At(ring, i);
    }
  }

  lemma {:induction false} WindowSwap<T>(ring: seq<Option<T>>, lo: nat, content: seq<T>)
    requires Window(ring, lo, content) && content != []
    ensures At(ring, lo) == Some(content[0])
    ensures Window(ring[lo % RING_SIZE := None], lo + 1, content[1..])
  {
    var ring' := ring[lo % RING_SIZE := None];
    forall i: nat | lo + 1 <= i < lo + 1 + RING_SIZE
      ensures At(ring', i) == if i - lo - 1 < |content| - 1 then Some(content[1..][i - lo - 1]) else None
    {
      assert i != lo + RING_SIZE ==> At(ring', i) == At(ring, i);
    }
  }

  /** Absolute index of the oldest message whose slot still holds its pointer. */
  ghost function Oldest<T>(s: State<T>): nat {
    |s.received| + if s.consumer.CSwapped? then 1 else 0
  }

  /** The messages the ring holds: accepted, not yet taken out, and one perhaps being stored. */
  ghost function Held<T>(s: State<T>): seq<T>
    requires Oldest(s) <= |s.accepted|
  {
    s.accepted[Oldest(s)..] + if s.producer.PStored? then [s.producer.msg] else []
  }

  ghost predicate RingInv<T>(s: State<T>) {
    Oldest(s) <= |s.accepted| && Window(s.ring, Oldest(s), Held(s))
  }

  ghost predicate CounterInv<T>(s: State<T>) {
    && s.head == |s.accepted| % U64
    && s.tail == |s.received| % U64
    && |s.received| <= |s.accepted| <= |s.received| + RING_SIZE
    && s.received == s.accepted[..|s.received|]
  }

  ghost predicate ProducerInv<T>(s: State<T>) {
    match s.producer
    case PIdle => true
    case PHead(_, head) => head == s.head
    case PTail(_, head, tail, seen) =>
      && head == s.head && tail == seen % U64
      && seen <= |s.received| && |s.accepted| <= seen + RING_SIZE
    case PStored(_) => |s.accepted| < |s.received| + RING_SIZE
  }

  ghost predicate ConsumerInv<T>(s: State<T>) {
    match s.consumer
    case CIdle => true
    case CTail(tail) => tail == s.tail
    case CHead(tail, head, seen) =>
      && tail == s.tail && head == seen % U64
      && |s.received| <= seen <= |s.accepted|
    case CSwapped(ptr) =>
      && |s.received| < |s.accepted| && ptr == Some(s.accepted[|s.received|])
  }

  ghost predicate Inv<T>(s: State<T>) {
    && WordSized(s) && CounterInv(s) && ProducerInv(s) && ConsumerInv(s) && RingInv(s)
    && (s.observer.OHead? ==> s.observer.head == s.observer.seen % U64 && s.observer.seen <= |s.accepted|)
    && s.nullReads == 0
    && (forall n | n in s.lagReports :: n == 0)
  }

  /** Two u64 counters at most a ring apart subtract to their true distance. */
  lemma {:induction false} WrappedDistance(hi: nat, lo: nat)
    requires lo <= hi <= lo + RING_SIZE
    ensures WrappingSub(hi % U64, lo % U64) == hi - lo
  {
  }

  lemma {:induction false} SlotOfCounter(i: nat)
    ensures (i % U64) % RING_SIZE == i % RING_SIZE
  {
  }

  lemma {:induction false} BumpCounter(i: nat)
    ensures (i % U64 + 1) % U64 == (i + 1) % U64
  {
  }

  lemma {:induction false} RefusalKeeps<T>(s: State<T>)
    requires Inv(s) && s.producer.PTail? && |s.accepted| - s.producer.seen >= RING_SIZE
    ensures Inv(ProducerNext(s))
  {
    WrappedDistance(|s.accepted|, s.producer.seen);
  }

  lemma {:induction false} AcceptedKeeps<T>(s: State<T>)
    requires Inv(s) && s.producer.PTail? && |s.accepted| - s.producer.seen < RING_SIZE
    ensures Inv(ProducerNext(s))
  {
    var PTail(msg, head, tail, seen) := s.producer;
    WrappedDistance(|s.accepted|, seen);
    var r := ProducerNext(s);
    SlotOfCounter(|s.accepted|);
    WindowStore(s.ring, Oldest(s), Held(s), msg);
    assert Held(r) == Held(s) + [msg];
  }

  lemma {:induction false} StoreKeeps<T>(s: State<T>)
    requires Inv(s) && s.producer.PTail?
    ensures Inv(ProducerNext(s))
  {
    if |s.accepted| - s.producer.seen < RING_SIZE {
      AcceptedKeeps(s);
    } else {
      RefusalKeeps(s);
    }
  }

  lemma {:induction false} BumpHeadKeeps<T>(s: State<T>)
    requires Inv(s) && s.producer.PStored?
    ensures Inv(ProducerNext(s))
  {
    BumpCounter(|s.accepted|);
    assert Held(ProducerNext(s)) == Held(s);
  }

  lemma {:induction false} ProducerKeeps<T>(s: State<T>)
    requires Inv(s)
    ensures Inv(ProducerNext(s))
  {
    match s.producer
    case PIdle =>
    case PHead(_, _) =>
    case PTail(_, _, _, _) => StoreKeeps(s);
    case PStored(_) => BumpHeadKeeps(s);
  }

  /** Counters at most a ring apart are equal as words exactly when they are equal. */
  lemma {:induction false} SameWord(hi: nat, lo: nat)
    requires lo <= hi <= lo + RING_SIZE
    ensures lo % U64 == hi % U64 <==> lo == hi
  {
    WrappedDistance(hi, lo);
  }

  ghost function Swapped<T>(s: State<T>): State<T>
    requires WordSized(s)
  {
    var slot := s.tail % RING_SIZE;
    s.(ring := s.ring[slot := None], consumer := CSwapped(s.ring[slot]))
  }

  lemma {:induction false} SwapRing<T>(s: State<T>)
    requires Inv(s) && s.consumer.CHead? && |s.received| < |s.accepted|
    ensures At(s.ring, |s.received|) == Some(s.accepted[|s.received|]) && s.tail % RING_SIZE == |s.received| % RING_SIZE
    ensures RingInv(Swapped(s))
  {
    SlotOfCounter(|s.received|);
    WindowSwap(s.ring, Oldest(s), Held(s));
    assert Held(s)[0] == s.accepted[|s.received|];
    assert Held(Swapped(s)) == Held(s)[1..];
  }

  lemma {:induction false} SwappedKeeps<T>(s: State<T>)
    requires Inv(s) && s.consumer.CHead? && |s.received| < |s.accepted|
    ensures Inv(Swapped(s))
  {
    SwapRing(s);
    assert ConsumerInv(Swapped(s)) && ProducerInv(Swapped(s)) && CounterInv(Swapped(s));
  }

  lemma {:induction false} SwapKeeps<T>(s: State<T>)
    requires Inv(s) && s.consumer.CHead?
    ensures Inv(ConsumerNext(s))
  {
    SameWord(s.consumer.seen, |s.received|);
    if s.consumer.seen != |s.received| {
      SwappedKeeps(s);
      assert ConsumerNext(s) == Swapped(s);
    } else {
      EmptyKeeps(s);
    }
  }

  lemma {:induction false} EmptyKeeps<T>(s: State<T>)
    requires Inv(s) && s.consumer.CHead? && s.consumer.tail == s.consumer.head
    ensures Inv(ConsumerNext(s))
  {
    assert Held(ConsumerNext(s)) == Held(s);
  }

  lemma {:induction false} BumpTailKeeps<T>(s: State<T>)
    requires Inv(s) && s.consumer.CSwapped?
    ensures Inv(ConsumerNext(s))
  {
    var r := ConsumerNext(s);
    assert CounterInv(r) by {
      BumpCounter(|s.received|);
    }
    assert Held(r) == Held(s);
  }

  lemma {:induction false} ConsumerKeeps<T>(s: State<T>)
    requires Inv(s)
    ensures Inv(ConsumerNext(s))
  {
    match s.consumer
    case CIdle =>
    case CTail(_) => LoadKeeps(s);
    case CHead(_, _, _) => SwapKeeps(s);
    case CSwapped(_) => BumpTailKeeps(s);
  }

  lemma {:induction false} LoadKeeps<T>(s: State<T>)
    requires Inv(s) && s.consumer.CTail?
    ensures Inv(ConsumerNext(s))
  {
    assert Held(ConsumerNext(s)) == Held(s);
  }

  lemma {:induction false} NextKeeps<T>(s: State<T>, a: Action<T>)
    requires Inv(s)
    ensures Inv(Next(s, a))
  {
    match a
    case Publish(_) =>
    case ProducerStep => ProducerKeeps(s);
    case Recv =>
    case ConsumerStep => ConsumerKeeps(s);
    case ObserverStep =>
  }

  lemma {:induction false} RunKeeps<T>(s: State<T>, actions: seq<Action<T>>)
    requires Inv(s)
    ensures Inv(Run(s, actions))
    decreases |actions|
  {
    if actions != [] {
      NextKeeps(s, actions[0]);
      RunKeeps(Next(s, actions[0]), actions[1..]);
    }
  }

  lemma {:induction false} InitHolds<T>()
    ensures Inv(Init<T>())
  {
  }

  /**
   Every interleaving: what was received is a prefix of what was accepted, in order; at
   most 256 are outstanding; the null branch of `recv` is never taken; a refused `publish`
   always reports a lag of zero; and the slot is marked as lagged exactly after a refusal.
   */
  lemma {:induction false} EveryRunIsFifo<T>(actions: seq<Action<T>>)
    ensures var s := Run(Init<T>(), actions);
            && s.received <= s.accepted
            && |s.accepted| - |s.received| <= 256
            && s.nullReads == 0
            && (forall n | n in s.lagReports :: n == 0)
            && (s.lagged <==> s.lagReports != [])
  {
    InitHolds<T>();
    RunKeeps(Init<T>(), actions);
    LagIsMarked(Init<T>(), actions);
  }

  lemma {:induction false} LagIsMarked<T>(s: State<T>, actions: seq<Action<T>>)
    requires WordSized(s) && (s.lagged <==> s.lagReports != [])
    ensures var r := Run(s, actions); r.lagged <==> r.lagReports != []
    decreases |actions|
  {
    if actions != [] {
      LagIsMarked(Next(s, actions[0]), actions[1..]);
    }
  }

  /** Whenever `publish` is about to store, its slot is null: no pending message is overwritten. */
  lemma {:induction false} StoreHitsEmptySlot<T>(actions: seq<Action<T>>)
    requires var s := Run(Init<T>(), actions); s.producer.PTail? && ProducerNext(s).producer.PStored?
    ensures var s := Run(Init<T>(), actions); At(s.ring, s.producer.head) == None
  {
    InitHolds<T>();
    RunKeeps(Init<T>(), actions);
    var s := Run(Init<T>(), actions);
    WrappedDistance(|s.accepted|, s.producer.seen);
    WindowStore(s.ring, Oldest(s), Held(s), s.producer.msg);
    SlotOfCounter(|s.accepted|);
  }

  /** `publish` refuses exactly when the ring was full at the instant it loaded the tail. */
  lemma {:induction false} RefusalMeansFull<T>(actions: seq<Action<T>>)
    requires Run(Init<T>(), actions).producer.PTail?
    ensures var s := Run(Init<T>(), actions);
            ProducerNext(s).producer.PIdle? <==> |s.accepted| == s.producer.seen + 256
  {
    InitHolds<T>();
    RunKeeps(Init<T>(), actions);
    var s := Run(Init<T>(), actions);
    WrappedDistance(|s.accepted|, s.producer.seen);
  }

  /** `recv` answers None exactly when nothing was outstanding at the instant it loaded the head. */
  lemma {:induction false} NoneMeansEmpty<T>(actions: seq<Action<T>>)
    requires Run(Init<T>(), actions).consumer.CHead?
    ensures var s := Run(Init<T>(), actions);
            ConsumerNext(s).consumer.CIdle? <==> s.consumer.seen == |s.received|
  {
    InitHolds<T>();
    RunKeeps(Init<T>(), actions);
    var s := Run(Init<T>(), actions);
    WrappedDistance(s.consumer.seen, |s.received|);
  }

  /** The wrapped difference of two counters, the tail possibly ahead by any number. */
  lemma {:induction false} WrappedRace(head: nat, tail: nat)
    requires head <= tail + RING_SIZE
    ensures var ahead := (tail + RING_SIZE - head) % U64;
            WrappingSub(head % U64, tail % U64) == if ahead <= RING_SIZE then RING_SIZE - ahead else U64 + RING_SIZE - ahead
  {
    var h, t, sum := head % U64, tail % U64, tail + RING_SIZE - head;
    assert sum % U64 == (t + RING_SIZE - h) % U64 by {
      var turns := tail / U64 - head / U64;
      assert sum == turns * U64 + (t + RING_SIZE - h);
    }
    WrappedWords(h, t);
  }

  lemma {:induction false} WrappedWords(h: nat, t: nat)
    requires h < U64 && t < U64
    ensures var ahead := (t + RING_SIZE - h) % U64;
            WrappingSub(h, t) == if ahead <= RING_SIZE then RING_SIZE - ahead else U64 + RING_SIZE - ahead
  {
  }

  /** The same for counters less than a turn apart. */
  lemma {:induction false} WrappedNear(head: nat, tail: nat)
    requires head <= tail + RING_SIZE && tail < head + U64 - RING_SIZE
    ensures WrappingSub(head % U64, tail % U64) == if tail <= head then head - tail else U64 - (tail - head)
  {
    WrappedRace(head, tail);
    assert (tail + RING_SIZE - head) % U64 == tail + RING_SIZE - head;
  }

  /**
   `len` by a third party is an occupancy of the ring if and only if the tail, counted from 256 below
   the head that was loaded, lies within 256 of a multiple of 2^64: without a whole turn of the counters
   between the two loads, if and only if the consumer has not overtaken that head.  Otherwise the
   subtraction wraps to a number near 2^64.
   */
  lemma {:induction false} LenUnderRace<T>(actions: seq<Action<T>>)
    requires Run(Init<T>(), actions).observer.OHead?
    ensures var s := Run(Init<T>(), actions);
            var len := ObserverNext(s).lens[|s.lens|];
            && s.observer.seen <= |s.received| + 256
            && (len <= 256 <==> (|s.received| + 256 - s.observer.seen) % 0x1_0000_0000_0000_0000 <= 256)
            && (|s.received| < s.observer.seen + 0x1_0000_0000_0000_0000 - 256 ==>
                  && (len <= 256 <==> |s.received| <= s.observer.seen)
                  && len == if |s.received| <= s.observer.seen then s.observer.seen - |s.received|
                            else 0x1_0000_0000_0000_0000 - (|s.received| - s.observer.seen))
  {
    InitHolds<T>();
    RunKeeps(Init<T>(), actions);
    var s := Run(Init<T>(), actions);
    LenOf(s);
    Occupancy(s.observer.seen, |s.received|);
  }

  lemma {:induction false} Occupancy(head: nat, tail: nat)
    requires head <= tail + RING_SIZE
    ensures var len := WrappingSub(head % U64, tail % U64);
            && (len <= RING_SIZE <==> (tail + RING_SIZE - head) % U64 <= RING_SIZE)
            && (tail < head + U64 - RING_SIZE ==>
                  && (len <= RING_SIZE <==> tail <= head)
                  && len == if tail <= head then head - tail else U64 - (tail - head))
  {
    WrappedRace(head, tail);
    if tail < head + U64 - RING_SIZE {
      WrappedNear(head, tail);
    }
  }

  lemma {:induction false} LenOf<T>(s: State<T>)
    requires Inv(s) && s.observer.OHead?
    ensures ObserverNext(s).lens[|s.lens|] == WrappingSub(s.observer.seen % U64, |s.received| % U64)
    ensures s.observer.seen <= |s.received| + RING_SIZE
  {
  }

  lemma {:induction false} RunSplit<T>(s: State<T>, first: seq<Action<T>>, rest: seq<Action<T>>)
    requires WordSized(s)
    ensures Run(s, first + rest) == Run(Run(s, first), rest)
    decreases |first|
  {
    if first == [] {
      assert first + rest == rest;
    } else {
      assert (first + rest)[1..] == first[1..] + rest;
      RunSplit(Next(s, first[0]), first[1..], rest);
    }
  }

  lemma {:induction false} Unroll<T>(s: State<T>, a: seq<Action<T>>)
    requires WordSized(s) && a != []
    ensures Run(s, a) == Run(Next(s, a[0]), a[1..])
  {
  }

  lemma {:induction false} RunFour<T>(s: State<T>, a: seq<Action<T>>)
    requires WordSized(s) && |a| == 4
    ensures Run(s, a) == Next(Next(Next(Next(s, a[0]), a[1]), a[2]), a[3])
  {
    var s1 := Next(s, a[0]);
    Unroll(s, a);
    Unroll(s1, a[1..]);
    Unroll(Next(s1, a[1]), a[1..][1..]);
    Unroll(Next(Next(s1, a[1]), a[2]), a[1..][1..][1..]);
  }

  /** `Drop`: walk the ring from slot 0 and free every pointer found. */
  function Dropped<T>(ring: seq<Option<T>>): seq<T> {
    if ring == [] then []
    else (if ring[0].Some? then [ring[0].value] else []) + Dropped(ring[1..])
  }

  lemma {:induction false} DroppedWithout<T>(ring: seq<Option<T>>, k: nat)
    requires k < |ring| && ring[k].Some?
    ensures multiset(Dropped(ring)) == multiset(Dropped(ring[k := None])) + multiset{ring[k].value}
    decreases |ring|
  {
    var ring' := ring[k := None];
    if k == 0 {
      assert ring'[1..] == ring[1..];
    } else {
      assert ring'[1..] == ring[1..][k - 1 := None];
      DroppedWithout(ring[1..], k - 1);
    }
  }

  lemma {:induction false} DroppedNone<T>(ring: seq<Option<T>>)
    requires forall i | 0 <= i < |ring| :: ring[i] == None
    ensures Dropped(ring) == []
    decreases |ring|
  {
    if ring != [] {
      DroppedNone(ring[1..]);
    }
  }

  /** Every slot is the slot of some index in any ring-sized window. */
  lemma {:induction false} SlotInWindow(lo: nat, j: nat) returns (i: nat)
    requires j < RING_SIZE
    ensures lo <= i < lo + RING_SIZE && i % RING_SIZE == j
  {
    var base := lo - lo % RING_SIZE;
    i := if lo % RING_SIZE <= j then base + j else base + RING_SIZE + j;
  }

  lemma {:induction false} DroppedEmptyWindow<T>(ring: seq<Option<T>>, lo: nat)
    requires Window(ring, lo, [])
    ensures Dropped(ring) == []
  {
    forall j | 0 <= j < RING_SIZE ensures ring[j] == None {
      var i := SlotInWindow(lo, j);
      assert At(ring, i) == None;
    }
    DroppedNone(ring);
  }

  lemma {:induction false} HeadAndTail<T>(content: seq<T>)
    requires content != []
    ensures multiset(content) == multiset(content[1..]) + multiset{content[0]}
  {
    assert content == [content[0]] + content[1..];
  }

  lemma {:induction false} DroppedIsWindow<T>(ring: seq<Option<T>>, lo: nat, content: seq<T>)
    requires Window(ring, lo, content)
    ensures multiset(Dropped(ring)) == multiset(content)
    decreases |content|
  {
    if content == [] {
      DroppedEmptyWindow(ring, lo);
    } else {
      WindowSwap(ring, lo, content);
      DroppedWithout(ring, lo % RING_SIZE);
      DroppedIsWindow(ring[lo % RING_SIZE := None], lo + 1, content[1..]);
      HeadAndTail(content);
    }
  }

  /** Once both threads are done, every accepted message was received or is freed by `Drop`, once. */
  lemma {:induction false} NothingLeaks<T>(actions: seq<Action<T>>)
    requires var s := Run(Init<T>(), actions); s.producer.PIdle? && s.consumer.CIdle?
    ensures var s := Run(Init<T>(), actions);
            multiset(s.accepted) == multiset(s.received) + multiset(Dropped(s.ring))
  {
    InitHolds<T>();
    RunKeeps(Init<T>(), actions);
    var s := Run(Init<T>(), actions);
    DroppedIsWindow(s.ring, |s.received|, Held(s));
    assert Held(s) == s.accepted[|s.received|..];
    assert s.accepted == s.received + s.accepted[|s.received|..];
  }

  function PublishCall<T>(message: T): seq<Action<T>> {
    [Action.Publish(message), ProducerStep, ProducerStep, ProducerStep]
  }

  function RecvCall<T>(): seq<Action<T>> {
    [Action.Recv, ConsumerStep, ConsumerStep, ConsumerStep]
  }

  lemma {:induction false} PublishSteps<T>(s: State<T>, message: T)
    requires WordSized(s) && s.producer.PIdle?
    ensures var used := WrappingSub(s.head, s.tail);
            Run(s, PublishCall(message)) ==
            if used >= RING_SIZE then s.(lagged := true, lagReports := s.lagReports + [used - RING_SIZE])
            else s.(ring := s.ring[s.head % RING_SIZE := Some(message)], head := (s.head + 1) % U64,
                    accepted := s.accepted + [message])
  {
    RunFour(s, PublishCall(message));
    var s2 := s.(producer := PTail(message, s.head, s.tail, |s.received|));
    assert Next(Next(s, Publish(message)), ProducerStep) == s2;
    var s3 := Next(s2, ProducerStep);
    if WrappingSub(s.head, s.tail) < RING_SIZE {
      assert s3 == s.(ring := s.ring[s.head % RING_SIZE := Some(message)], producer := PStored(message));
    } else {
      assert Next(s3, ProducerStep) == s3;
    }
  }

  /** A `publish` that nothing interrupts. */
  lemma {:induction false} PublishAlone<T>(s: State<T>, message: T)
    requires Inv(s) && s.producer.PIdle?
    ensures Run(s, PublishCall(message)) ==
            if |s.accepted| - |s.received| < 256 then
              s.(ring := s.ring[s.head % 256 := Some(message)], head := (s.head + 1) % 0x1_0000_0000_0000_0000,
                 accepted := s.accepted + [message])
            else s.(lagged := true, lagReports := s.lagReports + [0])
    ensures Inv(Run(s, PublishCall(message)))
    ensures WrappingSub(s.head, s.tail) == |s.accepted| - |s.received|
  {
    WrappedDistance(|s.accepted|, |s.received|);
    PublishSteps(s, message);
    RunKeeps(s, PublishCall(message));
  }

  /** What the consumer finds when nothing is in flight. */
  lemma {:induction false} FrontOfRing<T>(s: State<T>)
    requires Inv(s) && s.consumer.CIdle? && s.producer.PIdle?
    ensures s.tail == s.head <==> |s.accepted| == |s.received|
    ensures |s.accepted| != |s.received| ==> s.ring[s.tail % RING_SIZE] == Some(s.accepted[|s.received|])
  {
    WrappedDistance(|s.accepted|, |s.received|);
    if |s.accepted| != |s.received| {
      WindowSwap(s.ring, Oldest(s), Held(s));
      SlotOfCounter(|s.received|);
    }
  }

  lemma {:induction false} RecvSteps<T>(s: State<T>)
    requires WordSized(s) && s.consumer.CIdle?
    ensures Run(s, RecvCall<T>()) ==
            if s.tail == s.head then s
            else
              var slot := s.tail % RING_SIZE;
              var next := s.(ring := s.ring[slot := None], tail := (s.tail + 1) % U64);
              if s.ring[slot].None? then next.(nullReads := s.nullReads + 1)
              else next.(received := s.received + [s.ring[slot].value])
  {
    RunFour(s, RecvCall<T>());
    var s2 := s.(consumer := CHead(s.tail, s.head, |s.accepted|));
    assert Next(Next(s, Action.Recv), ConsumerStep) == s2;
  }

  /** A `recv` that nothing interrupts. */
  lemma {:induction false} RecvAlone<T>(s: State<T>)
    requires Inv(s) && s.consumer.CIdle? && s.producer.PIdle?
    ensures Run(s, RecvCall<T>()) ==
            if |s.accepted| == |s.received| then s
            else s.(ring := s.ring[s.tail % 256 := None], tail := (s.tail + 1) % 0x1_0000_0000_0000_0000,
                    received := s.received + [s.accepted[|s.received|]])
    ensures Inv(Run(s, RecvCall<T>()))
  {
    FrontOfRing(s);
    RecvSteps(s);
    RunKeeps(s, RecvCall<T>());
  }

  ghost function AtTail<T>(s: State<T>): Option<T>
    requires WordSized(s)
  {
    s.ring[s.tail % RING_SIZE]
  }

  /** The slot at the tail emptied and the tail moved on. */
  ghost function TailTaken<T>(s: State<T>): State<T>
    requires WordSized(s)
  {
    s.(ring := s.ring[s.tail % RING_SIZE := None], tail := (s.tail + 1) % U64,
       received := if AtTail(s).Some? then s.received + [AtTail(s).value] else s.received)
  }

  /** The same by the words and slots that `recv` reads. */
  lemma {:induction false} FrontAlone<T>(s: State<T>)
    requires Inv(s) && s.consumer.CIdle? && s.producer.PIdle?
    ensures WordSized(s) && |s.received| <= |s.accepted| && Inv(Run(s, RecvCall<T>()))
    ensures s.tail == s.head ==> |s.received| == |s.accepted| && Run(s, RecvCall<T>()) == s
    ensures s.tail != s.head ==>
              && |s.received| < |s.accepted| && AtTail(s) == Some(s.accepted[|s.received|])
              && Run(s, RecvCall<T>()) == TailTaken(s)
              && TailTaken(s).received == s.received + [s.accepted[|s.received|]] && TailTaken(s).accepted == s.accepted
  {
    FrontOfRing(s);
    if s.tail != s.head {
      TakenAlone(s);
    } else {
      RecvAlone(s);
    }
  }

  lemma {:induction false} TakenAlone<T>(s: State<T>)
    requires Inv(s) && s.consumer.CIdle? && s.producer.PIdle? && |s.received| < |s.accepted|
    requires AtTail(s) == Some(s.accepted[|s.received|])
    ensures Run(s, RecvCall<T>()) == TailTaken(s) && Inv(Run(s, RecvCall<T>()))
  {
    RecvAlone(s);
  }

  /** The wrap does happen: one message published and received between the two loads of `len`. */
  lemma {:induction false} LenCanWrap<T>(msg: T)
    ensures exists actions: seq<Action<T>> :: Run(Init<T>(), actions).lens == [0xFFFF_FFFF_FFFF_FFFF]
  {
    var load: seq<Action<T>> := [ObserverStep];
    RunParts(Init<T>(), load, PublishCall(msg), RecvCall<T>(), load);
    WrapLens(msg, load);
  }

  lemma {:induction false} WrapLens<T>(msg: T, load: seq<Action<T>>)
    requires load == [ObserverStep]
    ensures Run(Run(Run(Run(Init<T>(), load), PublishCall(msg)), RecvCall<T>()), load).lens == [U64 - 1]
  {
    var s1 := Run(Init<T>(), load);
    Observed(Init<T>());
    PassedBetween(s1, msg);
    var s3 := Run(Run(s1, PublishCall(msg)), RecvCall<T>());
    Observed(s3);
    assert WrappingSub(0, 1) == U64 - 1;
  }

  lemma {:induction false} Observed<T>(s: State<T>)
    requires WordSized(s)
    ensures Run(s, [ObserverStep]) == ObserverNext(s)
  {
    Unroll(s, [ObserverStep]);
  }

  lemma {:induction false} RunParts<T>(s: State<T>, a: seq<Action<T>>, b: seq<Action<T>>, c: seq<Action<T>>, d: seq<Action<T>>)
    requires WordSized(s)
    ensures Run(s, a + b + c + d) == Run(Run(Run(Run(s, a), b), c), d)
  {
    RunSplit(s, a, b);
    RunSplit(s, a + b, c);
    RunSplit(s, a + b + c, d);
  }

  lemma {:induction false} PassedBetween<T>(s: State<T>, msg: T)
    requires s == Init<T>().(observer := OHead(0, 0))
    ensures var r := Run(Run(s, PublishCall(msg)), RecvCall<T>());
            r.tail == 1 && r.observer == OHead(0, 0) && r.lens == []
  {
    PublishSteps(s, msg);
    var s2 := Run(s, PublishCall(msg));
    assert s2.head == 1 && s2.tail == 0 && s2.ring[0] == Some(msg);
    RecvSteps(s2);
  }

  datatype PublishResult = Delivered | Lagged(behind: nat)

  /** The slot as its two owners see it between calls: a bounded FIFO queue over the ring. */
  class BroadcastSlot<T> {
    const connId: nat
    var head: nat
    var tail: nat
    const ring: array<Option<T>>
    var lagged: bool
    ghost var accepted: seq<T>
    ghost var received: seq<T>

    /** The state of the step machine between calls. */
    ghost function View(): State<T>
      reads this, ring
    {
      State(head, tail, ring[..], lagged, PIdle, CIdle, OIdle, accepted, received, [], 0, [])
    }

    ghost predicate Valid()
      reads this, ring
    {
      Inv(View())
    }

    ghost function Pending(): seq<T>
      reads this, ring
      requires Valid()
    {
      accepted[|received|..]
    }

    constructor (id: nat)
      ensures Valid() && Pending() == [] && connId == id && !lagged && fresh(ring)
    {
      connId := id;
      head, tail, lagged := 0, 0, false;
      ring := new Option<T>[RING_SIZE](_ => None);
      accepted, received := [], [];
      new;
      assert ring[..] == seq(RING_SIZE, _ => None);
      InitHolds<T>();
    }

    method Publish(message: T) returns (result: PublishResult)
      requires Valid()
      modifies this, ring
      ensures Valid() && received == old(received)
      ensures View() == Run(old(View()), PublishCall(message)).(lagReports := [])
      ensures result == if |old(Pending())| < 256 then Delivered else Lagged(0)
      ensures Pending() == if result.Delivered? then old(Pending()) + [message] else old(Pending())
      ensures lagged == (old(lagged) || result.Lagged?)
    {
      PublishAlone(View(), message);
      var used := WrappingSub(head, tail);
      if used >= RING_SIZE {
        lagged := true;
        return Lagged(used - RING_SIZE);
      }
      Store(message);
      return Delivered;
    }

    /** Into the slot at the head. */
    method Store(message: T)
      requires head < U64 && ring.Length == RING_SIZE
      modifies this`head, this`accepted, ring
      ensures View() == old(View().(ring := ring[..][head % RING_SIZE := Some(message)], head := (head + 1) % U64,
                                    accepted := accepted + [message]))
    {
      ring[head % RING_SIZE] := Some(message);
      head := (head + 1) % U64;
      accepted := accepted + [message];
    }

    method Recv() returns (result: Option<T>)
      requires Valid()
      modifies this, ring
      ensures Valid() && accepted == old(accepted) && lagged == old(lagged)
      ensures View() == Run(old(View()), RecvCall<T>())
      ensures old(Pending()) == [] ==> result == None && Pending() == []
      ensures old(Pending()) != [] ==> result == Some(old(Pending())[0]) && Pending() == old(Pending())[1..]
    {
      FrontAlone(View());
      if tail == head {
        return None;
      }
      result := Swap();
    }

    /** Out of the slot at the tail. */
    method Swap() returns (result: Option<T>)
      requires WordSized(View())
      modifies this`tail, this`received, ring
      ensures result == AtTail(old(View())) && View() == TailTaken(old(View()))
    {
      var slot := tail % RING_SIZE;
      result := ring[slot];
      ring[slot] := None;
      tail := (tail + 1) % U64;
      if result.Some? {
        received := received + [result.value];
      }
      assert ring[..] == old(ring[..])[slot := None];
    }
  }
}
