/**
 The conservative-update count-min sketch of senko-core/src/prob.rs: a table of `depth` rows
 and `width` columns kept as one vector.  The hash is any function that stays within a row.
 Counters saturate at the largest u64.
 */
module CountMin {
  import opened Common

  // ----- cells -----

  type Item = Bytes

  /** Column of an item in a row. */
  type Hash = (Item, nat) -> nat

  ghost predicate Bounded(hash: Hash, width: nat) {
    forall x, i :: hash(x, i) < width
  }

  /** `DoubleHasher::index`: the high word of a product. */
  function Index(h: nat, n: nat): nat {
    h * n / U64
  }

  lemma {:induction false} TimesGrows(a: nat, b: nat, w: nat)
    requires a < b
    ensures a * w + w <= b * w
    decreases b - a
  {
    assert b * w == (b - 1) * w + w;
    if a < b - 1 {
      TimesGrows(a, b - 1, w);
    }
  }

  lemma {:induction false} IndexBelow(h: nat, n: nat)
    requires h < U64 && n > 0
    ensures Index(h, n) < n && Index(h, n) * 0x1_0000_0000_0000_0000 <= h * n < (Index(h, n) + 1) * 0x1_0000_0000_0000_0000
  {
    TimesGrows(h, U64, n);
  }

  function At(width: nat, row: nat, column: nat): nat {
    row * width + column
  }

  lemma {:induction false} AtInside(width: nat, depth: nat, row: nat, column: nat)
    requires row < depth && column < width
    ensures At(width, row, column) < depth * width
  {
    TimesGrows(row, depth, width);
  }

  lemma {:induction false} AtApart(width: nat, row: nat, column: nat, row': nat, column': nat)
    requires column < width && column' < width
    ensures At(width, row, column) == At(width, row', column') <==> row == row' && column == column'
  {
    if row < row' {
      TimesGrows(row, row', width);
    } else if row' < row {
      TimesGrows(row', row, width);
    }
  }

  ghost predicate Table(counters: seq<nat>, width: nat, depth: nat) {
    |counters| == depth * width
  }

  function Cell(counters: seq<nat>, width: nat, depth: nat, row: nat, column: nat): nat
    requires Table(counters, width, depth) && row < depth && column < width
  {
    AtInside(width, depth, row, column);
    counters[At(width, row, column)]
  }

  function Min(a: nat, b: nat): nat {
    if a < b then a else b
  }

  function SaturatingAdd(a: nat, b: nat): nat {
    Min(a + b, U64 - 1)
  }

  // ----- one increment -----

  /** Least counter of an item in the rows before `row`. */
  function Least(counters: seq<nat>, width: nat, depth: nat, hash: Hash, x: Item, row: nat): nat
    requires Table(counters, width, depth) && Bounded(hash, width) && row <= depth
  {
    if row == 0 then U64 - 1
    else Min(Least(counters, width, depth, hash, x, row - 1), Cell(counters, width, depth, row - 1, hash(x, row - 1)))
  }

  /** Counters of an item that are not above `least`, in the rows before `row`, set to `value`. */
  function Raise(counters: seq<nat>, width: nat, depth: nat, hash: Hash, x: Item, least: nat, value: nat, row: nat): (r: seq<nat>)
    requires Table(counters, width, depth) && Bounded(hash, width) && row <= depth
    ensures Table(r, width, depth)
  {
    if row == 0 then counters
    else
      var before := Raise(counters, width, depth, hash, x, least, value, row - 1);
      AtInside(width, depth, row - 1, hash(x, row - 1));
      var at := At(width, row - 1, hash(x, row - 1));
      if before[at] <= least then before[at := value] else before
  }

  function Increment(counters: seq<nat>, width: nat, depth: nat, hash: Hash, x: Item, increment: nat): (r: seq<nat>)
    requires Table(counters, width, depth) && Bounded(hash, width)
    ensures Table(r, width, depth)
  {
    var least := Least(counters, width, depth, hash, x, depth);
    Raise(counters, width, depth, hash, x, least, SaturatingAdd(least, increment), depth)
  }

  function Query(counters: seq<nat>, width: nat, depth: nat, hash: Hash, x: Item): nat
    requires Table(counters, width, depth) && Bounded(hash, width)
  {
    var least := Least(counters, width, depth, hash, x, depth);
    if least == U64 - 1 then 0 else least
  }

  /** Only the item's own counters change, and only the least of them. */
  lemma {:induction false} RaisedCell(counters: seq<nat>, width: nat, depth: nat, hash: Hash, x: Item,
                                      least: nat, value: nat, row: nat, i: nat, c: nat)
    requires Table(counters, width, depth) && Bounded(hash, width) && row <= depth && i < depth && c < width
    ensures var was := Cell(counters, width, depth, i, c);
            Cell(Raise(counters, width, depth, hash, x, least, value, row), width, depth, i, c)
            == if i < row && c == hash(x, i) && was <= least then value else was
    decreases row
  {
    if row > 0 {
      RaisedCell(counters, width, depth, hash, x, least, value, row - 1, i, c);
      RaisedCell(counters, width, depth, hash, x, least, value, row - 1, row - 1, hash(x, row - 1));
      AtApart(width, i, c, row - 1, hash(x, row - 1));
      AtInside(width, depth, row - 1, hash(x, row - 1));
      AtInside(width, depth, i, c);
    }
  }

  lemma {:induction false} LeastIsLeast(counters: seq<nat>, width: nat, depth: nat, hash: Hash, x: Item, row: nat)
    requires Table(counters, width, depth) && Bounded(hash, width) && row <= depth
    ensures var least := Least(counters, width, depth, hash, x, row);
            && least <= U64 - 1
            && (forall i | 0 <= i < row :: least <= Cell(counters, width, depth, i, hash(x, i)))
            && (least == U64 - 1 || exists i | 0 <= i < row :: least == Cell(counters, width, depth, i, hash(x, i)))
    decreases row
  {
    if row > 0 {
      LeastIsLeast(counters, width, depth, hash, x, row - 1);
    }
  }

  /** The place of an item in a row of the flat table. */
  ghost predicate InRow(counters: seq<nat>, width: nat, hash: Hash, x: Item, row: nat) {
    row * width + hash(x, row) < |counters|
  }

  /** `least` is the least counter of the item over all rows, and at most the largest u64. */
  ghost predicate IsLeast(counters: seq<nat>, width: nat, depth: nat, hash: Hash, x: Item, least: nat) {
    && least <= 0xFFFF_FFFF_FFFF_FFFF
    && (forall i: nat | i < depth :: InRow(counters, width, hash, x, i) && least <= counters[i * width + hash(x, i)])
    && (least < 0xFFFF_FFFF_FFFF_FFFF ==>
          exists i: nat :: i < depth && InRow(counters, width, hash, x, i) && least == counters[i * width + hash(x, i)])
  }

  lemma {:induction false} LeastOfRows(counters: seq<nat>, width: nat, depth: nat, hash: Hash, x: Item)
    requires Table(counters, width, depth) && Bounded(hash, width)
    ensures IsLeast(counters, width, depth, hash, x, Least(counters, width, depth, hash, x, depth))
  {
    var least := Least(counters, width, depth, hash, x, depth);
    LeastIsLeast(counters, width, depth, hash, x, depth);
    forall i: nat | i < depth
      ensures InRow(counters, width, hash, x, i) && least <= counters[i * width + hash(x, i)]
      ensures least == Cell(counters, width, depth, i, hash(x, i)) ==> least == counters[i * width + hash(x, i)]
    {
      AtInside(width, depth, i, hash(x, i));
      assert least <= Cell(counters, width, depth, i, hash(x, i));
    }
  }

  /** Of the item's counters those at most `least` become `value`; no other place changes. */
  ghost predicate Raised(counters: seq<nat>, width: nat, depth: nat, hash: Hash, x: Item, least: nat, value: nat, after: seq<nat>) {
    && |after| == |counters|
    && forall i: nat, c: nat | i < depth && c < width :: RaisedAt(counters, width, hash, x, least, value, after, i, c)
  }

  ghost predicate RaisedAt(counters: seq<nat>, width: nat, hash: Hash, x: Item, least: nat, value: nat, after: seq<nat>, i: nat, c: nat)
    requires |after| == |counters|
  {
    var at := i * width + c;
    at < |counters| && after[at] == if c == hash(x, i) && counters[at] <= least then value else counters[at]
  }

  lemma {:induction false} RaisedPlaces(counters: seq<nat>, width: nat, depth: nat, hash: Hash, x: Item, least: nat, value: nat)
    requires Table(counters, width, depth) && Bounded(hash, width)
    ensures Raised(counters, width, depth, hash, x, least, value, Raise(counters, width, depth, hash, x, least, value, depth))
  {
    var after := Raise(counters, width, depth, hash, x, least, value, depth);
    forall i: nat, c: nat | i < depth && c < width ensures RaisedAt(counters, width, hash, x, least, value, after, i, c) {
      AtInside(width, depth, i, c);
      RaisedCell(counters, width, depth, hash, x, least, value, depth, i, c);
    }
  }

  // ----- runs -----

  type History = seq<(Item, nat)>

  function TrueCount(history: History, x: Item): nat {
    if history == [] then 0
    else
      var last := history[|history| - 1];
      TrueCount(history[..|history| - 1], x) + if last.0 == x then last.1 else 0
  }

  /** What a plain count-min table holds in a cell: all increments of the items that hash to it. */
  function Plain(history: History, hash: Hash, row: nat, column: nat): nat {
    if history == [] then 0
    else
      var last := history[|history| - 1];
      Plain(history[..|history| - 1], hash, row, column) + if hash(last.0, row) == column then last.1 else 0
  }

  /** What one more increment adds to the three sums. */
  lemma {:induction false} OneMore(history: History, hash: Hash, row: nat, column: nat, x: Item, y: Item, increment: nat)
    ensures TrueCount([], x) == 0 && Plain([], hash, row, column) == 0 && Total([]) == 0
    ensures TrueCount(history + [(y, increment)], x) == TrueCount(history, x) + if x == y then increment else 0
    ensures Plain(history + [(y, increment)], hash, row, column) ==
            Plain(history, hash, row, column) + if hash(y, row) == column then increment else 0
    ensures Total(history + [(y, increment)]) == Total(history) + increment
  {
    assert (history + [(y, increment)])[..|history|] == history;
  }

  function Total(history: History): nat {
    if history == [] then 0 else Total(history[..|history| - 1]) + history[|history| - 1].1
  }

  function Run(history: History, width: nat, depth: nat, hash: Hash): (r: seq<nat>)
    requires Bounded(hash, width)
    ensures Table(r, width, depth)
  {
    if history == [] then seq(depth * width, _ => 0)
    else
      var last := history[|history| - 1];
      Increment(Run(history[..|history| - 1], width, depth, hash), width, depth, hash, last.0, last.1)
  }

  ghost predicate AtMost(history: History, most: nat) {
    forall k | 0 <= k < |history| :: history[k].1 <= most
  }

  lemma {:induction false} CountsNest(history: History, hash: Hash, row: nat, x: Item)
    ensures TrueCount(history, x) <= Plain(history, hash, row, hash(x, row)) <= Total(history)
    decreases |history|
  {
    if history != [] {
      CountsNest(history[..|history| - 1], hash, row, x);
    }
  }

  /** One cell after one increment. */
  lemma {:induction false} IncrementedCell(counters: seq<nat>, width: nat, depth: nat, hash: Hash, x: Item, increment: nat, i: nat, c: nat)
    returns (least: nat)
    requires Table(counters, width, depth) && Bounded(hash, width) && i < depth && c < width
    ensures var was := Cell(counters, width, depth, i, c);
            Cell(Increment(counters, width, depth, hash, x, increment), width, depth, i, c)
            == if c == hash(x, i) && was <= least then SaturatingAdd(least, increment) else was
    ensures least == Least(counters, width, depth, hash, x, depth) <= U64 - 1
    ensures least <= Cell(counters, width, depth, i, hash(x, i))
  {
    least := Least(counters, width, depth, hash, x, depth);
    RaisedCell(counters, width, depth, hash, x, least, SaturatingAdd(least, increment), depth, i, c);
    LeastIsLeast(counters, width, depth, hash, x, depth);
  }

  /** For every run, no cell is above the plain sketch's. */
  lemma {:induction false} NeverAbovePlain(history: History, width: nat, depth: nat, hash: Hash, i: nat, c: nat)
    requires Bounded(hash, width) && i < depth && c < width
    ensures Cell(Run(history, width, depth, hash), width, depth, i, c) <= Plain(history, hash, i, c)
    decreases |history|
  {
    if history == [] {
      AtInside(width, depth, i, c);
    } else {
      var n := |history| - 1;
      NeverAbovePlain(history[..n], width, depth, hash, i, c);
      var before := Run(history[..n], width, depth, hash);
      var least := IncrementedCell(before, width, depth, hash, history[n].0, history[n].1, i, c);
    }
  }

  /** Every counter of the item is at least `bound`. */
  ghost predicate AllFrom(counters: seq<nat>, width: nat, depth: nat, hash: Hash, x: Item, bound: nat)
    requires Table(counters, width, depth) && Bounded(hash, width)
  {
    forall i | 0 <= i < depth :: Cell(counters, width, depth, i, hash(x, i)) >= bound
  }

  /** After unit increments every counter of an item is at least its count. */
  lemma {:induction false} NeverBelowUnit(history: History, width: nat, depth: nat, hash: Hash, x: Item)
    requires Bounded(hash, width) && AtMost(history, 1) && Total(history) < U64
    ensures AllFrom(Run(history, width, depth, hash), width, depth, hash, x, TrueCount(history, x))
    decreases |history|
  {
    if history != [] {
      var n := |history| - 1;
      var (y, increment) := history[n];
      var before := Run(history[..n], width, depth, hash);
      NeverBelowUnit(history[..n], width, depth, hash, x);
      CountsNest(history, hash, 0, x);
      forall i | 0 <= i < depth
        ensures Cell(Run(history, width, depth, hash), width, depth, i, hash(x, i)) >= TrueCount(history, x)
      {
        assert increment <= 1;
        assert Cell(before, width, depth, i, hash(x, i)) >= TrueCount(history[..n], x);
        var least := IncrementedCell(before, width, depth, hash, y, increment, i, hash(x, i));
        if x == y {
          LeastFrom(before, width, depth, hash, x, TrueCount(history[..n], x));
        }
      }
    }
  }

  lemma {:induction false} LeastFrom(counters: seq<nat>, width: nat, depth: nat, hash: Hash, x: Item, bound: nat)
    requires Table(counters, width, depth) && Bounded(hash, width) && bound < U64
    requires AllFrom(counters, width, depth, hash, x, bound)
    ensures Least(counters, width, depth, hash, x, depth) >= bound
  {
    LeastIsLeast(counters, width, depth, hash, x, depth);
  }

  // ----- queries -----

  /** For every run a query is at most the plain count in each row, and so at most the total. */
  lemma {:induction false} QueryAtMostPlain(history: History, width: nat, depth: nat, hash: Hash, x: Item, i: nat)
    requires Bounded(hash, width) && i < depth
    ensures Query(Run(history, width, depth, hash), width, depth, hash, x) <= Plain(history, hash, i, hash(x, i)) <= Total(history)
  {
    LeastIsLeast(Run(history, width, depth, hash), width, depth, hash, x, depth);
    NeverAbovePlain(history, width, depth, hash, i, hash(x, i));
    CountsNest(history, hash, i, x);
  }

  lemma {:induction false} QueryFrom(history: History, width: nat, depth: nat, hash: Hash, x: Item, bound: nat)
    requires Bounded(hash, width) && depth >= 1 && Total(history) < U64 - 1 && bound < U64
    requires AllFrom(Run(history, width, depth, hash), width, depth, hash, x, bound)
    ensures Query(Run(history, width, depth, hash), width, depth, hash, x) >= bound
  {
    var counters := Run(history, width, depth, hash);
    LeastIsLeast(counters, width, depth, hash, x, depth);
    LeastFrom(counters, width, depth, hash, x, bound);
    NeverAbovePlain(history, width, depth, hash, 0, hash(x, 0));
    CountsNest(history, hash, 0, x);
  }

  /** For every hash and every run of increments up to `most`, no query is below the true count. */
  ghost predicate NeverBelow(width: nat, depth: nat, most: nat) {
    forall hash: Hash, history: History, x: Item
      | Bounded(hash, width) && AtMost(history, most) && Total(history) < U64 - 1 ::
      TrueCount(history, x) <= Query(Run(history, width, depth, hash), width, depth, hash, x)
  }

  lemma {:induction false} OneRowIsPlain(history: History, width: nat, hash: Hash, c: nat)
    requires Bounded(hash, width) && c < width && Total(history) < U64
    ensures Cell(Run(history, width, 1, hash), width, 1, 0, c) == Plain(history, hash, 0, c)
    decreases |history|
  {
    if history == [] {
      AtInside(width, 1, 0, c);
    } else {
      var n := |history| - 1;
      var (y, increment) := history[n];
      OneRowIsPlain(history[..n], width, hash, c);
      CountsNest(history, hash, 0, y);
      var before := Run(history[..n], width, 1, hash);
      var least := IncrementedCell(before, width, 1, hash, y, increment, 0, c);
      if c == hash(y, 0) {
        LeastFrom(before, width, 1, hash, y, Plain(history[..n], hash, 0, c));
      }
    }
  }

  lemma {:induction false} OneColumnIsTotal(history: History, depth: nat, hash: Hash, i: nat)
    requires Bounded(hash, 1) && i < depth && Total(history) < U64
    ensures Cell(Run(history, 1, depth, hash), 1, depth, i, 0) == Total(history)
    decreases |history|
  {
    if history == [] {
      AtInside(1, depth, i, 0);
    } else {
      var n := |history| - 1;
      var (y, increment) := history[n];
      var before := Run(history[..n], 1, depth, hash);
      forall j | 0 <= j < depth ensures Cell(before, 1, depth, j, hash(y, j)) == Total(history[..n]) {
        OneColumnIsTotal(history[..n], depth, hash, j);
      }
      var least := IncrementedCell(before, 1, depth, hash, y, increment, i, 0);
      LeastFrom(before, 1, depth, hash, y, Total(history[..n]));
    }
  }

  /** The lower bound holds for all hashes and runs exactly for unit increments, one row or one column. */
  lemma {:induction false} NeverBelowIff(width: nat, depth: nat, most: nat)
    requires width >= 1 && depth >= 1
    ensures NeverBelow(width, depth, most) <==> most <= 1 || depth == 1 || width == 1
  {
    if most <= 1 || depth == 1 || width == 1 {
      forall hash: Hash, history: History, x: Item
        | Bounded(hash, width) && AtMost(history, most) && Total(history) < U64 - 1
        ensures TrueCount(history, x) <= Query(Run(history, width, depth, hash), width, depth, hash, x)
      {
        CellsFromCount(history, width, depth, hash, most, x);
        CountsNest(history, hash, 0, x);
        QueryFrom(history, width, depth, hash, x, TrueCount(history, x));
      }
    } else {
      QueryFallsShort(width, depth);
    }
  }

  lemma {:induction false} CellsFromCount(history: History, width: nat, depth: nat, hash: Hash, most: nat, x: Item)
    requires Bounded(hash, width) && AtMost(history, most) && Total(history) < U64
    requires most <= 1 || depth == 1 || width == 1
    ensures AllFrom(Run(history, width, depth, hash), width, depth, hash, x, TrueCount(history, x))
  {
    if most <= 1 {
      NeverBelowUnit(history, width, depth, hash, x);
    } else {
      forall i | 0 <= i < depth
        ensures Cell(Run(history, width, depth, hash), width, depth, i, hash(x, i)) >= TrueCount(history, x)
      {
        CountsNest(history, hash, i, x);
        if depth == 1 {
          OneRowIsPlain(history, width, hash, hash(x, 0));
        } else {
          OneColumnIsTotal(history, depth, hash, i);
        }
      }
    }
  }

  /** An item that shares its counters with another in every row but the first. */
  function Sharing(first: Item): Hash {
    (x: Item, i: nat) => if x == first || i > 0 then 0 else 1
  }

  /** The shared counter keeps the first item's count; only the second item's own counter is raised. */
  lemma {:induction false} SharedCounterStays(width: nat, depth: nat, hash: Hash, a: Item, b: Item, zero: seq<nat>)
    requires width >= 2 && depth >= 2 && Bounded(hash, width) && zero == Run([], width, depth, hash)
    requires hash(a, 0) == 0 && hash(a, 1) == 0 && hash(b, 0) == 1 && hash(b, 1) == 0
    ensures var one := Increment(zero, width, depth, hash, a, 1);
            Cell(Increment(one, width, depth, hash, b, 2), width, depth, 1, 0) == 1
  {
    AtInside(width, depth, 1, 0);
    AtInside(width, depth, 0, 1);
    var one := Increment(zero, width, depth, hash, a, 1);
    var l0 := IncrementedCell(zero, width, depth, hash, a, 1, 1, 0);
    l0 := IncrementedCell(zero, width, depth, hash, a, 1, 0, 1);
    var l1 := IncrementedCell(one, width, depth, hash, b, 2, 0, 1);
    l1 := IncrementedCell(one, width, depth, hash, b, 2, 1, 0);
  }

  lemma {:induction false} RunOfTwo(width: nat, depth: nat, hash: Hash, x: (Item, nat), y: (Item, nat))
    requires Bounded(hash, width)
    ensures Run([x, y], width, depth, hash) ==
            Increment(Increment(Run([], width, depth, hash), width, depth, hash, x.0, x.1), width, depth, hash, y.0, y.1)
    ensures Total([x, y]) == x.1 + y.1
    ensures x.0 != y.0 ==> TrueCount([x, y], y.0) == y.1
  {
    var both: History, start: History := [x, y], [x];
    assert both[..1] == start && start[..0] == [];
    assert Run(start, width, depth, hash) == Increment(Run([], width, depth, hash), width, depth, hash, x.0, x.1);
    assert Total(start) == x.1 && TrueCount(start, y.0) == if x.0 == y.0 then x.1 else 0;
  }

  /** Two items, one increment each: the second is counted as one although two were added. */
  lemma {:induction false} QueryFallsShort(width: nat, depth: nat)
    requires width >= 2 && depth >= 2
    ensures var a: Item, b: Item := [0], [1];
            var hash, history: History := Sharing(a), [(a, 1), (b, 2)];
            && Bounded(hash, width) && AtMost(history, 2) && Total(history) == 3 && TrueCount(history, b) == 2
            && Query(Run(history, width, depth, hash), width, depth, hash, b) <= 1
  {
    var a: Item, b: Item := [0], [1];
    var hash, history: History := Sharing(a), [(a, 1), (b, 2)];
    RunOfTwo(width, depth, hash, (a, 1), (b, 2));
    SharedCounterStays(width, depth, hash, a, b, Run([], width, depth, hash));
    LeastIsLeast(Run(history, width, depth, hash), width, depth, hash, b, depth);
    assert Cell(Run(history, width, depth, hash), width, depth, 1, hash(b, 1)) == 1;
  }

  // ----- the sketch -----

  class CountMinSketch {
    var counters: seq<nat>
    const width: nat
    const depth: nat
    var totalCount: nat
    const hash: Hash
    ghost var history: History

    ghost predicate Valid()
      reads this
    {
      && width >= 1 && depth >= 1 && Bounded(hash, width)
      && counters == Run(history, width, depth, hash)
      && totalCount == Min(Total(history), U64 - 1)
    }

    constructor (width: nat, depth: nat, hash: Hash)
      requires Bounded(hash, if width == 0 then 1 else width)
      ensures Valid() && history == [] && this.hash == hash
      ensures this.width == (if width == 0 then 1 else width) && this.depth == if depth == 0 then 1 else depth
    {
      var w := if width == 0 then 1 else width;
      var d := if depth == 0 then 1 else depth;
      this.width, this.depth, this.hash := w, d, hash;
      counters, totalCount, history := seq(d * w, _ => 0), 0, [];
    }

    method LeastCounter(x: Item) returns (least: nat)
      requires Table(counters, width, depth) && Bounded(hash, width)
      ensures least == Least(counters, width, depth, hash, x, depth)
      ensures IsLeast(counters, width, depth, hash, x, least)
    {
      LeastOfRows(counters, width, depth, hash, x);
      least := U64 - 1;
      for i := 0 to depth
        invariant least == Least(counters, width, depth, hash, x, i)
      {
        AtInside(width, depth, i, hash(x, i));
        least := Min(least, counters[i * width + hash(x, i)]);
      }
    }

    method Incrby(x: Item, increment: nat) returns (value: nat, ghost least: nat)
      requires Valid()
      modifies this
      ensures Valid() && history == old(history) + [(x, increment)]
      ensures IsLeast(old(counters), width, depth, hash, x, least)
      ensures value == if least + increment <= 0xFFFF_FFFF_FFFF_FFFF then least + increment else 0xFFFF_FFFF_FFFF_FFFF
      ensures Raised(old(counters), width, depth, hash, x, least, value, counters)
      ensures totalCount == if old(totalCount) + increment <= 0xFFFF_FFFF_FFFF_FFFF then old(totalCount) + increment
                            else 0xFFFF_FFFF_FFFF_FFFF
    {
      var current := LeastCounter(x);
      least := current;
      value := SaturatingAdd(current, increment);
      RaiseCounters(x, current, value);
      totalCount := SaturatingAdd(totalCount, increment);
      history := history + [(x, increment)];
      assert history[..|history| - 1] == old(history);
    }

    /** Give the item's counters that are not above `least` a new value. */
    method RaiseCounters(x: Item, least: nat, value: nat)
      requires Table(counters, width, depth) && Bounded(hash, width)
      modifies this`counters
      ensures counters == Raise(old(counters), width, depth, hash, x, least, value, depth)
      ensures Raised(old(counters), width, depth, hash, x, least, value, counters)
    {
      ghost var before := counters;
      RaisedPlaces(before, width, depth, hash, x, least, value);
      for i := 0 to depth
        invariant counters == Raise(before, width, depth, hash, x, least, value, i)
      {
        AtInside(width, depth, i, hash(x, i));
        var at := i * width + hash(x, i);
        if counters[at] <= least {
          counters := counters[at := value];
        }
      }
    }

    /** Never above the total, and never below the true count when that is promised. */
    method QueryCount(x: Item) returns (count: nat)
      requires Valid()
      ensures IsLeast(counters, width, depth, hash, x, count)
              || (count == 0 && IsLeast(counters, width, depth, hash, x, 0xFFFF_FFFF_FFFF_FFFF))
      ensures count == Query(counters, width, depth, hash, x)
      ensures count <= Total(history)
      ensures forall i | 0 <= i < depth :: count <= Plain(history, hash, i, hash(x, i))
      ensures Total(history) < U64 - 1 && (AtMost(history, 1) || depth == 1 || width == 1) ==>
                TrueCount(history, x) <= count
    {
      count := LeastCounter(x);
      if count == U64 - 1 {
        count := 0;
      }
      forall i | 0 <= i < depth ensures count <= Plain(history, hash, i, hash(x, i)) <= Total(history) {
        QueryAtMostPlain(history, width, depth, hash, x, i);
      }
      QueryAtMostPlain(history, width, depth, hash, x, 0);
      if Total(history) < U64 - 1 && (AtMost(history, 1) || depth == 1 || width == 1) {
        ghost var most := if AtMost(history, 1) then 1 else Total(history);
        IncrementsBounded(history);
        CellsFromCount(history, width, depth, hash, most, x);
        CountsNest(history, hash, 0, x);
        QueryFrom(history, width, depth, hash, x, TrueCount(history, x));
      }
    }
  }

  lemma {:induction false} IncrementsBounded(history: History)
    ensures AtMost(history, Total(history))
    decreases |history|
  {
    if history != [] {
      IncrementsBounded(history[..|history| - 1]);
    }
  }
}
