/** revocation.go: how a client fetches the revocation events it misses: the latest update, and for
    what lies before it ranges that servers and caches can share. */
module RevocationRanges {
  import opened Outcomes
  import opened RevocationLog
  import opened RevocationStorage

  const WORD := 0x1_0000_0000_0000_0000
  const MIN_POWER := 4
  const MAX_POWER := 9
  const MIN_COUNT := 16
  const MAX_COUNT := 512

  type uint64 = n: int | 0 <= n < WORD

  /** From `from` up to but not including `to`. */
  datatype Range = Range(from: uint64, to: uint64)

  function Pow2(n: nat): (p: nat)
    ensures p >= 1
  {
    if n == 0 then 1 else 2 * Pow2(n - 1)
  }

  /** bits.Len64 */
  function BitLength(n: nat): (l: nat)
    ensures n < Pow2(l)
    ensures n > 0 ==> l > 0 && Pow2(l - 1) <= n
  {
    if n == 0 then 0 else 1 + BitLength(n / 2)
  }

  lemma {:induction false} Pow2Monotone(a: nat, b: nat)
    requires a <= b
    ensures Pow2(a) <= Pow2(b)
  {
    if a < b {
      Pow2Monotone(a, b - 1);
    }
  }

  /** 64-bit arithmetic */
  function Wrap(x: int): uint64 { x % WORD }

  lemma WrapSmall(x: int)
    ensures 0 <= x < WORD ==> Wrap(x) == x
    ensures WORD <= x < 2 * WORD ==> Wrap(x) == x - WORD
    ensures -WORD <= x < 0 ==> Wrap(x) == x + WORD
  {
  }

  predicate MultipleOf(x: int, d: int) { d > 0 && x % d == 0 }

  function RangeStart(from: uint64): uint64 { from / MAX_COUNT * MAX_COUNT }

  /** Rounded up to a multiple of MIN_COUNT, but always past `to`; 64-bit, so that it wraps to 0 near the top. */
  function RangeEnd(to: uint64): uint64 { Wrap(to + MIN_COUNT) / MIN_COUNT * MIN_COUNT }

  /** A power of two between the bounds, starting at a multiple of its length. */
  predicate Aligned(r: Range, p: nat) {
    MIN_POWER <= p <= MAX_POWER && r.to == r.from + Pow2(p) && MultipleOf(r.from, Pow2(p))
  }

  ghost predicate AlignedRange(r: Range) { exists p: nat :: Aligned(r, p) }

  /** Ranges that follow each other from `start` to `end`, each aligned, never longer than the one
      before, and shorter than it unless both have the maximal length. */
  ghost predicate Partition(rs: seq<Range>, start: int, end: int) {
    && (rs == [] ==> start == end)
    && (rs != [] ==> rs[0].from == start && rs[|rs| - 1].to == end)
    && (forall k: nat :: k < |rs| ==> AlignedRange(rs[k]))
    && (forall k: nat :: k + 1 < |rs| ==> Adjacent(rs, k))
  }

  predicate Adjacent(rs: seq<Range>, k: nat)
    requires k + 1 < |rs|
  {
    var a, b := rs[k], rs[k + 1];
    && b.from == a.to
    && (b.to - b.from < a.to - a.from || b.to - b.from == a.to - a.from == MAX_COUNT)
  }

  lemma Powers()
    ensures Pow2(4) == 16 && Pow2(5) == 32 && Pow2(6) == 64 && Pow2(7) == 128 && Pow2(8) == 256 && Pow2(9) == 512
  {
    assert Pow2(3) == 8;
  }

  lemma MultipleByFactor(q: int, d: int)
    requires d > 0
    ensures MultipleOf(q * d, d)
  {
    var x := q * d;
    var k := q - x / d;
    assert k * d == q * d - x / d * d;
    FactorBound(k, d);
  }

  lemma FactorBound(k: int, d: int)
    requires d > 0
    ensures k >= 1 ==> k * d >= d
    ensures k <= -1 ==> k * d <= -d
  {
  }

  lemma MultipleSum(x: int, y: int, d: int)
    requires MultipleOf(x, d) && MultipleOf(y, d)
    ensures MultipleOf(x + y, d)
  {
    var q, r := x / d, y / d;
    assert x == q * d && y == r * d;
    assert x + y == (q + r) * d;
    MultipleByFactor(q + r, d);
  }

  lemma MultipleHalf(x: int, d: int)
    requires d > 0 && MultipleOf(x, 2 * d)
    ensures MultipleOf(x, d)
  {
    var q := x / (2 * d);
    assert x == q * (2 * d);
    assert q * (2 * d) == (2 * q) * d;
    MultipleByFactor(2 * q, d);
  }

  lemma {:induction false} MultipleLowerPower(x: int, p: nat, q: nat)
    requires q <= p && MultipleOf(x, Pow2(p))
    ensures MultipleOf(x, Pow2(q))
  {
    if q < p {
      hide MultipleOf;
      MultipleHalf(x, Pow2(p - 1));
      MultipleLowerPower(x, p - 1, q);
    }
  }

  lemma MultipleItself(d: int)
    requires d > 0
    ensures MultipleOf(d, d) && MultipleOf(0, d)
  {
  }

  /** Multiples of the minimal length are at least that far apart. */
  lemma MultiplesApart(x: int, y: int)
    requires MultipleOf(x, MIN_COUNT) && MultipleOf(y, MIN_COUNT) && x < y
    ensures x + MIN_COUNT <= y
  {
  }

  /** What holds before the next range is chosen: `pow` is the power of the last one, or the first to try. */
  predicate Ready(i: int, end: int, pow: int, first: bool) {
    && 0 <= i <= end <= WORD - MAX_COUNT && MultipleOf(end, MIN_COUNT)
    && MIN_POWER <= pow <= MAX_POWER && MultipleOf(i, Pow2(pow))
    && (pow < MAX_POWER ==> end - i < (if first then 2 else 1) * Pow2(pow))
  }

  lemma SmallStart(start: int)
    requires MultipleOf(start, MAX_COUNT)
    ensures 0 <= start < MAX_COUNT ==> start == 0
  {
  }

  lemma ReadyAtStart(start: int, end: int)
    requires 0 <= start < end <= WORD - MAX_COUNT && MultipleOf(start, MAX_COUNT) && MultipleOf(end, MIN_COUNT)
    ensures Ready(start, end, if BitLength(end) - 1 > MAX_POWER then MAX_POWER else BitLength(end) - 1, true)
  {
    hide MultipleOf, BitLength;
    var l := BitLength(end);
    MultipleItself(MIN_COUNT);
    MultiplesApart(0, end);
    assert end < Pow2(l) == 2 * Pow2(l - 1) && Pow2(l - 1) <= end;
    Powers();
    Pow2Monotone(l, if l < 5 then 4 else l);
    Pow2Monotone(l, if l < 10 then 9 else l);
    hide Pow2;
    SmallStart(start);
    MultipleItself(Pow2(l - 1));
  }

  /** The end lies past `to` by no more than the minimal length, unless it wraps to 0. */
  lemma EndBelow(to: uint64)
    ensures MultipleOf(RangeEnd(to), MIN_COUNT)
    ensures to < WORD - MIN_COUNT ==> to < RangeEnd(to) <= to + MIN_COUNT
    ensures to >= WORD - MIN_COUNT ==> RangeEnd(to) == 0
    ensures to < WORD - MAX_COUNT ==> RangeEnd(to) <= WORD - MAX_COUNT
  {
    WrapSmall(to + MIN_COUNT);
    hide Wrap;
  }

  lemma StartBelow(from: uint64)
    ensures MultipleOf(RangeStart(from), MAX_COUNT) && RangeStart(from) <= from < RangeStart(from) + MAX_COUNT
  {
  }

  /** A range that does not fit is halved; one of minimal length always fits. */
  lemma Halve(i: int, end: int, pow: int)
    requires Ready(i, end, pow, true) && i < end && i + Pow2(pow) > end
    ensures Ready(i, end, pow - 1, true)
  {
    hide MultipleOf;
    Powers();
    MultipleLowerPower(i, pow, MIN_POWER);
    MultiplesApart(i, end);
    MultipleLowerPower(i, pow, pow - 1);
  }

  lemma Take(i: int, end: int, pow: int)
    requires Ready(i, end, pow, true) && i + Pow2(pow) <= end
    ensures Ready(i + Pow2(pow), end, pow, false) && Aligned(Range(i, i + Pow2(pow)), pow)
  {
    hide MultipleOf, Pow2;
    MultipleItself(Pow2(pow));
    MultipleSum(i, Pow2(pow), Pow2(pow));
  }

  lemma PartitionGrows(rs: seq<Range>, start: int, i: int, next: Range, p: nat)
    requires Partition(rs, start, i) && next.from == i && Aligned(next, p)
    requires rs != [] ==> var last := rs[|rs| - 1];
      next.to - next.from < last.to - last.from || next.to - next.from == last.to - last.from == MAX_COUNT
    ensures Partition(rs + [next], start, next.to)
  {
    var all := rs + [next];
    forall k: nat | k < |all| ensures AlignedRange(all[k]) {
      if k < |rs| {
        assert AlignedRange(rs[k]);
      }
    }
    forall k: nat | k + 1 < |all| ensures Adjacent(all, k) {
      if k + 1 < |rs| {
        assert Adjacent(rs, k);
      }
    }
  }

  /** binaryPartition. Between WORD - 512 and WORD - 16 the loop of the source never ends. */
  method BinaryPartition(from: uint64, to: uint64) returns (rs: seq<Range>)
    requires to < WORD - MAX_COUNT || to >= WORD - MIN_COUNT
    ensures RangeStart(from) >= RangeEnd(to) ==> rs == []
    ensures RangeStart(from) < RangeEnd(to) ==> rs != [] && Partition(rs, RangeStart(from), RangeEnd(to))
  {
    hide RangeStart, RangeEnd, Ready, Partition, BitLength, Pow2, AlignedRange, Aligned, Wrap, MultipleOf;
    var start, end := RangeStart(from), RangeEnd(to);
    var pow: int := BitLength(end) - 1;
    if pow > MAX_POWER {
      pow := MAX_POWER;
    }
    rs := [];
    if start >= end {
      return;
    }
    EndBelow(to);
    StartBelow(from);
    ReadyAtStart(start, end);
    EmptyPartition(start);
    var i := start;
    while i < end
      invariant start <= i <= end && pow >= 0 && Ready(i, end, pow, rs == []) && Partition(rs, start, i)
      invariant rs != [] ==> rs[|rs| - 1].to - rs[|rs| - 1].from == Pow2(pow)
      invariant i == start || rs != []
      decreases end - i
    {
      ghost var before := pow;
      Bounds(i, end, pow, rs == []);
      while Wrap(i + Pow2(pow)) > end
        invariant Ready(i, end, pow, true) && MIN_POWER <= pow <= before <= MAX_POWER
          && Wrap(i + Pow2(pow)) == i + Pow2(pow)
        decreases pow
      {
        Halve(i, end, pow);
        pow := pow - 1;
        Bounds(i, end, pow, true);
      }
      Shorter(i, end, pow, before, rs == []);
      Take(i, end, pow);
      assert rs != [] ==> var last := rs[|rs| - 1]; last.to - last.from == Pow2(before);
      PartitionGrows(rs, start, i, Range(i, i + Pow2(pow)), pow);
      rs := rs + [Range(i, i + Pow2(pow))];
      i := i + Pow2(pow);
    }
  }

  lemma EmptyPartition(start: int)
    ensures Partition([], start, start)
  {
  }

  lemma Bounds(i: int, end: int, pow: int, first: bool)
    requires Ready(i, end, pow, first) && i < end
    ensures 0 <= i <= end < WORD && MIN_POWER <= pow <= MAX_POWER && Wrap(i + Pow2(pow)) == i + Pow2(pow)
      && Ready(i, end, pow, true)
  {
    WrapSmall(i + Pow2(pow));
    hide Wrap, MultipleOf;
    Powers();
    Pow2Monotone(pow, MAX_POWER);
  }

  /** A range that fits is shorter than the last one, unless that had the maximal length. */
  lemma Shorter(i: int, end: int, pow: int, before: int, first: bool)
    requires Ready(i, end, before, first) && MIN_POWER <= pow <= before && i + Pow2(pow) <= end
    ensures !first ==> Pow2(pow) < Pow2(before) || Pow2(pow) == Pow2(before) == MAX_COUNT
  {
    hide MultipleOf;
    Powers();
    if pow < before {
      Pow2Monotone(pow, before - 1);
    }
  }

  // ---------------------------------------------------------------- near the top of 64 bits

  /** One round of the loop of the source: the next `i`, for a `pow` at which i + 2^pow does not exceed the end. */
  function NextStart(i: uint64, pow: nat): uint64 { Wrap(i + Pow2(pow)) }

  function StartAfter(rounds: nat, start: uint64): uint64 {
    if rounds == 0 then start else NextStart(StartAfter(rounds - 1, start), MAX_POWER)
  }

  lemma TopEnd(to: uint64)
    requires WORD - MAX_COUNT <= to < WORD - MIN_COUNT
    ensures WORD - MAX_COUNT < RangeEnd(to) && BitLength(RangeEnd(to)) > MAX_POWER
  {
    EndBelow(to);
    hide RangeEnd;
    Powers();
    var l := BitLength(RangeEnd(to));
    assert RangeEnd(to) < Pow2(l);
    Pow2Monotone(l, if l < 9 then 9 else l);
    hide Pow2, BitLength;
  }

  lemma StartLow(i: uint64)
    requires MultipleOf(i, MAX_COUNT)
    ensures i <= WORD - MAX_COUNT
  {
  }

  lemma TopStep(i: uint64)
    requires MultipleOf(i, MAX_COUNT)
    ensures MultipleOf(NextStart(i, MAX_POWER), MAX_COUNT) && NextStart(i, MAX_POWER) <= WORD - MAX_COUNT
  {
    Powers();
    WrapSmall(i + MAX_COUNT);
    hide Pow2, Wrap;
    assert i + MAX_COUNT <= WORD;
  }

  /** Just below the top the loop never ends: from every start no number of rounds gets past the end,
      and 2^9 always seems to fit, because the sum wraps. */
  lemma {:induction false} NeverEnds(from: uint64, to: uint64, rounds: nat)
    requires WORD - MAX_COUNT <= to < WORD - MIN_COUNT
    ensures var i := StartAfter(rounds, RangeStart(from));
            i < RangeEnd(to) && !(NextStart(i, MAX_POWER) > RangeEnd(to)) && MultipleOf(i, MAX_COUNT)
    ensures BitLength(RangeEnd(to)) - 1 >= MAX_POWER
  {
    TopEnd(to);
    StartBelow(from);
    StartLow(RangeStart(from));
    hide RangeEnd, RangeStart, NextStart, BitLength, MultipleOf;
    if rounds > 0 {
      NeverEnds(from, to, rounds - 1);
      TopStep(StartAfter(rounds - 1, RangeStart(from)));
    }
    TopStep(StartAfter(rounds, RangeStart(from)));
  }

  // ---------------------------------------------------------------- what a partition covers

  predicate In(r: Range, x: int) { r.from <= x < r.to }

  lemma {:induction false} PartitionOrder(rs: seq<Range>, start: int, end: int, j: nat, k: nat)
    requires Partition(rs, start, end) && j <= k < |rs|
    ensures start <= rs[j].from && rs[j].to - rs[j].from >= rs[k].to - rs[k].from
    ensures j < k ==> rs[j].to <= rs[k].from
    ensures j < k && rs[j].to - rs[j].from == rs[k].to - rs[k].from ==> rs[k].to - rs[k].from == MAX_COUNT
    decreases k, j
  {
    if j > 0 && j == k {
      PartitionOrder(rs, start, end, j - 1, j - 1);
      assert Adjacent(rs, j - 1);
      assert AlignedRange(rs[j - 1]);
    } else if j < k {
      PartitionOrder(rs, start, end, j, k - 1);
      assert Adjacent(rs, k - 1);
      assert AlignedRange(rs[k - 1]);
    }
  }

  /** Every index between the ends lies in exactly one range. */
  lemma PartitionCovers(rs: seq<Range>, start: int, end: int, x: int)
    requires Partition(rs, start, end) && start <= x < end
    ensures exists k: nat :: k < |rs| && In(rs[k], x)
    ensures forall j: nat, k: nat :: j < |rs| && k < |rs| && In(rs[j], x) && In(rs[k], x) ==> j == k
  {
    FindRange(rs, start, end, x, |rs| - 1);
    forall j: nat, k: nat | j < |rs| && k < |rs| && In(rs[j], x) && In(rs[k], x) ensures j == k {
      if j < k {
        PartitionOrder(rs, start, end, j, k);
      } else if k < j {
        PartitionOrder(rs, start, end, k, j);
      }
    }
  }

  lemma {:induction false} FindRange(rs: seq<Range>, start: int, end: int, x: int, n: nat)
    requires Partition(rs, start, end) && n < |rs| && start <= x < rs[n].to
    ensures exists k: nat :: k <= n && In(rs[k], x)
  {
    if rs[n].from <= x {
      assert In(rs[n], x);
    } else {
      assert n > 0;
      assert Adjacent(rs, n - 1);
      FindRange(rs, start, end, x, n - 1);
    }
  }

  // ---------------------------------------------------------------- fetching

  /** The check with which RevocationStorage.Events starts. */
  predicate Legal(r: Range) { r.from < r.to && r.from % MIN_COUNT == 0 && r.to % MIN_COUNT == 0 }

  lemma AlignedLegal(r: Range, p: nat)
    requires Aligned(r, p)
    ensures Legal(r)
  {
    hide Legal, MultipleOf;
    Powers();
    MultipleLowerPower(r.from, p, MIN_POWER);
    MultipleItself(Pow2(p));
    MultipleLowerPower(Pow2(p), p, MIN_POWER);
    MultipleSum(r.from, Pow2(p), MIN_COUNT);
    LegalMeans(r);
  }

  lemma LegalMeans(r: Range)
    ensures Legal(r) <==> r.from < r.to && MultipleOf(r.from, MIN_COUNT) && MultipleOf(r.to, MIN_COUNT)
  {
  }

  lemma PartitionLegal(rs: seq<Range>, start: int, end: int, k: nat)
    requires Partition(rs, start, end) && k < |rs|
    ensures Legal(rs[k])
  {
    assert AlignedRange(rs[k]);
    hide Legal, Pow2, Aligned, MultipleOf;
    var p: nat :| Aligned(rs[k], p);
    AlignedLegal(rs[k], p);
  }

  /** The index before the events of the latest update; 64-bit, so that it wraps when the update holds the whole log. */
  function Missing(index: uint64, count: nat): uint64
    requires count <= index + 1
  {
    Wrap(index - count)
  }

  ghost predicate Requested(rs: seq<Range>, x: int) { exists k: nat :: k < |rs| && In(rs[k], x) }

  /** The index before the update's events, as a number; -1 if the update holds the whole log. */
  function Before(index: uint64, count: nat): int { index - count }

  /** The ranges FetchUpdateFrom asks for, beside a latest update of `count` events up to `index`; defined
      where the loop of binaryPartition ends. Together they cover everything from `from` on exactly if the
      update holds the whole log, or reaches back beyond `from`, or more than one event is missing, far
      enough from the top of 64 bits: not if precisely the event before the update is missing. */
  method FetchRanges(from: uint64, index: uint64, count: nat) returns (rs: seq<Range>)
    requires count <= index + 1
    requires var to := Missing(index, count); from >= to || to < WORD - MAX_COUNT || to >= WORD - MIN_COUNT
    ensures var to := Before(index, count);
            (forall x :: from <= x <= index ==> Requested(rs, x) || x > to) <==>
            to == -1 || from > to || from > index || from < to < WORD - MAX_COUNT
    ensures forall k: nat :: k < |rs| ==> Legal(rs[k])
    ensures var to := Before(index, count);
            if from < to < WORD - MAX_COUNT then Partition(rs, RangeStart(from), RangeEnd(to)) else rs == []
  {
    hide RangeEnd, RangeStart, Partition, Legal, Requested, Wrap, MultipleOf;
    var to := Missing(index, count);
    WrapSmall(index - count);
    rs := [];
    if from < to {
      rs := BinaryPartition(from, to);
      EndBelow(to);
      StartBelow(from);
    }
    FetchCovers(rs, from, index, count);
  }

  lemma FetchCovers(rs: seq<Range>, from: uint64, index: uint64, count: nat)
    requires count <= index + 1
    requires var to := Before(index, count);
             if from < to < WORD - MAX_COUNT then Partition(rs, RangeStart(from), RangeEnd(to)) else rs == []
    ensures var to := Before(index, count);
            (forall x :: from <= x <= index ==> Requested(rs, x) || x > to) <==>
            to == -1 || from > to || from > index || from < to < WORD - MAX_COUNT
    ensures forall k: nat :: k < |rs| ==> Legal(rs[k])
  {
    hide MultipleOf, Legal, RangeStart, RangeEnd;
    var to := Before(index, count);
    if from <= to && !(from < to < WORD - MAX_COUNT) {
      assert !Requested(rs, from);
    }
    if from < to < WORD - MAX_COUNT {
      EndBelow(to);
      StartBelow(from);
      var start, end := RangeStart(from), RangeEnd(to);
      forall x | from <= x <= to ensures Requested(rs, x) {
        PartitionCovers(rs, start, end, x);
      }
      forall k: nat | k < |rs| ensures Legal(rs[k]) {
        PartitionLegal(rs, start, end, k);
      }
    }
  }

  // ---------------------------------------------------------------- what the server answers

  /** The answers to the ranges one after the other, if all of them are answered. */
  function Answers(log: Log, rs: seq<Range>): Outcome<seq<Event>> {
    if rs == [] then Done([])
    else
      var init :- Answers(log, rs[..|rs| - 1]);
      var last :- EventsIn(Some(log), rs[|rs| - 1].from, rs[|rs| - 1].to);
      Done(init + last)
  }

  /** A log that holds all events from index 0. */
  predicate Complete(log: Log) {
    Sound(log) && log.events[0].index == 0 && Head(log) < 0x8000_0000_0000_0000 - MAX_COUNT
  }

  lemma CompleteIndices(log: Log, from: nat, to: nat)
    requires Complete(log) && from < to < 0x8000_0000_0000_0000
    ensures |log.events| == Head(log) + 1
    ensures EventsIn(Some(log), from, to) == if to <= Head(log) + 1 then Done(log.events[from..to]) else Err
  {
    LinkedIndices(log.events, |log.events| - 1);
    EventsExact(log, from, to);
    SmallDifference(from, 0);
    SmallDifference(to, 0);
  }

  lemma PartitionInit(rs: seq<Range>, start: int, end: int)
    requires Partition(rs, start, end) && rs != []
    ensures start <= rs[|rs| - 1].from && rs[|rs| - 1].to == end && Partition(rs[..|rs| - 1], start, rs[|rs| - 1].from)
    ensures |rs| == 1 ==> rs[0].from == start
  {
    var n := |rs| - 1;
    PartitionOrder(rs, start, end, n, n);
    var init := rs[..n];
    if n > 0 {
      assert Adjacent(rs, n - 1);
    }
    forall k: nat | k < |init| ensures AlignedRange(init[k]) { assert AlignedRange(rs[k]); }
    forall k: nat | k + 1 < |init| ensures Adjacent(init, k) { assert Adjacent(rs, k); }
  }

  /** A server holding the whole log answers all ranges exactly when the last of them ends within the
      log, and then together with precisely the events between the ends. */
  lemma {:induction false} AnswersExact(log: Log, rs: seq<Range>, start: int, end: int)
    requires Complete(log) && Partition(rs, start, end) && rs != [] && 0 <= start && end < 0x8000_0000_0000_0000
    ensures start < end && |log.events| == Head(log) + 1
    ensures Answers(log, rs) == if end <= Head(log) + 1 then Done(log.events[start..end]) else Err
  {
    var last := rs[|rs| - 1];
    PartitionInit(rs, start, end);
    PartitionLegal(rs, start, end, |rs| - 1);
    hide Partition, EventsIn, Complete, Head, AlignedRange;
    CompleteIndices(log, last.from, last.to);
    var events, n := log.events, Head(log) + 1;
    var init := Answers(log, rs[..|rs| - 1]);
    if |rs| == 1 {
      assert rs[..0] == [];
      assert init == Done([]);
      if end <= n {
        assert [] + events[start..end] == events[start..end];
      }
    } else {
      AnswersExact(log, rs[..|rs| - 1], start, last.from);
      assert init == if last.from <= n then Done(events[start..last.from]) else Err;
      if end <= n {
        assert events[start..last.from] + events[last.from..end] == events[start..end];
      }
    }
  }

  /** With a latest update of at least MIN_COUNT events, what FetchUpdateFrom fetches from a server with
      the whole log is, with the events of the update that come after it, the log from a point not later
      than `from`: no gap and nothing else. */
  lemma FetchGivesLog(log: Log, u: Update, from: uint64, to: uint64, rs: seq<Range>)
    requires Complete(log) && MIN_COUNT <= |u.events| <= Head(log) && IsLatest(log, |u.events|, u)
    requires from < to == Head(log) - |u.events|
    requires Partition(rs, RangeStart(from), RangeEnd(to))
    ensures RangeStart(from) <= from && to + 1 <= RangeEnd(to) <= to + |u.events| && |log.events| == Head(log) + 1
    ensures Answers(log, rs).Done?
    ensures Answers(log, rs).value + u.events[RangeEnd(to) - (to + 1)..] == log.events[RangeStart(from)..]
  {
    assert to < WORD - MAX_COUNT;
    hide Complete, Head, RangeStart, RangeEnd, Answers, IsLatest, MultipleOf, Partition;
    StartBelow(from);
    EndBelow(to);
    PartitionedFetch(log, u, RangeStart(from), RangeEnd(to), rs);
  }

  lemma PartitionedFetch(log: Log, u: Update, start: nat, end: nat, rs: seq<Range>)
    requires Complete(log) && MIN_COUNT <= |u.events| <= Head(log) && IsLatest(log, |u.events|, u)
    requires Partition(rs, start, end) && start < end
    requires Head(log) - |u.events| + 1 <= end <= Head(log) - |u.events| + MIN_COUNT
    ensures |log.events| == Head(log) + 1
    ensures Answers(log, rs).Done?
    ensures Answers(log, rs).value + u.events[end - (Head(log) - |u.events| + 1)..] == log.events[start..]
  {
    assert rs != [];
    hide Partition;
    AnswersExact(log, rs, start, end);
    var mid := Head(log) - |u.events| + 1;
    assert u.events == log.events[mid..];
    hide Answers, IsLatest, Complete, Head;
    Rejoin(log.events, start, end, mid);
  }

  lemma Rejoin(events: seq<Event>, start: nat, end: nat, mid: nat)
    requires start <= end <= |events| && mid <= end
    ensures events[start..end] + events[mid..][end - mid..] == events[start..]
  {
    assert events[mid..][end - mid..] == events[end..];
  }
}
