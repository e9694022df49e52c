/** The clock, and the expiry loop of the timer heap. */
module HeapTimers {
  import opened IndexedHeaps
  import opened Protocol

  /** Clock::now(): readings never go back; how far they advance is not determined. */
  class Clock {
    var t: int

    constructor (boot: int)
      ensures t == boot
    {
      t := boot;
    }

    method Now() returns (now: int)
      modifies this
      ensures now == t >= old(t)
    {
      var later: int :| t <= later;
      t := later;
      now := t;
    }
  }

  /** The deadlines of the timers that were not fired. */
  function Without(m: map<Id, int>, fired: seq<Id>): map<Id, int>
  {
    map id | id in m && id !in fired :: m[id]
  }

  /** The state of the expiry loop: m are the deadlines it started with, rest those still in the heap. */
  ghost predicate Collecting(
    m: map<Id, int>, rest: map<Id, int>, fired: seq<Id>, readings: seq<int>)
  {
    && Picked(m, fired, readings) && |readings| == |fired|
    && (forall id :: id in rest <==> id in m && id !in fired)
    && (forall id :: id in rest ==> rest[id] == m[id])
    && (forall k, id :: 0 <= k < |fired| && id in rest ==> m[fired[k]] <= rest[id])
  }

  /** Popping an expired front keeps the loop's state. */
  lemma CollectOne(
    m: map<Id, int>, rest: map<Id, int>, fired: seq<Id>, readings: seq<int>, top: Id, now: int)
    requires Collecting(m, rest, fired, readings)
    requires top in rest && (forall id :: id in rest ==> rest[top] <= rest[id]) && Expired(rest[top], now)
    requires forall i :: 0 <= i < |readings| ==> readings[i] <= now
    ensures Collecting(m, rest - {top}, fired + [top], readings + [now])
  {
  }

  /** Stopping at an unexpired front leaves only unexpired timers. */
  lemma CollectStops(
    m: map<Id, int>, rest: map<Id, int>, fired: seq<Id>, readings: seq<int>, top: Id, now: int)
    requires Collecting(m, rest, fired, readings)
    requires top in rest && (forall id :: id in rest ==> rest[top] <= rest[id]) && !Expired(rest[top], now)
    requires forall i :: 0 <= i < |readings| ==> readings[i] <= now
    ensures Collected(m, fired, readings + [now])
  {
  }

  /** So does running out of timers; and the heap has lost exactly what was fired. */
  lemma CollectEnds(m: map<Id, int>, rest: map<Id, int>, fired: seq<Id>, readings: seq<int>)
    requires Collecting(m, rest, fired, readings)
    ensures rest == Without(m, fired)
    ensures rest == map[] ==> Collected(m, fired, readings)
  {
  }

  lemma WithinSnoc(lo: int, r: seq<int>, hi: int, now: int)
    requires Within(lo, r, hi) && lo <= hi <= now
    ensures Within(lo, r + [now], now)
  {
  }

  /** One round of the expiry loop: the front is popped if it has expired, and ends the loop otherwise. */
  method CollectRound(heap: IndexedHeap, clock: Clock, ghost m: map<Id, int>, fired: seq<Id>, ghost readings: seq<int>)
    returns (more: bool, top: Id, ghost now: int)
    requires heap.Valid() && heap.order.SmallestFirst? && |heap.heap| > 0
    requires Collecting(m, heap.Contents(), fired, readings)
    requires forall i :: 0 <= i < |readings| ==> readings[i] <= clock.t
    modifies heap, clock
    ensures heap.Valid() && old(clock.t) <= now == clock.t
    ensures more ==> Collecting(m, heap.Contents(), fired + [top], readings + [now]) && |heap.heap| < old(|heap.heap|)
    ensures !more ==> Collected(m, fired, readings + [now]) && heap.Contents() == Without(m, fired)
  {
    FrontLeadsMap(heap.order, heap.heap, heap.pos);
    top := heap.heap[0].id;
    var reading := clock.Now();
    now := reading;
    more := TruncMs(heap.heap[0].key - reading) <= 0;
    if more {
      CollectOne(m, heap.Contents(), fired, readings, top, now);
      heap.Pop();
    } else {
      CollectStops(m, heap.Contents(), fired, readings, top, now);
      CollectEnds(m, heap.Contents(), fired, readings);
    }
  }

  /** First half of HeapTimer::tick: pops what has expired. The callbacks run only after this loop. */
  method CollectExpired(heap: IndexedHeap, clock: Clock) returns (fired: seq<Id>, ghost readings: seq<int>)
    requires heap.Valid() && heap.order.SmallestFirst?
    modifies heap, clock
    ensures heap.Valid() && clock.t >= old(clock.t)
    ensures Collected(old(heap.Contents()), fired, readings)
    ensures Within(old(clock.t), readings, clock.t)
    ensures heap.Contents() == Without(old(heap.Contents()), fired)
  {
    ghost var m := heap.Contents();
    fired, readings := [], [];
    while |heap.heap| > 0
      invariant heap.Valid() && clock.t >= old(clock.t)
      invariant Within(old(clock.t), readings, clock.t)
      invariant Collecting(m, heap.Contents(), fired, readings)
      decreases |heap.heap|
    {
      ghost var hi := clock.t;
      var more, top;
      ghost var now;
      more, top, now := CollectRound(heap, clock, m, fired, readings);
      WithinSnoc(old(clock.t), readings, hi, now);
      readings := readings + [now];
      if !more {
        return;
      }
      fired := fired + [top];
    }
    assert heap.Contents() == map[];
    CollectEnds(m, heap.Contents(), fired, readings);
  }

  /** getNextTick after its tick: whole milliseconds to the earliest deadline, 0 when one has passed, -1 without timers. */
  method NextTick(heap: IndexedHeap, clock: Clock) returns (res: int)
    requires heap.Valid() && heap.order.SmallestFirst?
    modifies clock
    ensures heap.Contents() == old(heap.Contents()) && clock.t >= old(clock.t)
    ensures var m := heap.Contents();
            && (res == -1 <==> m == map[]) && res >= -1
            && (res == 0 <==> exists id :: id in m && Expired(m[id], clock.t))
            && (res > 0 ==> forall id :: id in m ==> m[id] - clock.t >= res * MS)
            && (res > 0 ==> exists id :: id in m && m[id] - clock.t < (res + 1) * MS)
  {
    res := -1;
    if |heap.heap| > 0 {
      FrontLeadsMap(heap.order, heap.heap, heap.pos);
      var now := clock.Now();
      var top := heap.heap[0];
      res := TruncMs(top.key - now);
      if res < 0 {
        res := 0;
      }
      assert res == 0 ==> Expired(heap.Contents()[top.id], now);
      forall id | id in heap.Contents()
        ensures Expired(heap.Contents()[id], now) <==> heap.Contents()[id] - now < MS
      {
        ExpiredIff(heap.Contents()[id], now);
      }
    } else {
      assert heap.Contents() == map[];
    }
  }
}
