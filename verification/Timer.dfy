/**
  The timer queue of an event loop (time/KaTime.cpp, time/TimerQueue.cpp).

  `m_timers` is a `std::set` of (deadline, timer) pairs.  The deadline in a pair is the one the timer had when it was
  inserted; `Timer::Run` later moves the timer's own expiration on, so the order of the set goes stale, and `doTimer`
  stops at the first timer that is not due.  `BoundedLateness` shows that no timer is starved by this: it waits at most
  one gap between passes plus the intervals of the timers ahead of it.

  A queue is a sequence of entries, in the order of the set.  The second component of the set's key, the address of the
  timer, is the entry's `id`.
 */
module Timers {
  import opened Bytes

  // ---------- one timer ----------

  datatype TimerState = TimerState(expiration: int, interval: int, repeatCount: int, cancelled: bool)

  /** `Timer::Run`, except for the callback, which is invoked if and only if the timer is not cancelled. */
  function RunTimer(t: TimerState): TimerState {
    if t.cancelled then t
    else
      var left := if t.repeatCount != 0 then t.repeatCount - 1 else 0;
      if t.repeatCount != 0 && left == 0 then t.(repeatCount := 0)
      else t.(repeatCount := left, expiration := t.expiration + t.interval)
  }

  // ---------- the queue ----------

  datatype Entry = Entry(key: int, id: int, t: TimerState)

  type Queue = seq<Entry>

  /** The order of `std::set<std::pair<Timestamp, TimerSmartPtr>>`. */
  predicate Less(e: Entry, f: Entry) {
    e.key < f.key || (e.key == f.key && e.id < f.id)
  }

  ghost predicate Before(h: Entry, q: Queue) {
    forall e <- q :: Less(h, e) && h.id != e.id
  }

  /** The entries are in the order of the set, and no timer is in it twice. */
  ghost predicate Ordered(q: Queue) {
    q == [] || (Before(q[0], q[1..]) && Ordered(q[1..]))
  }

  predicate Due(e: Entry, now: int) {
    e.t.expiration <= now
  }

  /** What visiting a due timer leaves of it in the queue: nothing once its count is used up. */
  function Visited(e: Entry): Queue {
    var t := RunTimer(e.t);
    if t.repeatCount == 0 then [] else [e.(t := t)]
  }

  /** `doTimer` at clock `now`. */
  function Pass(q: Queue, now: int): Queue {
    if q == [] || !Due(q[0], now) then q else Visited(q[0]) + Pass(q[1..], now)
  }

  /** The number of timers that a pass visits. */
  function DuePrefix(q: Queue, now: int): (n: nat)
    ensures n <= |q|
    ensures forall i :: 0 <= i < n ==> Due(q[i], now)
    ensures n < |q| ==> !Due(q[n], now)
  {
    if q == [] || !Due(q[0], now) then 0 else 1 + DuePrefix(q[1..], now)
  }

  function Insert(q: Queue, e: Entry): Queue {
    if q == [] || Less(e, q[0]) then [e] + q else [q[0]] + Insert(q[1..], e)
  }

  function Remove(q: Queue, id: int): Queue {
    if q == [] then []
    else if q[0].id == id then q[1..]
    else [q[0]] + Remove(q[1..], id)
  }

  /** `cancel`: switches the callback of a timer off or on. */
  function SetCancelled(q: Queue, id: int, off: bool): Queue {
    if q == [] then []
    else if q[0].id == id then [q[0].(t := q[0].t.(cancelled := off))] + q[1..]
    else [q[0]] + SetCancelled(q[1..], id, off)
  }

  // ---------- runs ----------

  datatype Event =
    | PassAt(clock: int)
    | Control(id: int, off: bool)
    | Drop(id: int)
    | Add(entry: Entry)

  function Step(q: Queue, ev: Event): Queue {
    match ev
    case PassAt(now) => Pass(q, now)
    case Control(id, off) => SetCancelled(q, id, off)
    case Drop(id) => Remove(q, id)
    case Add(e) => Insert(q, e)
  }

  function Exec(q: Queue, evs: seq<Event>): Queue
    decreases |evs|
  {
    if evs == [] then q else Exec(Step(q, evs[0]), evs[1..])
  }

  /** Whether the pass at `now` gets as far as timer `id`. */
  predicate Visits(q: Queue, now: int, id: int) {
    q != [] && Due(q[0], now) && (q[0].id == id || Visits(q[1..], now, id))
  }

  /** Whether some pass of the run, at a clock of at most `limit` and at least `from`, visits timer `id`. */
  predicate VisitedWithin(q: Queue, evs: seq<Event>, id: int, from: int, limit: int)
    decreases |evs|
  {
    && evs != []
    && ( || (evs[0].PassAt? && from <= evs[0].clock <= limit && Visits(q, evs[0].clock, id))
         || VisitedWithin(Step(q, evs[0]), evs[1..], id, from, limit))
  }

  /** Clocks never go back, starting from `clock`. */
  predicate Monotone(evs: seq<Event>, clock: int)
    decreases |evs|
  {
    || evs == []
    || (if evs[0].PassAt? then clock <= evs[0].clock && Monotone(evs[1..], evs[0].clock) else Monotone(evs[1..], clock))
  }

  /** Some pass has its clock in `from..from + span`. */
  predicate PassWithin(evs: seq<Event>, from: int, span: int)
    decreases |evs|
  {
    && evs != []
    && ( || (evs[0].PassAt? && from <= evs[0].clock <= from + span)
         || PassWithin(evs[1..], from, span))
  }

  /** From `from` until `until`, at most `gap` goes by without a pass. */
  ghost predicate Frequent(evs: seq<Event>, from: int, until: int, gap: int) {
    forall u :: from <= u <= until ==> PassWithin(evs, u, gap)
  }

  /** Nothing is inserted ahead of `e`, and `e` itself is not removed by its owner. */
  ghost predicate Spares(evs: seq<Event>, e: Entry) {
    forall ev <- evs ::
      && (ev.Add? ==> Less(e, ev.entry) && ev.entry.id != e.id)
      && (ev.Drop? ==> ev.id != e.id)
  }

  function TotalInterval(q: Queue): int {
    if q == [] then 0 else q[0].t.interval + TotalInterval(q[1..])
  }

  // ---------- bounded lateness ----------

  /** The events that reach the entries behind `h`: passes get through only when `h` is due. */
  function Through(h: Entry, evs: seq<Event>): seq<Event>
    decreases |evs|
  {
    if evs == [] then []
    else
      var ev, later := evs[0], evs[1..];
      match ev
      case PassAt(now) =>
        if !Due(h, now) then Through(h, later)
        else if Visited(h) == [] then evs
        else [ev] + Through(Visited(h)[0], later)
      case Control(id, off) =>
        if id == h.id then Through(h.(t := h.t.(cancelled := off)), later) else [ev] + Through(h, later)
      case Drop(id) => if id == h.id then later else [ev] + Through(h, later)
      case Add(_) => [ev] + Through(h, later)
  }

  lemma {:induction false} ThroughSpares(h: Entry, evs: seq<Event>, e: Entry)
    requires Spares(evs, e)
    ensures Spares(Through(h, evs), e)
    decreases |evs|
  {
    if evs != [] {
      var later := evs[1..];
      assert Spares(later, e);
      match evs[0]
      case PassAt(now) => ThroughSpares(if Due(h, now) && Visited(h) != [] then Visited(h)[0] else h, later, e);
      case Control(id, off) => ThroughSpares(if id == h.id then h.(t := h.t.(cancelled := off)) else h, later, e);
      case _ => ThroughSpares(h, later, e);
    }
  }

  lemma {:induction false} ThroughMonotone(h: Entry, evs: seq<Event>, clock: int)
    requires Monotone(evs, clock)
    ensures Monotone(Through(h, evs), clock)
    decreases |evs|
  {
    if evs != [] {
      var later := evs[1..];
      match evs[0]
      case PassAt(now) =>
        ThroughMonotone(if Due(h, now) && Visited(h) != [] then Visited(h)[0] else h, later, now);
        MonotoneEarlier(Through(h, later), now, clock);
      case Control(id, off) => ThroughMonotone(if id == h.id then h.(t := h.t.(cancelled := off)) else h, later, clock);
      case _ => ThroughMonotone(h, later, clock);
    }
  }

  lemma {:induction false} MonotoneEarlier(evs: seq<Event>, clock: int, earlier: int)
    requires earlier <= clock
    ensures Monotone(evs, clock) ==> Monotone(evs, earlier)
    decreases |evs|
  {
    if evs != [] && !evs[0].PassAt? {
      MonotoneEarlier(evs[1..], clock, earlier);
    }
  }

  /** No pass of a run is earlier than its starting clock. */
  lemma {:induction false} PassesAreLater(evs: seq<Event>, clock: int, from: int, span: int)
    requires Monotone(evs, clock) && PassWithin(evs, from, span)
    ensures clock <= from + span
    decreases |evs|
  {
    if !(evs[0].PassAt? && from <= evs[0].clock <= from + span) {
      PassesAreLater(evs[1..], if evs[0].PassAt? then evs[0].clock else clock, from, span);
    }
  }

  /** A head that becomes due exactly at `u` lets through the first pass from then on. */
  lemma {:induction false} DueHeadLetsThrough(h: Entry, evs: seq<Event>, clock: int, u: int, span: int)
    requires h.t.expiration == u
    requires Monotone(evs, clock) && PassWithin(evs, u, span)
    ensures PassWithin(Through(h, evs), u, span)
    decreases |evs|
  {
    var later := evs[1..];
    match evs[0]
    case PassAt(now) =>
      if now < u {
        DueHeadLetsThrough(h, later, now, u, span);
      } else if now > u + span {
        PassesAreLater(later, now, u, span);
      }
    case Control(id, off) =>
      DueHeadLetsThrough(if id == h.id then h.(t := h.t.(cancelled := off)) else h, later, clock, u, span);
    case Drop(id) => if id != h.id { DueHeadLetsThrough(h, later, clock, u, span); }
    case Add(_) => DueHeadLetsThrough(h, later, clock, u, span);
  }

  /** A head delays the passes behind it by at most its interval. */
  lemma {:induction false} HeadDelays(h: Entry, evs: seq<Event>, clock: int, u: int, gap: int)
    requires 0 <= h.t.interval && h.t.expiration <= u + h.t.interval
    requires Monotone(evs, clock) && Frequent(evs, u, u + h.t.interval, gap)
    ensures PassWithin(Through(h, evs), u, gap + h.t.interval)
    decreases |evs|
  {
    assert PassWithin(evs, u, gap);
    var later := evs[1..];
    var until := u + h.t.interval;
    match evs[0]
    case PassAt(now) =>
      if now < u {
        forall w | u <= w <= until ensures PassWithin(later, w, gap) {
          assert PassWithin(evs, w, gap);
        }
        if Due(h, now) && Visited(h) == [] {
          WiderSpan(later, u, gap, gap + h.t.interval);
        } else {
          HeadDelays(if Due(h, now) then Visited(h)[0] else h, later, now, u, gap);
        }
      } else {
        if now > u + gap {
          PassesAreLater(later, now, u, gap);
        }
        if !Due(h, now) {
          assert PassWithin(evs, h.t.expiration, gap);
          DueHeadLetsThrough(h, later, now, h.t.expiration, gap);
          EarlierFrom(Through(h, later), h.t.expiration, gap, u, gap + h.t.interval);
        }
      }
    case Control(id, off) =>
      NotAPass(evs, u, until, gap);
      HeadDelays(if id == h.id then h.(t := h.t.(cancelled := off)) else h, later, clock, u, gap);
    case Drop(id) =>
      NotAPass(evs, u, until, gap);
      if id == h.id { WiderSpan(later, u, gap, gap + h.t.interval); } else { HeadDelays(h, later, clock, u, gap); }
    case Add(_) =>
      NotAPass(evs, u, until, gap);
      HeadDelays(h, later, clock, u, gap);
  }

  lemma NotAPass(evs: seq<Event>, from: int, until: int, gap: int)
    requires evs != [] && !evs[0].PassAt? && Frequent(evs, from, until, gap)
    ensures Frequent(evs[1..], from, until, gap)
  {
    forall u | from <= u <= until ensures PassWithin(evs[1..], u, gap) {
      assert PassWithin(evs, u, gap);
    }
  }

  lemma WiderSpan(evs: seq<Event>, from: int, span: int, wider: int)
    requires PassWithin(evs, from, span) && span <= wider
    ensures PassWithin(evs, from, wider)
  {
    EarlierFrom(evs, from, span, from, wider);
  }

  lemma {:induction false} EarlierFrom(evs: seq<Event>, from: int, span: int, earlier: int, wider: int)
    requires PassWithin(evs, from, span) && earlier <= from && from + span <= earlier + wider
    ensures PassWithin(evs, earlier, wider)
    decreases |evs|
  {
    if !(evs[0].PassAt? && from <= evs[0].clock <= from + span) {
      EarlierFrom(evs[1..], from, span, earlier, wider);
    }
  }

  /** A visit among the entries behind `h`, under the events that get through, is a visit in the whole queue. */
  lemma {:induction false} VisitBehindHead(h: Entry, q: Queue, evs: seq<Event>, e: Entry, from: int, limit: int)
    requires Less(h, e) && h.id != e.id && Spares(evs, e)
    requires VisitedWithin(q, Through(h, evs), e.id, from, limit)
    ensures VisitedWithin([h] + q, evs, e.id, from, limit)
    decreases |evs|
  {
    var ev, later := evs[0], evs[1..];
    var whole := [h] + q;
    assert whole[1..] == q && Spares(later, e);
    match ev
    case PassAt(now) =>
      if !Due(h, now) {
        VisitBehindHead(h, q, later, e, from, limit);
      } else {
        assert Through(h, evs)[0] == ev;
        if !(from <= now <= limit && Visits(q, now, e.id)) {
          if Visited(h) == [] {
            assert Step(whole, ev) == Pass(q, now);
          } else {
            VisitBehindHead(Visited(h)[0], Pass(q, now), later, e, from, limit);
          }
        }
      }
    case Control(id, off) =>
      if id == h.id {
        VisitBehindHead(h.(t := h.t.(cancelled := off)), q, later, e, from, limit);
      } else {
        VisitBehindHead(h, Step(q, ev), later, e, from, limit);
      }
    case Drop(id) =>
      if id != h.id {
        VisitBehindHead(h, Step(q, ev), later, e, from, limit);
      }
    case Add(f) =>
      assert ev in evs && Less(h, f) && !Less(f, h);
      VisitBehindHead(h, Step(q, ev), later, e, from, limit);
  }

  /** At the front of the queue a timer is visited by the first pass from its deadline on. */
  lemma {:induction false} FrontIsVisited(e: Entry, q: Queue, evs: seq<Event>, clock: int, u: int, span: int)
    requires Spares(evs, e) && Monotone(evs, clock)
    requires u == (if clock <= e.t.expiration then e.t.expiration else clock) && PassWithin(evs, u, span)
    ensures VisitedWithin([e] + q, evs, e.id, u, u + span)
    decreases |evs|
  {
    var ev, later := evs[0], evs[1..];
    var whole := [e] + q;
    assert whole[1..] == q && Spares(later, e);
    match ev
    case PassAt(now) =>
      if now < u {
        FrontIsVisited(e, q, later, now, u, span);
      } else if now > u + span {
        PassesAreLater(later, now, u, span);
      }
    case Control(id, off) =>
      if id == e.id {
        FrontIsVisited(e.(t := e.t.(cancelled := off)), q, later, clock, u, span);
      } else {
        FrontIsVisited(e, Step(q, ev), later, clock, u, span);
      }
    case Drop(id) =>
      assert ev in evs;
      FrontIsVisited(e, Step(q, ev), later, clock, u, span);
    case Add(f) =>
      assert ev in evs && Less(e, f) && !Less(f, e);
      FrontIsVisited(e, Step(q, ev), later, clock, u, span);
  }

  /** The timers ahead of `e` delay it by at most their intervals. */
  lemma {:induction false} LatenessBehind(ahead: Queue, e: Entry, behind: Queue, evs: seq<Event>, clock: int, u: int,
                                          gap: int)
    requires forall a <- ahead :: Less(a, e) && a.id != e.id && 0 <= a.t.interval && a.t.expiration <= u + a.t.interval
    requires Spares(evs, e) && Monotone(evs, clock)
    requires u == if clock <= e.t.expiration then e.t.expiration else clock
    requires Frequent(evs, u, u + TotalInterval(ahead), gap)
    ensures VisitedWithin(ahead + [e] + behind, evs, e.id, u, u + gap + TotalInterval(ahead))
    decreases |ahead|
  {
    if ahead == [] {
      assert ahead + [e] + behind == [e] + behind;
      assert PassWithin(evs, u, gap);
      FrontIsVisited(e, behind, evs, clock, u, gap);
    } else {
      var h, more := ahead[0], ahead[1..];
      var late := u + TotalInterval(more);
      TotalIntervalNonNegative(more);
      var passed, wider := Through(h, evs), gap + h.t.interval;
      forall w | u <= w <= late ensures PassWithin(passed, w, wider) {
        assert Frequent(evs, w, w + h.t.interval, gap);
        HeadDelays(h, evs, clock, w, gap);
      }
      ThroughSpares(h, evs, e);
      ThroughMonotone(h, evs, clock);
      LatenessBehind(more, e, behind, passed, clock, u, wider);
      VisitBehindHead(h, more + [e] + behind, evs, e, u, u + gap + TotalInterval(ahead));
      assert ahead + [e] + behind == [h] + (more + [e] + behind);
    }
  }

  lemma {:induction false} TotalIntervalNonNegative(q: Queue)
    requires forall a <- q :: 0 <= a.t.interval
    ensures 0 <= TotalInterval(q)
  {
    if q != [] { TotalIntervalNonNegative(q[1..]); }
  }

  // ---------- what every run keeps ----------

  function ClockAfter(ev: Event, clock: int): int {
    if ev.PassAt? then ev.clock else clock
  }

  /** The clock of the last pass. */
  function LastClock(evs: seq<Event>, clock: int): int
    decreases |evs|
  {
    if evs == [] then clock else LastClock(evs[1..], ClockAfter(evs[0], clock))
  }

  /** `addTimer` inserts a timer under its own expiration; its address is that of no timer in the queue. */
  ghost predicate FreshEntry(q: Queue, e: Entry) {
    e.key == e.t.expiration && forall f <- q :: f.id != e.id
  }

  ghost predicate Legal(q: Queue, evs: seq<Event>)
    decreases |evs|
  {
    evs == [] || ((evs[0].Add? ==> FreshEntry(q, evs[0].entry)) && Legal(Step(q, evs[0]), evs[1..]))
  }

  ghost predicate NoNegativeIntervals(evs: seq<Event>) {
    forall ev <- evs :: ev.Add? ==> 0 <= ev.entry.t.interval
  }

  /** No expiration is more than one interval ahead of the clock, unless it is still the one the timer came with. */
  ghost predicate Settled(q: Queue, clock: int) {
    forall e <- q ::
      && 0 <= e.t.interval
      && e.key <= e.t.expiration
      && (e.t.expiration == e.key || e.t.expiration <= clock + e.t.interval)
  }

  lemma {:induction false} StepKeepsBefore(h: Entry, q: Queue, ev: Event)
    requires Before(h, q) && (ev.Add? ==> Before(h, [ev.entry]))
    ensures Before(h, Step(q, ev))
    decreases |q|
  {
    if q != [] {
      assert ev.Add? ==> ev.entry in [ev.entry];
      StepKeepsBefore(h, q[1..], ev);
    } else if ev.Add? {
      assert Step(q, ev) == [ev.entry];
    }
  }

  lemma {:induction false} StepKeepsOrdered(q: Queue, ev: Event)
    requires Ordered(q) && (ev.Add? ==> FreshEntry(q, ev.entry))
    ensures Ordered(Step(q, ev))
    decreases |q|
  {
    if q == [] {
      if ev.Add? { assert Step(q, ev) == [ev.entry]; }
    } else {
      var h, tail := q[0], q[1..];
      StepKeepsOrdered(tail, ev);
      match ev
      case PassAt(now) =>
        StepKeepsBefore(h, tail, ev);
        if Due(h, now) {
          if Visited(h) == [] {
            assert Pass(q, now) == Pass(tail, now);
          } else {
            OrderedCons(Visited(h)[0], Pass(tail, now));
          }
        }
      case Control(id, off) =>
        StepKeepsBefore(h, tail, ev);
        if id == h.id {
          OrderedCons(h.(t := h.t.(cancelled := off)), tail);
        } else {
          OrderedCons(h, SetCancelled(tail, id, off));
        }
      case Drop(id) =>
        StepKeepsBefore(h, tail, ev);
        if id != h.id { OrderedCons(h, Remove(tail, id)); }
      case Add(e) =>
        if Less(e, h) {
          OrderedCons(e, q);
        } else {
          StepKeepsBefore(h, tail, ev);
          OrderedCons(h, Insert(tail, e));
        }
    }
  }

  lemma OrderedCons(h: Entry, q: Queue)
    requires Before(h, q) && Ordered(q)
    ensures Ordered([h] + q)
  {
    assert ([h] + q)[1..] == q;
  }

  lemma {:induction false} StepKeepsSettled(q: Queue, ev: Event, clock: int)
    requires Settled(q, clock) && clock <= ClockAfter(ev, clock)
    requires ev.Add? ==> FreshEntry(q, ev.entry) && 0 <= ev.entry.t.interval
    ensures Settled(Step(q, ev), ClockAfter(ev, clock))
    decreases |q|
  {
    if q == [] {
      if ev.Add? { assert Step(q, ev) == [ev.entry]; }
    } else {
      StepKeepsSettled(q[1..], ev, clock);
    }
  }

  /** Over every run of insertions under the timer's own deadline the order of the set is kept, stale keys or not. */
  lemma {:induction false} RunKeepsOrdered(q: Queue, evs: seq<Event>)
    requires Ordered(q) && Legal(q, evs)
    ensures Ordered(Exec(q, evs))
    decreases |evs|
  {
    if evs != [] {
      StepKeepsOrdered(q, evs[0]);
      RunKeepsOrdered(Step(q, evs[0]), evs[1..]);
    }
  }

  /** With nonnegative intervals and clocks that never go back, the bound on expirations is kept as well. */
  lemma {:induction false} RunKeepsInvariants(q: Queue, evs: seq<Event>, clock: int)
    requires Ordered(q) && Settled(q, clock) && Legal(q, evs) && Monotone(evs, clock) && NoNegativeIntervals(evs)
    ensures Ordered(Exec(q, evs)) && Settled(Exec(q, evs), LastClock(evs, clock))
    decreases |evs|
  {
    if evs != [] {
      var ev := evs[0];
      assert ev in evs;
      StepKeepsOrdered(q, ev);
      StepKeepsSettled(q, ev, clock);
      RunKeepsInvariants(Step(q, ev), evs[1..], ClockAfter(ev, clock));
    }
  }

  lemma {:induction false} OrderedAt(q: Queue, k: nat)
    requires Ordered(q) && k < |q|
    ensures forall i :: 0 <= i < k ==> Less(q[i], q[k]) && q[i].id != q[k].id
    decreases |q|
  {
    if k > 0 {
      assert q[k] in q[1..];
      OrderedAt(q[1..], k - 1);
      assert forall i :: 1 <= i < k ==> q[i] == q[1..][i - 1];
    }
  }

  /** From any reachable queue on, with passes at most `gap` apart and nothing inserted ahead of the timer at position
      `k`, that timer is visited within `gap` plus the intervals of the timers ahead of it after it is due, however
      stale the keys are and wherever the passes break off. */
  lemma BoundedLateness(past: seq<Event>, start: int, k: nat, future: seq<Event>, gap: int)
    requires Legal([], past) && Monotone(past, start) && NoNegativeIntervals(past)
    requires k < |Exec([], past)|
    requires Monotone(future, LastClock(past, start)) && Spares(future, Exec([], past)[k])
    requires var q, now := Exec([], past), LastClock(past, start);
             var due := if now <= q[k].t.expiration then q[k].t.expiration else now;
             Frequent(future, due, due + TotalInterval(q[..k]), gap)
    ensures var q, now := Exec([], past), LastClock(past, start);
            var due := if now <= q[k].t.expiration then q[k].t.expiration else now;
            VisitedWithin(q, future, q[k].id, due, due + gap + TotalInterval(q[..k]))
  {
    var q, now := Exec([], past), LastClock(past, start);
    var e := q[k];
    var due := if now <= e.t.expiration then e.t.expiration else now;
    RunKeepsInvariants([], past, start);
    OrderedAt(q, k);
    assert e in q;
    forall a <- q[..k]
      ensures Less(a, e) && a.id != e.id && 0 <= a.t.interval && a.t.expiration <= due + a.t.interval
    {
      assert a in q;
    }
    LatenessBehind(q[..k], e, q[k + 1..], future, now, due, gap);
    assert q == q[..k] + [e] + q[k + 1..];
  }

  // ---------- what single steps do ----------

  function RunTimes(t: TimerState, k: nat): TimerState {
    if k == 0 then t else RunTimer(RunTimes(t, k - 1))
  }

  /** After `k` runs: a cancelled timer is as it was; one without an end is `k` intervals on; and one with a count has
      `k` less of it and is `k` intervals on, except that the run that uses up the count leaves the deadline alone. */
  lemma {:induction false} RunsOutcome(t: TimerState, k: nat)
    requires t.repeatCount > 0 ==> k <= t.repeatCount
    ensures RunTimes(t, k)
            == if t.cancelled || k == 0 then t
               else if t.repeatCount == 0 then t.(expiration := t.expiration + k * t.interval)
               else t.(repeatCount := t.repeatCount - k,
                       expiration := t.expiration + (if k == t.repeatCount then k - 1 else k) * t.interval)
    decreases k
  {
    if k > 0 {
      RunsOutcome(t, k - 1);
      assert k * t.interval == (k - 1) * t.interval + t.interval;
    }
  }

  /** An insertion adds its entry and loses none. */
  lemma {:induction false} InsertKeepsAll(q: Queue, e: Entry)
    ensures multiset(Insert(q, e)) == multiset(q) + multiset{e}
    decreases |q|
  {
    if q != [] {
      assert q == [q[0]] + q[1..];
      if !Less(e, q[0]) { InsertKeepsAll(q[1..], e); }
    }
  }

  /** A removal takes the given timer out, and no other. */
  lemma {:induction false} RemoveTakesOne(q: Queue, id: int, e: Entry)
    requires Ordered(q)
    ensures e in Remove(q, id) <==> e in q && e.id != id
    decreases |q|
  {
    if q != [] {
      var h, tail := q[0], q[1..];
      assert q == [h] + tail;
      RemoveTakesOne(tail, id, e);
      assert Remove(q, id) == if h.id == id then tail else [h] + Remove(tail, id);
    }
  }

  /** A cancellation switches the given timer, and nothing else. */
  lemma {:induction false} ControlSwitchesOne(q: Queue, id: int, off: bool, i: nat)
    requires Ordered(q) && i < |q|
    ensures var q' := SetCancelled(q, id, off);
            |q'| == |q| && q'[i] == if q[i].id == id then q[i].(t := q[i].t.(cancelled := off)) else q[i]
    decreases |q|
  {
    assert i > 0 ==> q[i] == q[1..][i - 1] && q[i] in q[1..];
    if |q| > 1 {
      ControlSwitchesOne(q[1..], id, off, if i > 0 then i - 1 else 0);
    }
  }

  // ---------- one pass ----------

  /** The timers whose callbacks a pass runs, in order. */
  function Calls(q: Queue, now: int): seq<int> {
    if q == [] || !Due(q[0], now) then []
    else (if q[0].t.cancelled then [] else [q[0].id]) + Calls(q[1..], now)
  }

  /** What visiting each entry of `q` once leaves of it. */
  function VisitEach(q: Queue): Queue {
    if q == [] then [] else Visited(q[0]) + VisitEach(q[1..])
  }

  function ActiveIds(q: Queue): seq<int> {
    if q == [] then [] else (if q[0].t.cancelled then [] else [q[0].id]) + ActiveIds(q[1..])
  }

  /** A pass visits the maximal due prefix, each timer in it once and in the order of the set, and nothing else. */
  lemma {:induction false} PassIsDuePrefix(q: Queue, now: int)
    ensures var n := DuePrefix(q, now);
            Pass(q, now) == VisitEach(q[..n]) + q[n..] && Calls(q, now) == ActiveIds(q[..n])
  {
    var n := DuePrefix(q, now);
    if n > 0 {
      var front := q[1..][..n - 1];
      PassIsDuePrefix(q[1..], now);
      assert q[..n] == [q[0]] + front && q[1..][n - 1..] == q[n..];
      assert Pass(q, now) == Visited(q[0]) + (VisitEach(front) + q[n..]);
      VisitEachCons(q[0], front, q[n..]);
    }
  }

  lemma VisitEachCons(e: Entry, front: Queue, rest: Queue)
    ensures VisitEach([e] + front) + rest == Visited(e) + (VisitEach(front) + rest)
    ensures ActiveIds([e] + front) == (if e.t.cancelled then [] else [e.id]) + ActiveIds(front)
  {
    assert ([e] + front)[1..] == front;
  }

  /** While every expiration is still its key, the timers visited are exactly the due ones, by deadline and,
      among equal ones, by address. */
  lemma FreshPassVisitsAllDue(q: Queue, now: int, i: nat)
    requires Ordered(q) && i < |q|
    requires forall e <- q :: e.t.expiration == e.key
    ensures i < DuePrefix(q, now) <==> Due(q[i], now)
    ensures forall j :: 0 <= j < i ==>
                          || q[j].t.expiration < q[i].t.expiration
                          || (q[j].t.expiration == q[i].t.expiration && q[j].id < q[i].id)
  {
    OrderedAt(q, i);
    var n := DuePrefix(q, now);
    if n <= i {
      assert q[n] in q && q[i] in q;
      assert n < i ==> Less(q[n], q[i]);
    }
    forall j | 0 <= j < i
      ensures || q[j].t.expiration < q[i].t.expiration
              || (q[j].t.expiration == q[i].t.expiration && q[j].id < q[i].id)
    {
      assert q[j] in q && q[i] in q && Less(q[j], q[i]);
    }
  }

  /** A pass gets as far as a timer if and only if that timer is in the due prefix. */
  lemma {:induction false} VisitsIffInPrefix(q: Queue, now: int, i: nat)
    requires Ordered(q) && i < |q|
    ensures Visits(q, now, q[i].id) <==> i < DuePrefix(q, now)
    decreases |q|
  {
    if i > 0 {
      assert q[i] == q[1..][i - 1] && q[i] in q[1..];
      VisitsIffInPrefix(q[1..], now, i - 1);
    }
  }

  /** A pass visits every due timer if and only if no due timer has one ahead of it that is not due. */
  lemma PassVisitsAllDueIff(q: Queue, now: int)
    requires Ordered(q)
    ensures (forall i :: 0 <= i < |q| && Due(q[i], now) ==> Visits(q, now, q[i].id))
            <==> (forall i, j :: 0 <= i < j < |q| && Due(q[j], now) ==> Due(q[i], now))
  {
    forall i | 0 <= i < |q| ensures Visits(q, now, q[i].id) <==> i < DuePrefix(q, now) {
      VisitsIffInPrefix(q, now, i);
    }
  }

  /** A timer with interval 10 runs at 0 and keeps its key; a timer due at 5 is queued behind it, and the pass at 5
      stops before it. */
  lemma StaleKeyHidesDueTimer()
    ensures var slow, late := Entry(0, 1, TimerState(0, 10, -1, false)), Entry(5, 2, TimerState(5, 1, -1, false));
            var past := [Add(slow), PassAt(0), Add(late)];
            var q := Exec([], past);
            && Legal([], past) && Monotone(past, 0) && NoNegativeIntervals(past)
            && late in q && Due(late, 5) && !Visits(q, 5, late.id) && Pass(q, 5) == q
  {
    var slow, late := Entry(0, 1, TimerState(0, 10, -1, false)), Entry(5, 2, TimerState(5, 1, -1, false));
    var stale := slow.(t := TimerState(10, 10, -2, false));
    var past := [Add(slow)] + ([PassAt(0)] + ([Add(late)] + []));
    assert past == [Add(slow), PassAt(0), Add(late)];
    assert [slow][1..] == [] && [stale][1..] == [];
    assert Step([], Add(slow)) == [slow] && Step([slow], PassAt(0)) == [stale];
    assert Step([stale], Add(late)) == [stale, late];
    RunCons([stale], Add(late), [], 0);
    RunCons([slow], PassAt(0), [Add(late)] + [], 0);
    RunCons([], Add(slow), [PassAt(0)] + ([Add(late)] + []), 0);
    assert late in [stale, late];
  }

  lemma RunCons(q: Queue, ev: Event, later: seq<Event>, clock: int)
    requires Legal(Step(q, ev), later) && (ev.Add? ==> FreshEntry(q, ev.entry))
    requires clock <= ClockAfter(ev, clock) && Monotone(later, ClockAfter(ev, clock))
    ensures Legal(q, [ev] + later) && Monotone([ev] + later, clock)
    ensures Exec(q, [ev] + later) == Exec(Step(q, ev), later)
  {
    assert ([ev] + later)[1..] == later;
  }

  // ---------- firing conservation ----------

  function Find(q: Queue, id: int): Option<TimerState> {
    if q == [] then None else if q[0].id == id then Some(q[0].t) else Find(q[1..], id)
  }

  /** What a visit leaves of a timer. */
  function AfterRun(t: TimerState): Option<TimerState> {
    if RunTimer(t).repeatCount == 0 then None else Some(RunTimer(t))
  }

  predicate Fires(q: Queue, ev: Event, id: int) {
    ev.PassAt? && id in Calls(q, ev.clock)
  }

  /** The clocks at which the callback of timer `id` runs. */
  function Firings(q: Queue, evs: seq<Event>, id: int): seq<int>
    decreases |evs|
  {
    if evs == [] then []
    else (if Fires(q, evs[0], id) then [evs[0].clock] else [])
         + Firings(Step(q, evs[0]), evs[1..], id)
  }

  lemma {:induction false} FindNoneBehind(h: Entry, q: Queue)
    requires Before(h, q)
    ensures Find(q, h.id).None?
    ensures forall now :: h.id !in Calls(q, now)
    decreases |q|
  {
    if q != [] {
      FindNoneBehind(h, q[1..]);
    }
  }

  /** A pass at `now` does to timer `id` what one `Run` does if it gets that far, and nothing otherwise. */
  lemma {:induction false} PassOnTimer(q: Queue, now: int, id: int)
    requires Ordered(q)
    ensures var t, t' := Find(q, id), Find(Pass(q, now), id);
            && (id in Calls(q, now) <==> Visits(q, now, id) && t.Some? && !t.value.cancelled)
            && (Visits(q, now, id) ==> t.Some? && t.value.expiration <= now && t' == AfterRun(t.value))
            && (!Visits(q, now, id) ==> t' == t)
    decreases |q|
  {
    if q != [] && Due(q[0], now) {
      PassOnTimer(q[1..], now, id);
      StepKeepsBefore(q[0], q[1..], PassAt(now));
      FindNoneBehind(q[0], q[1..]);
      FindNoneBehind(q[0], Pass(q[1..], now));
      assert Visited(q[0]) == [] ==> Pass(q, now) == Pass(q[1..], now);
    }
  }

  lemma {:induction false} OtherStepsOnTimer(q: Queue, ev: Event, id: int)
    requires Ordered(q) && !ev.PassAt? && (ev.Add? ==> ev.entry.id != id)
    ensures var t, t' := Find(q, id), Find(Step(q, ev), id);
            t' == match ev
                  case Control(i, off) => if i == id && t.Some? then Some(t.value.(cancelled := off)) else t
                  case Drop(i) => if i == id then None else t
                  case _ => t
    decreases |q|
  {
    if q != [] {
      OtherStepsOnTimer(q[1..], ev, id);
      FindNoneBehind(q[0], q[1..]);
    }
  }

  lemma {:induction false} NoFiringsWhenAbsent(q: Queue, evs: seq<Event>, id: int)
    requires Ordered(q) && Legal(q, evs) && Find(q, id).None?
    requires forall ev <- evs :: ev.Add? ==> ev.entry.id != id
    ensures Firings(q, evs, id) == [] && Find(Exec(q, evs), id).None?
    decreases |evs|
  {
    if evs != [] {
      assert evs[0] in evs;
      StepKeepsOrdered(q, evs[0]);
      if evs[0].PassAt? { PassOnTimer(q, evs[0].clock, id); } else { OtherStepsOnTimer(q, evs[0], id); }
      NoFiringsWhenAbsent(Step(q, evs[0]), evs[1..], id);
    }
  }

  /** `fired` are the clocks of the firings of a timer that started in state `t`: the k-th one is no earlier than the
      deadline then in force. */
  ghost predicate OnSchedule(fired: seq<int>, t: TimerState) {
    forall k :: 0 <= k < |fired| ==> fired[k] >= t.expiration + k * t.interval
  }

  lemma ScheduleCons(clock: int, fired: seq<int>, t: TimerState)
    requires t.expiration <= clock && OnSchedule(fired, t.(expiration := t.expiration + t.interval))
    ensures OnSchedule([clock] + fired, t)
  {
    forall k | 0 <= k < |[clock] + fired| ensures ([clock] + fired)[k] >= t.expiration + k * t.interval {
      if k > 0 {
        assert ([clock] + fired)[k] == fired[k - 1];
        assert t.interval + (k - 1) * t.interval == k * t.interval;
      }
    }
  }

  /** What a run makes of a timer with state `t`: `t'` is left of it, and its callback has run at the clocks `fired`. */
  ghost predicate FiringLaw(t: TimerState, t': Option<TimerState>, fired: seq<int>, dropped: bool) {
    // the k-th firing is no earlier than the deadline then in force
    && OnSchedule(fired, t)
    // while the timer is queued, its firings and its remaining count add up to the count it started with
    && (t'.Some? ==> t'.value.repeatCount + |fired| == t.repeatCount && t'.value.interval == t.interval
                     && t'.value.expiration == t.expiration + |fired| * t.interval)
    // a count n >= 0 allows max(1, n) firings, all of which have happened if a pass has erased the timer
    && (0 <= t.repeatCount ==> |fired| <= if t.repeatCount == 0 then 1 else t.repeatCount)
    && (t'.None? && !dropped && 1 <= t.repeatCount ==> |fired| == t.repeatCount)
    // no pass erases a timer with a negative count
    && (t.repeatCount < 0 && !dropped ==> t'.Some?)
  }

  lemma FiringLawAfterFiring(t: TimerState, clock: int, t': Option<TimerState>, fired: seq<int>, dropped: bool)
    requires !t.cancelled && t.expiration <= clock && AfterRun(t).Some?
    requires FiringLaw(RunTimer(t), t', fired, dropped)
    ensures FiringLaw(t, t', [clock] + fired, dropped)
  {
    ScheduleCons(clock, fired, t);
    assert t.interval + |fired| * t.interval == (1 + |fired|) * t.interval;
  }

  lemma StepOnTimer(q: Queue, ev: Event, id: int)
    requires Ordered(q) && Find(q, id).Some? && (ev.Add? ==> ev.entry.id != id)
    ensures var t, t' := Find(q, id).value, Find(Step(q, ev), id);
            if Fires(q, ev, id) then !t.cancelled && t.expiration <= ev.clock && t' == AfterRun(t)
            else if t'.Some? then t'.value == t.(cancelled := t'.value.cancelled)
            else ev == Drop(id) || t.repeatCount == 0
  {
    if ev.PassAt? { PassOnTimer(q, ev.clock, id); } else { OtherStepsOnTimer(q, ev, id); }
  }

  lemma FiringLawIgnoresCancel(t: TimerState, off: bool, t': Option<TimerState>, fired: seq<int>, dropped: bool)
    requires FiringLaw(t.(cancelled := off), t', fired, dropped)
    ensures FiringLaw(t, t', fired, dropped)
  {}

  lemma FiringLawWhenErased(t: TimerState, clock: int, fires: bool, dropped: bool)
    requires if fires then !t.cancelled && t.expiration <= clock && AfterRun(t).None? else dropped || t.repeatCount == 0
    ensures FiringLaw(t, None, if fires then [clock] else [], dropped)
  {}

  lemma {:induction false} FiringsObeyLaw(q: Queue, evs: seq<Event>, id: int)
    requires Ordered(q) && Legal(q, evs) && Find(q, id).Some?
    requires forall ev <- evs :: ev.Add? ==> ev.entry.id != id
    ensures FiringLaw(Find(q, id).value, Find(Exec(q, evs), id), Firings(q, evs, id), Drop(id) in evs)
    decreases |evs|
  {
    if evs != [] {
      var ev, later := evs[0], evs[1..];
      assert ev in evs;
      var t, next := Find(q, id).value, Step(q, ev);
      StepKeepsOrdered(q, ev);
      StepOnTimer(q, ev, id);
      var t', dropped := Find(Exec(q, evs), id), Drop(id) in evs;
      if Find(next, id).None? {
        NoFiringsWhenAbsent(next, later, id);
        FiringLawWhenErased(t, if ev.PassAt? then ev.clock else 0, Fires(q, ev, id), dropped);
      } else {
        FiringsObeyLaw(next, later, id);
        DropLater(q, ev, later, id);
        FiringLawCons(t, Fires(q, ev, id), if ev.PassAt? then ev.clock else 0, Find(next, id).value, t',
                      Firings(next, later, id), dropped);
      }
    }
  }

  /** The k-th event of a run fires a timer only if the timer is queued, due and not cancelled at that point. */
  ghost predicate FiresOnlyActive(q: Queue, evs: seq<Event>, id: int, k: nat)
    requires k < |evs|
  {
    var now, t := Exec(q, evs[..k]), Find(Exec(q, evs[..k]), id);
    Fires(now, evs[k], id) ==> t.Some? && !t.value.cancelled && t.value.expiration <= evs[k].clock
  }

  lemma {:induction false} OnlyActiveFires(q: Queue, evs: seq<Event>, id: int, k: nat)
    requires Ordered(q) && Legal(q, evs) && k < |evs|
    ensures FiresOnlyActive(q, evs, id, k)
    decreases k
  {
    if k == 0 {
      if evs[0].PassAt? { PassOnTimer(q, evs[0].clock, id); }
    } else {
      var later := evs[1..];
      assert evs[..k][1..] == later[..k - 1] && evs[k] == later[k - 1];
      StepKeepsOrdered(q, evs[0]);
      OnlyActiveFires(Step(q, evs[0]), later, id, k - 1);
    }
  }

  /** The firings of a run are those of its events, each at its own point of the run. */
  lemma {:induction false} FiringsSnoc(q: Queue, evs: seq<Event>, ev: Event, id: int)
    ensures Firings(q, evs + [ev], id) == Firings(q, evs, id) + if Fires(Exec(q, evs), ev, id) then [ev.clock] else []
    decreases |evs|
  {
    if evs == [] {
      assert evs + [ev] == [ev] && [ev][1..] == [];
    } else {
      var next, later := Step(q, evs[0]), evs[1..];
      var first := if Fires(q, evs[0], id) then [evs[0].clock] else [];
      assert (evs + [ev])[1..] == later + [ev] && (evs + [ev])[0] == evs[0];
      FiringsSnoc(next, later, ev, id);
      assert Firings(q, evs + [ev], id) == first + Firings(next, later + [ev], id);
      assert Firings(q, evs, id) == first + Firings(next, later, id);
    }
  }

  /** Over every run of passes, cancellations, removals and insertions a timer obeys the firing law, and never fires
      while it is cancelled. */
  lemma FiringConservation(q: Queue, evs: seq<Event>, id: int)
    requires Ordered(q) && Legal(q, evs) && Find(q, id).Some?
    requires forall ev <- evs :: ev.Add? ==> ev.entry.id != id
    ensures FiringLaw(Find(q, id).value, Find(Exec(q, evs), id), Firings(q, evs, id), Drop(id) in evs)
    ensures forall k :: 0 <= k < |evs| ==> FiresOnlyActive(q, evs, id, k)
  {
    FiringsObeyLaw(q, evs, id);
    forall k | 0 <= k < |evs| ensures FiresOnlyActive(q, evs, id, k) {
      OnlyActiveFires(q, evs, id, k);
    }
  }

  lemma FiringLawCons(t: TimerState, fires: bool, clock: int, next: TimerState, t': Option<TimerState>,
                      fired: seq<int>, dropped: bool)
    requires if fires then !t.cancelled && t.expiration <= clock && AfterRun(t) == Some(next)
             else next == t.(cancelled := next.cancelled)
    requires FiringLaw(next, t', fired, dropped)
    ensures FiringLaw(t, t', (if fires then [clock] else []) + fired, dropped)
  {
    if fires {
      FiringLawAfterFiring(t, clock, t', fired, dropped);
    } else {
      assert [] + fired == fired;
      FiringLawIgnoresCancel(t, next.cancelled, t', fired, dropped);
    }
  }

  lemma DropLater(q: Queue, ev: Event, later: seq<Event>, id: int)
    requires Ordered(q) && Find(Step(q, ev), id).Some? && (ev.Add? ==> ev.entry.id != id)
    ensures Drop(id) in [ev] + later <==> Drop(id) in later
  {
    if ev.Drop? { OtherStepsOnTimer(q, ev, id); }
  }

  // ---------- the objects ----------

  class Timer {
    /** The address by which `std::set` breaks ties between equal deadlines. */
    const id: int
    const interval: int
    var expiration: int
    var repeatCount: int
    var cancelled: bool

    function State(): TimerState
      reads this
    {
      TimerState(expiration, interval, repeatCount, cancelled)
    }

    constructor (id: int, when: int, interval: int, repeatCount: int)
      ensures this.id == id && State() == TimerState(when, interval, repeatCount, false)
    {
      this.id, this.interval := id, interval;
      expiration, this.repeatCount, cancelled := when, repeatCount, false;
    }

    method Control(off: bool)
      modifies this
      ensures State() == old(State()).(cancelled := off)
    {
      cancelled := off;
    }

    /** `called` tells whether the callback ran. */
    method Run() returns (called: bool)
      modifies this
      ensures State() == RunTimer(old(State()))
      ensures called == !old(cancelled)
    {
      if cancelled {
        return false;
      }
      if repeatCount != 0 {
        repeatCount := repeatCount - 1;
        if repeatCount == 0 {
          return true;
        }
      }
      expiration := expiration + interval;
      return true;
    }
  }

  datatype Slot = Slot(key: int, timer: Timer)

  class TimerQueue {
    /** `m_timers`, in the order of the set. */
    var timers: seq<Slot>
    /** The ids of the timers whose callbacks have run, in order. */
    var calls: seq<int>

    ghost predicate Valid()
      reads this
    {
      forall i, j :: 0 <= i < j < |timers| ==>
                       timers[i].timer != timers[j].timer && timers[i].timer.id != timers[j].timer.id
    }

    ghost function Objects(): set<Timer>
      reads this
    {
      set s <- timers :: s.timer
    }

    ghost function View(): Queue
      reads this, Objects()
    {
      EntriesOf(timers)
    }

    constructor ()
      ensures Valid() && View() == [] && calls == []
    {
      timers, calls := [], [];
    }

    method AddTimer(id: int, when: int, interval: int, repeatCount: int) returns (timer: Timer)
      requires Valid() && forall s <- timers :: s.timer.id != id
      modifies this
      ensures Valid() && fresh(timer) && calls == old(calls)
      ensures View() == Insert(old(View()), Entry(when, id, TimerState(when, interval, repeatCount, false)))
    {
      timer := new Timer(id, when, interval, repeatCount);
      InsertSlot(Slot(when, timer));
    }

    /** `insert`: the new entry goes in front of the first one that it is less than. */
    method InsertSlot(slot: Slot)
      requires Valid() && forall s <- timers :: s.timer != slot.timer && s.timer.id != slot.timer.id
      modifies this`timers
      ensures Valid() && View() == Insert(old(View()), EntryOf(slot))
    {
      ghost var q, e := View(), EntryOf(slot);
      var when, id := slot.key, slot.timer.id;
      var i := 0;
      while i < |timers| && !(when < timers[i].key || (when == timers[i].key && id < timers[i].timer.id))
        invariant i <= |timers| && timers == old(timers)
        invariant forall k :: 0 <= k < i ==> !Less(e, q[k])
      {
        i := i + 1;
      }
      InsertAt(q, i, e);
      EntriesOfInsertion(timers, i, slot);
      timers := timers[..i] + [slot] + timers[i..];
    }

    method RemoveTimer(timer: Timer)
      requires Valid()
      modifies this
      ensures Valid() && calls == old(calls)
      ensures timer in old(Objects()) ==> View() == Remove(old(View()), timer.id)
      ensures timer !in old(Objects()) ==> timers == old(timers)
    {
      var i := 0;
      while i < |timers| && timers[i].timer != timer
        invariant i <= |timers| && timers == old(timers)
        invariant forall k :: 0 <= k < i ==> timers[k].timer != timer
      {
        i := i + 1;
      }
      if i < |timers| {
        RemoveAt(View(), i);
        EraseAt(i);
      }
    }

    method EraseAt(i: nat)
      requires Valid() && i < |timers|
      modifies this`timers
      ensures Valid() && Objects() <= old(Objects())
      ensures View() == old(View())[..i] + old(View())[i + 1..]
    {
      ghost var q, rest := View(), timers[..i] + timers[i + 1..];
      assert forall s <- rest :: s in timers;
      timers := timers[..i] + timers[i + 1..];
      assert |View()| == |q| - 1;
    }

    method Cancel(timer: Timer, off: bool)
      requires Valid()
      modifies Objects()
      ensures timer in Objects() ==> View() == SetCancelled(old(View()), timer.id, off)
      ensures timer !in Objects() ==> View() == old(View())
    {
      var i := 0;
      while i < |timers| && timers[i].timer != timer
        invariant i <= |timers| && View() == old(View())
        invariant forall k :: 0 <= k < i ==> timers[k].timer != timer
      {
        i := i + 1;
      }
      if i < |timers| {
        SetCancelledAt(View(), i, off);
        timers[i].timer.Control(off);
      }
    }

    /** One round of `doTimer`: runs the due timer at position `i` and erases it if its count is used up. */
    method VisitAt(i: nat) returns (erased: bool)
      requires Valid() && i < |timers|
      modifies this, timers[i].timer
      ensures Valid() && Objects() <= old(Objects())
      ensures var q := old(View());
              && erased == (Visited(q[i]) == [])
              && View() == q[..i] + Visited(q[i]) + q[i + 1..]
              && calls == old(calls) + if q[i].t.cancelled then [] else [q[i].id]
    {
      ghost var q := View();
      var timer := timers[i].timer;
      var called := timer.Run();
      assert View() == q[i := q[i].(t := timer.State())];
      if called {
        calls := calls + [timer.id];
      }
      erased := timer.repeatCount == 0;
      if erased {
        EraseAt(i);
      }
    }

    /** The same seen from the pass that has come to position `i`; `next` is where it goes on. */
    method VisitNext(i: nat, now: int) returns (next: nat)
      requires Valid() && i < |timers| && timers[i].timer.expiration <= now
      modifies this, timers[i].timer
      ensures Valid() && Objects() <= old(Objects())
      ensures next <= |timers| && |timers| - next < old(|timers|) - i
      ensures PassFrom(View(), next, now) == PassFrom(old(View()), i, now)
      ensures calls + Calls(View()[next..], now) == old(calls) + Calls(old(View())[i..], now)
    {
      PassFromStep(View(), i, now, calls);
      assert |View()| == |timers|;
      var erased := VisitAt(i);
      assert |View()| == |timers|;
      next := if erased then i else i + 1;
    }

    /** One pass at clock `now`, erasing used-up timers while iterating. */
    method DoTimer(now: int)
      requires Valid()
      modifies this, Objects()
      ensures Valid() && Objects() <= old(Objects())
      ensures View() == Pass(old(View()), now)
      ensures calls == old(calls) + Calls(old(View()), now)
    {
      ghost var result, total := Pass(View(), now), calls + Calls(View(), now);
      PassFromStart(View(), now);
      var i: nat := 0;
      while i < |timers|
        invariant i <= |timers| && Valid() && Objects() <= old(Objects())
        invariant PassFrom(View(), i, now) == result && calls + Calls(View()[i..], now) == total
        decreases |timers| - i
      {
        if timers[i].timer.expiration > now {
          break;
        }
        i := VisitNext(i, now);
      }
      PassFromStop(View(), i, now);
    }
  }

  /** A pass that has come to position `i`. */
  ghost function PassFrom(q: Queue, i: nat, now: int): Queue
    requires i <= |q|
  {
    q[..i] + Pass(q[i..], now)
  }

  lemma PassFromStart(q: Queue, now: int)
    ensures PassFrom(q, 0, now) == Pass(q, now) && q[0..] == q
  {
    assert q[0..] == q;
  }

  lemma PassFromStop(q: Queue, i: nat, now: int)
    requires i <= |q| && (i < |q| ==> !Due(q[i], now))
    ensures PassFrom(q, i, now) == q && Calls(q[i..], now) == []
  {}

  lemma PassFromStep(q: Queue, i: nat, now: int, calls: seq<int>)
    requires i < |q| && Due(q[i], now)
    ensures var q', i' := q[..i] + Visited(q[i]) + q[i + 1..], i + |Visited(q[i])|;
            && PassFrom(q', i', now) == PassFrom(q, i, now)
            && calls + (if q[i].t.cancelled then [] else [q[i].id]) + Calls(q'[i'..], now) == calls + Calls(q[i..], now)
  {
    var q', i' := q[..i] + Visited(q[i]) + q[i + 1..], i + |Visited(q[i])|;
    assert q[i..][1..] == q[i + 1..] == q'[i'..];
    assert q'[..i'] == q[..i] + Visited(q[i]);
  }

  function EntryOf(s: Slot): Entry
    reads s.timer
  {
    Entry(s.key, s.timer.id, s.timer.State())
  }

  ghost function EntriesOf(slots: seq<Slot>): Queue
    reads set s <- slots :: s.timer
  {
    seq(|slots|, i requires 0 <= i < |slots| reads set s <- slots :: s.timer => EntryOf(slots[i]))
  }

  lemma EntriesOfInsertion(slots: seq<Slot>, i: nat, slot: Slot)
    requires i <= |slots|
    ensures EntriesOf(slots[..i] + [slot] + slots[i..])
            == EntriesOf(slots)[..i] + [EntryOf(slot)] + EntriesOf(slots)[i..]
  {}

  lemma {:induction false} InsertAt(q: Queue, i: nat, e: Entry)
    requires i <= |q| && (forall k :: 0 <= k < i ==> !Less(e, q[k])) && (i < |q| ==> Less(e, q[i]))
    ensures Insert(q, e) == q[..i] + [e] + q[i..]
    decreases |q|
  {
    if i > 0 {
      InsertAt(q[1..], i - 1, e);
      assert q[1..][..i - 1] == q[1..i] && q[1..][i - 1..] == q[i..];
    }
  }

  lemma {:induction false} RemoveAt(q: Queue, i: nat)
    requires i < |q| && forall k :: 0 <= k < i ==> q[k].id != q[i].id
    ensures Remove(q, q[i].id) == q[..i] + q[i + 1..]
    decreases |q|
  {
    if i > 0 {
      RemoveAt(q[1..], i - 1);
      assert q[1..][..i - 1] == q[1..i] && q[1..][i..] == q[i + 1..];
    }
  }

  lemma {:induction false} SetCancelledAt(q: Queue, i: nat, off: bool)
    requires i < |q| && forall k :: 0 <= k < i ==> q[k].id != q[i].id
    ensures SetCancelled(q, q[i].id, off) == q[i := q[i].(t := q[i].t.(cancelled := off))]
    decreases |q|
  {
    if i > 0 {
      SetCancelledAt(q[1..], i - 1, off);
      var e := q[i].(t := q[i].t.(cancelled := off));
      assert q[1..][i - 1 := e] == q[i := e][1..];
    }
  }
}
