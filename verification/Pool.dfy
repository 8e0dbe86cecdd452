/**
  The MySQL and Redis connection pools (DataBase/KaMysql/KaDBManager.cpp, DataBase/KaRedis/KaCachePool.cpp).

  Both follow one protocol over a free list, a counter, a mutex and a condition variable.  `ConnPool` is the data the
  mutex protects, with one method per critical section; `State` adds the mutex and any number of threads, and `Step`
  interleaves their critical sections at every point where the mutex can change hands.  A connection is named by its
  address.
 */
module Pools {
  import opened Bytes

  const MIN_CONN: int := 2

  type Conn = int
  type Tid = int

  // ---------- the critical sections, on values ----------

  datatype GetResult = MustWait | Failed | Retry | Got(conn: Conn)

  /** One round of the loop in `getKaConn`/`getCacheConn`; `c` and `ok` are the connection that it would create and
      whether its `Init` succeeds. */
  function GetRound(free: seq<Conn>, count: int, max: int, c: Conn, ok: bool): (seq<Conn>, int, GetResult) {
    if free == [] then
      if count >= max then (free, count, MustWait)
      else if !ok then (free, count, Failed)
      else (free + [c], count + 1, Retry)
    else (free[1..], count, Got(free[0]))
  }

  /** `RelKaConn`/`RelCacheConn`: a connection that is free already is not added again. */
  function PutBack(free: seq<Conn>, c: Conn): seq<Conn> {
    if c in free then free else free + [c]
  }

  class ConnPool {
    const max: int
    var free: seq<Conn>
    var count: int

    constructor (max: int)
      ensures this.max == max && free == [] && count == MIN_CONN
    {
      this.max := max;
      free, count := [], MIN_CONN;
    }

    /** Opens the first `count` connections, `conns`; stops at the first whose `Init` fails. */
    method Init(conns: seq<Conn>, inits: seq<bool>) returns (ok: bool)
      requires 0 <= count == |conns| == |inits| && free == []
      modifies this`free
      ensures ok <==> forall i :: 0 <= i < |inits| ==> inits[i]
      ensures free <= conns
      ensures ok ==> free == conns
      ensures !ok ==> |free| < |inits| && !inits[|free|]
    {
      var i := 0;
      while i < count
        invariant 0 <= i <= count && free == conns[..i]
        invariant forall k :: 0 <= k < i ==> inits[k]
      {
        if !inits[i] {
          return false;
        }
        free := free + [conns[i]];
        i := i + 1;
      }
      return true;
    }

    method Get(c: Conn, initOk: bool) returns (r: GetResult)
      modifies this
      ensures (free, count, r) == GetRound(old(free), old(count), max, c, initOk)
    {
      if free == [] {
        if count >= max {
          return MustWait;
        }
        if !initOk {
          return Failed;
        }
        free := free + [c];
        count := count + 1;
        return Retry;
      }
      r := Got(free[0]);
      free := free[1..];
    }

    method Release(c: Conn)
      modifies this`free
      ensures free == PutBack(old(free), c)
    {
      var i := 0;
      while i < |free| && free[i] != c
        invariant i <= |free| && c !in free[..i]
      {
        i := i + 1;
      }
      if i == |free| {
        free := free + [c];
      }
    }
  }

  // ---------- the machine ----------

  /** Where a thread is: outside the pool, in the loop of `get` with the mutex, waiting on the condition variable, woken
      but without the mutex yet, or in `release` before or after the free list is updated. */
  datatype Pc = Outside | Getting | Blocked | Woken | Releasing(conn: Conn) | Notifying

  datatype State =
    State(max: int, free: seq<Conn>, count: int, mutex: Option<Tid>, pc: map<Tid, Pc>, held: set<(Tid, Conn)>)

  datatype Action =
    | EnterGet(t: Tid)
    | Round(t: Tid, c: Conn, initOk: bool)
    | EnterRelease(t: Tid, conn: Conn)
    | PutFree(t: Tid)
    | NotifyAll(t: Tid)
    | WakeSpuriously(t: Tid)

  predicate Live(s: State, c: Conn) {
    c in s.free || exists p <- s.held :: p.1 == c
  }

  /** A caller releases what it holds; releasing again a connection that is still free is allowed as well. */
  predicate MayRelease(s: State, t: Tid, c: Conn) {
    (t, c) in s.held || c in s.free
  }

  /** Entering needs the mutex; a new connection has the address of no live one. */
  predicate Enabled(s: State, a: Action) {
    && a.t in s.pc
    && match a
       case EnterGet(t) => s.mutex.None? && (s.pc[t].Outside? || s.pc[t].Woken?)
       case Round(t, c, _) => s.pc[t].Getting? && !Live(s, c)
       case EnterRelease(t, c) => s.mutex.None? && s.pc[t].Outside? && MayRelease(s, t, c)
       case PutFree(t) => s.pc[t].Releasing?
       case NotifyAll(t) => s.pc[t].Notifying?
       case WakeSpuriously(t) => s.pc[t].Blocked?
  }

  function AfterRound(s: State, t: Tid, round: (seq<Conn>, int, GetResult)): State {
    var s' := s.(free := round.0, count := round.1);
    match round.2
    case MustWait => s'.(mutex := None, pc := s.pc[t := Blocked])
    case Failed => s'.(mutex := None, pc := s.pc[t := Outside])
    case Retry => s'
    case Got(c) => s'.(mutex := None, pc := s.pc[t := Outside], held := s.held + {(t, c)})
  }

  function Step(s: State, a: Action): State
    requires a.t in s.pc && (a.PutFree? ==> s.pc[a.t].Releasing?)
  {
    match a
    case EnterGet(t) => s.(mutex := Some(t), pc := s.pc[t := Getting])
    case Round(t, c, ok) => AfterRound(s, t, GetRound(s.free, s.count, s.max, c, ok))
    case EnterRelease(t, c) => s.(mutex := Some(t), pc := s.pc[t := Releasing(c)])
    case PutFree(t) =>
      var c := s.pc[t].conn;
      s.(free := PutBack(s.free, c), held := s.held - {(t, c)}, pc := s.pc[t := Notifying])
    case NotifyAll(t) =>
      s.(mutex := None, pc := (map u <- s.pc :: if s.pc[u].Blocked? then Woken else s.pc[u])[t := Outside])
    case WakeSpuriously(t) => s.(pc := s.pc[t := Woken])
  }

  // ---------- invariants ----------

  predicate HasMutex(pc: Pc) {
    pc.Getting? || pc.Releasing? || pc.Notifying?
  }

  ghost predicate MutualExclusion(s: State) {
    forall t <- s.pc :: HasMutex(s.pc[t]) <==> s.mutex == Some(t)
  }

  /** No connection is free twice, held by two threads, or both free and held. */
  ghost predicate Exclusive(s: State) {
    && (forall i, j :: 0 <= i < j < |s.free| ==> s.free[i] != s.free[j])
    && (forall p, q :: p in s.held && q in s.held && p.1 == q.1 ==> p == q)
    && (forall p <- s.held :: p.1 !in s.free)
  }

  /** The counter is the number of connections, and stays within its limits. */
  ghost predicate Conserved(s: State) {
    && |s.free| + |s.held| == s.count
    && MIN_CONN <= s.count
    && (s.count > MIN_CONN ==> s.count <= s.max)
  }

  /** A thread waits unwoken only while all connections that there may be are held, except for the moment in which a
      releasing thread is about to notify. */
  ghost predicate NoLostWakeup(s: State) {
    (exists t <- s.pc :: s.pc[t].Blocked?) ==>
      || (s.free == [] && s.count >= s.max)
      || (exists t <- s.pc :: s.pc[t].Notifying?)
  }

  ghost predicate ReleasesOwn(s: State) {
    forall t <- s.pc :: s.pc[t].Releasing? ==> MayRelease(s, t, s.pc[t].conn)
  }

  ghost predicate Inv(s: State) {
    MutualExclusion(s) && Exclusive(s) && Conserved(s) && NoLostWakeup(s) && ReleasesOwn(s)
  }

  /** The pool after a successful `Init` with connections `conns`, before any thread has entered. */
  ghost predicate Initial(s: State) {
    && |s.free| == s.count == MIN_CONN
    && (forall i, j :: 0 <= i < j < |s.free| ==> s.free[i] != s.free[j])
    && s.mutex.None? && s.held == {}
    && forall t <- s.pc :: s.pc[t].Outside?
  }

  lemma EnterKeepsInv(s: State, a: Action)
    requires Inv(s) && Enabled(s, a) && (a.EnterGet? || a.EnterRelease?)
    ensures Inv(Step(s, a))
  {
    var s' := Step(s, a);
    assert forall t <- s'.pc :: t != a.t ==> s'.pc[t] == s.pc[t];
  }

  lemma WaitKeepsInv(s: State, a: Action)
    requires Inv(s) && Enabled(s, a) && a.Round? && s.free == [] && (s.count >= s.max || !a.initOk)
    ensures Inv(Step(s, a))
  {
    var s' := Step(s, a);
    assert s.mutex == Some(a.t);
    assert forall u <- s'.pc :: u != a.t ==> s'.pc[u] == s.pc[u];
  }

  lemma CreateKeepsInv(s: State, a: Action)
    requires Inv(s) && Enabled(s, a) && a.Round? && s.free == [] && s.count < s.max && a.initOk
    ensures Inv(Step(s, a))
  {
    var s' := Step(s, a);
    assert s'.free == [a.c] && s'.pc == s.pc && s'.held == s.held;
    assert s.mutex == Some(a.t) && forall u <- s.pc :: HasMutex(s.pc[u]) ==> u == a.t;
  }

  lemma TakeKeepsBooks(s: State, t: Tid)
    requires Exclusive(s) && Conserved(s) && s.free != []
    ensures var s' := s.(free := s.free[1..], held := s.held + {(t, s.free[0])}); Exclusive(s') && Conserved(s')
  {
    var c := s.free[0];
    var held := s.held + {(t, c)};
    assert c in s.free && (t, c) !in s.held;
    forall p, q | p in held && q in held && p.1 == q.1 ensures p == q {
      assert p == (t, c) || p in s.held;
      assert q == (t, c) || q in s.held;
    }
    forall p | p in held ensures p.1 !in s.free[1..] {
      assert p == (t, c) || p in s.held;
    }
  }

  lemma TakeKeepsInv(s: State, a: Action)
    requires Inv(s) && Enabled(s, a) && a.Round? && s.free != []
    ensures Inv(Step(s, a))
  {
    var s' := Step(s, a);
    TakeKeepsBooks(s, a.t);
    assert s'.free == s.free[1..] && s'.held == s.held + {(a.t, s.free[0])} && s'.count == s.count;
    assert s'.mutex.None? && s'.pc == s.pc[a.t := Outside];
    assert Exclusive(s') && Conserved(s');
    assert s.mutex == Some(a.t) && forall u <- s.pc :: HasMutex(s.pc[u]) ==> u == a.t;
    assert forall u <- s'.pc :: u != a.t ==> s'.pc[u] == s.pc[u];
  }

  lemma PutFreeKeepsInv(s: State, a: Action)
    requires Inv(s) && Enabled(s, a) && a.PutFree?
    ensures Inv(Step(s, a))
  {
    var s' := Step(s, a);
    assert s.mutex == Some(a.t) && s'.pc[a.t].Notifying?;
    assert forall u <- s'.pc :: u != a.t ==> s'.pc[u] == s.pc[u];
  }

  lemma NotifyKeepsInv(s: State, a: Action)
    requires Inv(s) && Enabled(s, a) && (a.NotifyAll? || a.WakeSpuriously?)
    ensures Inv(Step(s, a))
  {
    var s' := Step(s, a);
    if a.WakeSpuriously? {
      assert forall u <- s'.pc :: u != a.t ==> s'.pc[u] == s.pc[u];
      if t :| t in s.pc && s.pc[t].Notifying? { assert s'.pc[t].Notifying?; }
    }
  }

  lemma StepKeepsInv(s: State, a: Action)
    requires Inv(s) && Enabled(s, a)
    ensures Inv(Step(s, a))
  {
    match a
    case EnterGet(_) => EnterKeepsInv(s, a);
    case EnterRelease(_, _) => EnterKeepsInv(s, a);
    case Round(_, _, _) =>
      if s.free != [] { TakeKeepsInv(s, a); }
      else if s.count < s.max && a.initOk { CreateKeepsInv(s, a); }
      else { WaitKeepsInv(s, a); }
    case PutFree(_) => PutFreeKeepsInv(s, a);
    case NotifyAll(_) => NotifyKeepsInv(s, a);
    case WakeSpuriously(_) => NotifyKeepsInv(s, a);
  }

  // ---------- whole runs ----------

  ghost predicate Runs(s: State, actions: seq<Action>)
    decreases |actions|
  {
    actions == [] || (Enabled(s, actions[0]) && Runs(Step(s, actions[0]), actions[1..]))
  }

  ghost function After(s: State, actions: seq<Action>): State
    requires Runs(s, actions)
    decreases |actions|
  {
    if actions == [] then s else After(Step(s, actions[0]), actions[1..])
  }

  lemma {:induction false} RunKeepsInv(s: State, actions: seq<Action>)
    requires Inv(s) && Runs(s, actions)
    ensures Inv(After(s, actions))
    decreases |actions|
  {
    if actions != [] {
      StepKeepsInv(s, actions[0]);
      RunKeepsInv(Step(s, actions[0]), actions[1..]);
    }
  }

  /** In every interleaving of any number of threads, connections are exclusive and conserved. */
  lemma PoolIsSafe(s: State, actions: seq<Action>)
    requires Initial(s) && Runs(s, actions)
    ensures Exclusive(After(s, actions)) && Conserved(After(s, actions)) && MutualExclusion(After(s, actions))
  {
    RunKeepsInv(s, actions);
  }

  /** In every reachable state in which a thread waits unwoken, the pool is exhausted: nothing is free, the counter is
      at its limit, and every connection is held; or else the mutex holder is about to wake all waiting threads. */
  lemma WaitersAreNotForgotten(s: State, actions: seq<Action>, t: Tid)
    requires Initial(s) && Runs(s, actions)
    requires var s' := After(s, actions); t in s'.pc && s'.pc[t].Blocked?
    ensures var s' := After(s, actions);
            || (s'.free == [] && s'.count >= s'.max && |s'.held| == s'.count)
            || exists u <- s'.pc :: s'.mutex == Some(u) && s'.pc[u].Notifying?
                                    && forall v <- s'.pc :: !Step(s', NotifyAll(u)).pc[v].Blocked?
  {
    RunKeepsInv(s, actions);
    var s' := After(s, actions);
    if s'.free != [] || s'.count < s'.max {
      var u :| u in s'.pc && s'.pc[u].Notifying?;
      assert s'.mutex == Some(u) && forall v <- s'.pc :: !Step(s', NotifyAll(u)).pc[v].Blocked?;
    }
  }

  // ---------- what the caller owes ----------

  /** Releasing `c` keeps the books straight if and only if the releasing thread holds `c` or `c` is free. */
  lemma ReleaseConservesIff(s: State, t: Tid, c: Conn)
    requires Exclusive(s) && Conserved(s) && t in s.pc && s.pc[t] == Releasing(c)
    ensures Exclusive(Step(s, PutFree(t))) && Conserved(Step(s, PutFree(t))) <==> MayRelease(s, t, c)
  {
    var s' := Step(s, PutFree(t));
    if !MayRelease(s, t, c) {
      assert s'.held == s.held;
    }
  }

  lemma {:induction false} RunsConcat(s: State, first: seq<Action>, second: seq<Action>)
    requires Runs(s, first) && Runs(After(s, first), second)
    ensures Runs(s, first + second) && After(s, first + second) == After(After(s, first), second)
    decreases |first|
  {
    if first == [] {
      assert [] + second == second;
    } else {
      assert (first + second)[1..] == first[1..] + second;
      RunsConcat(Step(s, first[0]), first[1..], second);
    }
  }

  lemma RunsCons(s: State, a: Action, later: seq<Action>)
    requires Enabled(s, a) && Runs(Step(s, a), later)
    ensures Runs(s, [a] + later) && After(s, [a] + later) == After(Step(s, a), later)
  {
    assert ([a] + later)[1..] == later;
  }

  lemma RunsThen(s: State, first: seq<Action>, middle: State, second: seq<Action>, end: State)
    requires Runs(s, first) && After(s, first) == middle
    requires Runs(middle, second) && After(middle, second) == end
    ensures Runs(s, first + second) && After(s, first + second) == end
  {
    RunsConcat(s, first, second);
  }

  /** A thread that calls `get`, or that has been woken inside it. */
  predicate Entering(pc: Pc) {
    pc.Outside? || pc.Woken?
  }

  /** A thread that finds a free connection is handed the oldest one. */
  lemma TakesOldest(s: State, t: Tid, c: Conn)
    requires t in s.pc && Entering(s.pc[t]) && s.mutex.None? && s.free != [] && !Live(s, c)
    ensures var actions := [EnterGet(t), Round(t, c, true)];
            Runs(s, actions)
            && After(s, actions)
               == s.(free := s.free[1..], held := s.held + {(t, s.free[0])}, pc := s.pc[t := Outside])
  {
    var enter, round := EnterGet(t), Round(t, c, true);
    var s1 := Step(s, enter);
    assert Live(s1, c) == Live(s, c);
    var s2 := Step(s1, round);
    assert s2.pc == s.pc[t := Outside];
    RunsCons(s1, round, []);
    RunsCons(s, enter, [round] + []);
    assert [enter] + ([round] + []) == [enter, round];
  }

  /** While nothing is free and the counter is below its limit, a thread is handed a new connection, which counts. */
  lemma GrowsWhenBelowLimit(s: State, t: Tid, c: Conn, d: Conn)
    requires t in s.pc && Entering(s.pc[t]) && s.mutex.None? && s.free == [] && s.count < s.max
    requires !Live(s, c) && !Live(s, d) && c != d
    ensures var actions := [EnterGet(t), Round(t, c, true), Round(t, d, true)];
            Runs(s, actions)
            && After(s, actions) == s.(count := s.count + 1, held := s.held + {(t, c)}, pc := s.pc[t := Outside])
  {
    var enter, create, take := EnterGet(t), Round(t, c, true), Round(t, d, true);
    var s1 := Step(s, enter);
    assert Live(s1, c) == Live(s, c);
    var s2 := Step(s1, create);
    assert s2.free == [c];
    assert !Live(s2, d);
    var s3 := Step(s2, take);
    assert s3.pc == s.pc[t := Outside] && s3.free == [];
    RunsCons(s2, take, []);
    RunsCons(s1, create, [take] + []);
    RunsCons(s, enter, [create] + ([take] + []));
    assert [enter] + ([create] + ([take] + [])) == [enter, create, take];
  }

  /** A thread that is handed nothing leaves everything else as it was: it waits if and only if the pool is exhausted,
      and goes away if the new connection cannot be opened. */
  lemma GetsNothing(s: State, t: Tid, c: Conn, ok: bool)
    requires t in s.pc && Entering(s.pc[t]) && s.mutex.None? && s.free == [] && (s.count >= s.max || !ok) && !Live(s, c)
    ensures var actions := [EnterGet(t), Round(t, c, ok)];
            Runs(s, actions)
            && After(s, actions) == s.(pc := s.pc[t := if s.count >= s.max then Blocked else Outside])
  {
    var enter, round := EnterGet(t), Round(t, c, ok);
    var s1 := Step(s, enter);
    assert Live(s1, c) == Live(s, c);
    var s2 := Step(s1, round);
    assert s2.pc == s.pc[t := if s.count >= s.max then Blocked else Outside];
    RunsCons(s1, round, []);
    RunsCons(s, enter, [round] + []);
    assert [enter] + ([round] + []) == [enter, round];
  }

  /** A waiting thread may wake up at any time, with or without a notification, and has the mutex to get then. */
  lemma WakesAnyTime(s: State, t: Tid)
    requires t in s.pc && s.pc[t].Blocked?
    ensures Enabled(s, WakeSpuriously(t)) && Step(s, WakeSpuriously(t)) == s.(pc := s.pc[t := Woken])
    ensures Entering(Woken)
  {}

  function WokenUp(pc: Pc): Pc {
    if pc.Blocked? then Woken else pc
  }

  /** A thread that gives back what it holds puts it behind the free ones and wakes every thread that waits. */
  lemma GivesBack(s: State, t: Tid, c: Conn)
    requires t in s.pc && s.pc[t].Outside? && s.mutex.None? && (t, c) in s.held && c !in s.free
    ensures var actions := [EnterRelease(t, c), PutFree(t), NotifyAll(t)];
            Runs(s, actions)
            && After(s, actions) == s.(free := s.free + [c], held := s.held - {(t, c)},
                                       pc := map u <- s.pc :: WokenUp(s.pc[u]))
  {
    var enter, put, notify := EnterRelease(t, c), PutFree(t), NotifyAll(t);
    var s1 := Step(s, enter);
    var s2 := Step(s1, put);
    var s3 := Step(s2, notify);
    assert forall u <- s.pc :: u != t ==> s2.pc[u] == s.pc[u];
    assert s3.pc == map u <- s.pc :: WokenUp(s.pc[u]);
    RunsCons(s2, notify, []);
    RunsCons(s1, put, [notify] + []);
    RunsCons(s, enter, [put] + ([notify] + []));
    assert [enter] + ([put] + ([notify] + [])) == [enter, put, notify];
  }

  lemma TakesAndGivesBack(start: State) returns (actions: seq<Action>)
    requires start == State(2, [7, 8], 2, None, map[1 := Outside, 2 := Outside, 3 := Outside], {})
    ensures Runs(start, actions) && After(start, actions) == start.(free := [8, 7])
  {
    var middle, end := start.(free := [8], held := {(1, 7)}), start.(free := [8, 7]);
    var take, give := [EnterGet(1), Round(1, 9, true)], [EnterRelease(1, 7), PutFree(1), NotifyAll(1)];
    TakesOldest(start, 1, 9);
    assert start.pc[1 := Outside] == start.pc;
    assert After(start, take) == middle;
    GivesBack(middle, 1, 7);
    assert (map u <- middle.pc :: WokenUp(middle.pc[u])) == middle.pc;
    assert After(middle, give) == end;
    RunsThen(start, take, middle, give, end);
    actions := take + give;
  }

  lemma OthersTake(s: State) returns (actions: seq<Action>)
    requires s == State(2, [8, 7], 2, None, map[1 := Outside, 2 := Outside, 3 := Outside], {})
    ensures Runs(s, actions) && After(s, actions) == s.(free := [], held := {(2, 8), (3, 7)})
  {
    var middle, end := s.(free := [7], held := {(2, 8)}), s.(free := [], held := {(2, 8), (3, 7)});
    var first, second := [EnterGet(2), Round(2, 9, true)], [EnterGet(3), Round(3, 9, true)];
    TakesOldest(s, 2, 9);
    assert s.pc[2 := Outside] == s.pc && s.pc[3 := Outside] == s.pc;
    assert After(s, first) == middle;
    TakesOldest(middle, 3, 9);
    assert After(middle, second) == end;
    RunsThen(s, first, middle, second, end);
    actions := first + second;
  }

  /** Two connections, 7 and 8, and three threads: thread 1 takes 7 and gives it back, threads 2 and 3 take 8 and 7. */
  lemma TakenByOthers(start: State) returns (actions: seq<Action>)
    requires start == State(2, [7, 8], 2, None, map[1 := Outside, 2 := Outside, 3 := Outside], {})
    ensures Runs(start, actions) && After(start, actions) == start.(free := [], held := {(2, 8), (3, 7)})
  {
    var first := TakesAndGivesBack(start);
    var second := OthersTake(start.(free := [8, 7]));
    RunsConcat(start, first, second);
    actions := first + second;
  }

  /** When thread 1 then releases 7 a second time, 7 is free and held by thread 3 at once. */
  lemma StaleReleaseSharesConnection()
    ensures var start := State(2, [7, 8], 2, None, map[1 := Outside, 2 := Outside, 3 := Outside], {});
            Initial(start) && exists actions ::
              && Runs(start, actions)
              && After(start, actions) == start.(free := [], held := {(2, 8), (3, 7)})
    ensures var s := State(2, [], 2, None, map[1 := Outside, 2 := Outside, 3 := Outside], {(2, 8), (3, 7)});
            && !MayRelease(s, 1, 7)
            && var s' := Step(Step(s, EnterRelease(1, 7)), PutFree(1));
               7 in s'.free && (3, 7) in s'.held && !Exclusive(s')
  {
    var start := State(2, [7, 8], 2, None, map[1 := Outside, 2 := Outside, 3 := Outside], {});
    var actions := TakenByOthers(start);
    var s := start.(free := [], held := {(2, 8), (3, 7)});
    var s' := Step(Step(s, EnterRelease(1, 7)), PutFree(1));
    assert s'.free == [7] && (3, 7) in s'.held;
  }
}
