/**
  The asynchronous log writer (Util/KaLog.cpp), for levels other than FATAL and a named log file.

  Producers push lines under a mutex; one writer thread takes them off and writes them with `fwrite`, which may write
  any positive part of what it is given.  `State` interleaves the producers, the writer and `uninit` at every point
  where another thread can come in between.  `NothingIsLost` is the conservation law; `ExitMeansWritten` and
  `ExitMissedIff` are what `uninit` can and cannot rely on.
 */
module Logs {
  import opened Bytes

  const TRACE: int := 0
  const FATAL: int := 6

  /** `setLevel`, which ignores what is not a level. */
  function LevelAfter(current: int, level: int): int {
    if level < TRACE || FATAL < level then current else level
  }

  // ---------- writing a line ----------

  class LogFile {
    /** Everything written so far. */
    var content: string

    constructor ()
      ensures content == []
    {
      content := [];
    }

    /** `fwrite` of `data` when it would write at most `limit` characters. */
    method Fwrite(data: string, limit: int) returns (n: nat)
      modifies this
      ensures n == if limit <= 0 then 0 else if limit < |data| then limit else |data|
      ensures content == old(content) + data[..n]
    {
      n := if limit <= 0 then 0 else if limit < |data| then limit else |data|;
      content := content + data[..n];
    }

    /** `writeToFile`, with `limits` for the successive calls of `fwrite`: a prefix of `data` is written, and all of it
        if and only if the answer is true. */
    method WriteToFile(data: string, limits: seq<int>) returns (ok: bool, ghost n: nat)
      modifies this
      ensures n <= |data| && content == old(content) + data[..n]
      ensures ok <==> n == |data| && data != []
    {
      var local, i := data, 0;
      n := 0;
      assert data[..0] == [];
      while true
        invariant n <= |data| && local == data[n..] && content == old(content) + data[..n]
        invariant i <= |limits| && (n < |data| || data == [])
        decreases |limits| - i
      {
        var ret := 0;
        if i < |limits| {
          ret := Fwrite(local, limits[i]);
          assert data[..n] + local[..ret] == data[..n + ret];
        }
        n := n + ret;
        if ret <= 0 {
          return false, n;
        }
        i := i + 1;
        local := local[ret..];
        if local == [] {
          return true, n;
        }
      }
    }
  }

  // ---------- the queue ----------

  datatype Taken = Line(line: string) | Exit | Nothing

  /** What the writer does under the mutex: the oldest line first, and the exit flag only when there is none. */
  function TakeFrom(queue: seq<string>, exitFlag: bool): (Taken, seq<string>) {
    if queue != [] then (Line(queue[0]), queue[1..]) else (if exitFlag then Exit else Nothing, [])
  }

  class KaLog {
    var currentLevel: int
    var listLine: seq<string>
    var exitFlag: bool

    constructor (level: int)
      ensures currentLevel == level && listLine == [] && !exitFlag
    {
      currentLevel, listLine, exitFlag := level, [], false;
    }

    method SetLevel(level: int)
      modifies this`currentLevel
      ensures currentLevel == LevelAfter(old(currentLevel), level)
    {
      if level < TRACE || level > FATAL {
        return;
      }
      currentLevel := level;
    }

    /** `output`, on the queue path. */
    method Output(level: int, message: string) returns (ok: bool)
      requires level != FATAL
      modifies this`listLine
      ensures ok <==> currentLevel <= level
      ensures listLine == old(listLine) + if ok then [message + "\n"] else []
    {
      if level != currentLevel {
        if level < currentLevel {
          return false;
        }
      }
      listLine := listLine + [message + "\n"];
      return true;
    }

    /** One round of the writer's wait loop. */
    method Take() returns (t: Taken)
      modifies this`listLine
      ensures (t, listLine) == TakeFrom(old(listLine), exitFlag)
    {
      if listLine == [] {
        if exitFlag {
          return Exit;
        }
        return Nothing;
      }
      t := Line(listLine[0]);
      listLine := listLine[1..];
    }
  }

  // ---------- the machine ----------

  /** Where the writer is: about to look for a line; holding the mutex, having found neither a line nor the exit flag;
      blocked on the condition variable; writing the rest of a line; or gone, with `rest` unwritten if writing
      failed. */
  datatype Writer = Looking | Deciding | Blocked | Writing(rest: string) | Gone(byExit: bool, rest: string)

  /** How far the one call of `uninit` has got; after notifying it waits for the writer thread to end. */
  datatype Uninit = NotCalled | FlagSet | Notified

  datatype State =
    State(accepted: seq<string>, queue: seq<string>, uninit: Uninit, writer: Writer, written: string, level: int)

  predicate ExitFlag(s: State) {
    !s.uninit.NotCalled?
  }

  datatype Action =
    | Output(level: int, message: string)
    | SetLevel(level: int)
    | SetExit
    | NotifyExit
    | OpenFails
    | Look
    | Wait
    | WakeSpuriously
    | WriteSome(n: nat)
    | WriteFails

  predicate Enabled(s: State, a: Action) {
    match a
    case Output(level, _) => level != FATAL && (level >= s.level ==> !s.writer.Deciding?)
    case SetLevel(_) => true
    case SetExit => s.uninit.NotCalled?
    case NotifyExit => s.uninit.FlagSet?
    case OpenFails => s.writer.Looking?
    case Look => s.writer.Looking?
    case Wait => s.writer.Deciding?
    case WakeSpuriously => s.writer.Blocked?
    case WriteSome(n) => s.writer.Writing? && 0 < n <= |s.writer.rest|
    case WriteFails => s.writer.Writing?
  }

  function Woken(w: Writer): Writer {
    if w.Blocked? then Looking else w
  }

  /** A woken writer is `Looking` again: its loop tests the queue and the exit flag before anything else. */
  function Step(s: State, a: Action): State
    requires Enabled(s, a)
  {
    match a
    case Output(level, message) =>
      if level < s.level then s
      else
        var line := message + "\n";
        s.(accepted := s.accepted + [line], queue := s.queue + [line], writer := Woken(s.writer))
    case SetLevel(level) => s.(level := LevelAfter(s.level, level))
    case SetExit => s.(uninit := FlagSet)
    case NotifyExit => s.(uninit := Notified, writer := Woken(s.writer))
    case OpenFails => s.(writer := Gone(false, []))
    case Look =>
      (match TakeFrom(s.queue, ExitFlag(s))
       case (Line(line), queue) => s.(queue := queue, writer := Writing(line))
       case (Exit, _) => s.(writer := Gone(true, []))
       case (Nothing, _) => s.(writer := Deciding))
    case Wait => s.(writer := Blocked)
    case WakeSpuriously => s.(writer := Looking)
    case WriteSome(n) =>
      var rest := s.writer.rest;
      s.(written := s.written + rest[..n], writer := if n == |rest| then Looking else Writing(rest[n..]))
    case WriteFails => s.(writer := Gone(false, s.writer.rest))
  }

  /** The part of the current line that is not written yet. */
  function InHand(s: State): string {
    if s.writer.Writing? || s.writer.Gone? then s.writer.rest else []
  }

  ghost predicate Inv(s: State) {
    // what is written, in hand and queued are the accepted lines, in the order of acceptance
    && s.written + InHand(s) + Concat(s.queue) == Concat(s.accepted)
    // the writer does not wait, or make up its mind to, while there is a line
    && (s.writer.Blocked? || s.writer.Deciding? ==> s.queue == [])
    && (s.writer.Gone? && s.writer.byExit ==> s.writer.rest == [] && ExitFlag(s))
    && (s.writer.Writing? ==> s.writer.rest != [])
    && (forall line <- s.queue :: line != [])
  }

  lemma {:induction false} ConcatSnoc(lines: seq<string>, line: string)
    ensures Concat(lines + [line]) == Concat(lines) + line
    decreases |lines|
  {
    if lines == [] {
      assert [line] == [] + [line] && Concat([line]) == line + [];
    } else {
      assert (lines + [line])[1..] == lines[1..] + [line];
      ConcatSnoc(lines[1..], line);
    }
  }

  lemma OutputKeepsInv(s: State, level: int, message: string)
    requires Inv(s) && Enabled(s, Output(level, message))
    ensures Inv(Step(s, Output(level, message)))
  {
    var line := message + "\n";
    if s.level <= level {
      var s' := Step(s, Output(level, message));
      ConcatSnoc(s.queue, line);
      ConcatSnoc(s.accepted, line);
      Reassociate(s.written + InHand(s), Concat(s.queue), line);
      assert InHand(s') == InHand(s);
      assert forall l <- s'.queue :: l in s.queue || l == line;
    }
  }

  lemma LookKeepsInv(s: State)
    requires Inv(s) && Enabled(s, Look)
    ensures Inv(Step(s, Look))
  {
    if s.queue != [] {
      assert s.queue[0] in s.queue && forall line <- s.queue[1..] :: line in s.queue;
      var first, later := s.queue[0], Concat(s.queue[1..]);
      assert s.written + first + later == s.written + [] + (first + later);
    }
  }

  lemma WriteKeepsInv(s: State, n: nat)
    requires Inv(s) && Enabled(s, WriteSome(n))
    ensures Inv(Step(s, WriteSome(n)))
  {
    var rest := s.writer.rest;
    assert s.written + rest[..n] + rest[n..] == s.written + rest;
    assert n == |rest| ==> rest[n..] == [];
  }

  lemma StepKeepsInv(s: State, a: Action)
    requires Inv(s) && Enabled(s, a)
    ensures Inv(Step(s, a))
  {
    match a
    case Output(level, message) => OutputKeepsInv(s, level, message);
    case Look => LookKeepsInv(s);
    case WriteSome(n) => WriteKeepsInv(s, n);
    case _ =>
  }

  lemma Reassociate(a: string, b: string, c: string)
    ensures (a + b) + c == a + (b + c)
  {}

  ghost predicate Runs(s: State, actions: seq<Action>)
    decreases |actions|
  {
    actions == [] || (Enabled(s, actions[0]) && Runs(Step(s, actions[0]), actions[1..]))
  }

  ghost function After(s: State, actions: seq<Action>): State
    requires Runs(s, actions)
    decreases |actions|
  {
    if actions == [] then s else After(Step(s, actions[0]), actions[1..])
  }

  function Initial(level: int): State {
    State([], [], NotCalled, Looking, [], level)
  }

  lemma {:induction false} RunKeepsInv(s: State, actions: seq<Action>)
    requires Inv(s) && Runs(s, actions)
    ensures Inv(After(s, actions))
    decreases |actions|
  {
    if actions != [] {
      StepKeepsInv(s, actions[0]);
      RunKeepsInv(Step(s, actions[0]), actions[1..]);
    }
  }

  /** The lines that the calls of `output` in a run are for: those that are not below the level set last. */
  function LinesOf(level: int, actions: seq<Action>): seq<string>
    decreases |actions|
  {
    if actions == [] then []
    else
      match actions[0]
      case Output(l, message) => (if l >= level then [message + "\n"] else []) + LinesOf(level, actions[1..])
      case SetLevel(l) => LinesOf(if 0 <= l <= 6 then l else level, actions[1..])
      case _ => LinesOf(level, actions[1..])
  }

  /** Whatever else goes on, exactly these lines are accepted, in the order of the calls. */
  lemma {:induction false} AcceptedAreLinesOf(s: State, actions: seq<Action>)
    requires Runs(s, actions)
    ensures After(s, actions).accepted == s.accepted + LinesOf(s.level, actions)
    decreases |actions|
  {
    if actions != [] {
      var next := Step(s, actions[0]);
      AcceptedAreLinesOf(next, actions[1..]);
      var here := if actions[0].Output? && actions[0].level >= s.level then [actions[0].message + "\n"] else [];
      assert next.accepted == s.accepted + here;
      assert LinesOf(s.level, actions) == here + LinesOf(next.level, actions[1..]);
    }
  }

  /** A call of `output` can come at any time but while the writer holds the mutex; a line that is not below the level
      is queued last and wakes a waiting writer, and any other does nothing. */
  lemma OutputOutcome(s: State, level: int, message: string)
    requires level != 6
    ensures Enabled(s, Output(level, message)) <==> level < s.level || !s.writer.Deciding?
    ensures Enabled(s, Output(level, message)) ==>
              var s' := Step(s, Output(level, message));
              if level < s.level then s' == s
              else s' == s.(accepted := s.accepted + [message + "\n"], queue := s.queue + [message + "\n"],
                            writer := if s.writer.Blocked? then Looking else s.writer)
  {}

  /** In every interleaving, with any short writes, the characters written, the rest of the line in hand and the queue
      are the accepted lines in order, which are those of the run's calls; and the writer never waits while there is a
      line. */
  lemma NothingIsLost(level: int, actions: seq<Action>)
    requires Runs(Initial(level), actions)
    ensures var s := After(Initial(level), actions);
            && s.accepted == LinesOf(level, actions)
            && s.written + InHand(s) + Concat(s.queue) == Concat(s.accepted)
            && (s.writer.Blocked? ==> s.queue == [])
  {
    RunKeepsInv(Initial(level), actions);
    AcceptedAreLinesOf(Initial(level), actions);
    assert [] + LinesOf(level, actions) == LinesOf(level, actions);
  }

  /** When the writer returns because of the exit flag, every line accepted so far is written in full; otherwise a look
      at the queue takes the oldest line, or finds nothing to do. */
  lemma ExitMeansWritten(level: int, actions: seq<Action>)
    requires Runs(Initial(level), actions) && After(Initial(level), actions).writer.Looking?
    ensures var s := After(Initial(level), actions);
            var s' := Step(s, Look);
            s'.writer.Gone? <==> ExitFlag(s) && s'.written == Concat(s'.accepted)
  {
    RunKeepsInv(Initial(level), actions);
    var s := After(Initial(level), actions);
    assert s.written + [] == s.written;
    if s.queue != [] {
      assert s.queue[0] in s.queue;
      assert |s.written + Concat(s.queue)| > |s.written|;
    }
  }

  // ---------- the end of the writer ----------

  /** The writer's own steps. */
  predicate OfWriter(a: Action) {
    a.OpenFails? || a.Look? || a.Wait? || a.WriteSome? || a.WriteFails?
  }

  ghost predicate WriterRuns(s: State, actions: seq<Action>) {
    Runs(s, actions) && forall a <- actions :: OfWriter(a)
  }

  /** The writer cannot go on by itself. */
  ghost predicate AtRest(s: State) {
    forall a :: OfWriter(a) ==> !Enabled(s, a)
  }

  ghost function QueueWork(queue: seq<string>): nat {
    if queue == [] then 0 else 1 + |queue[0]| + QueueWork(queue[1..])
  }

  /** A bound on the number of steps left to the writer while nobody else does anything. */
  ghost function Work(s: State): nat {
    match s.writer
    case Looking => 2 + QueueWork(s.queue)
    case Writing(rest) => 2 + |rest| + QueueWork(s.queue)
    case Deciding => 1
    case _ => 0
  }

  /** Left to itself the writer comes to rest, blocked or gone. */
  lemma {:induction false} WriterComesToRest(s: State, actions: seq<Action>)
    requires WriterRuns(s, actions)
    ensures |actions| <= Work(s)
    ensures var s' := After(s, actions); AtRest(s') <==> s'.writer.Blocked? || s'.writer.Gone?
    decreases |actions|
  {
    if actions == [] {
      RestIff(s);
    } else {
      assert actions[0] in actions;
      assert forall a <- actions[1..] :: a in actions;
      WriterComesToRest(Step(s, actions[0]), actions[1..]);
    }
  }

  lemma RestIff(s: State)
    ensures AtRest(s) <==> s.writer.Blocked? || s.writer.Gone?
  {
    assert Enabled(s, Look) <==> s.writer.Looking?;
    assert Enabled(s, Wait) <==> s.writer.Deciding?;
    assert Enabled(s, WriteFails) <==> s.writer.Writing?;
  }

  lemma BlockedDoesNothing(s: State, actions: seq<Action>)
    requires WriterRuns(s, actions)
    ensures s.writer.Blocked? ==> actions == []
  {
    if actions != [] {
      assert actions[0] in actions;
    }
  }

  /** With the flag set, only a writer that is past its test of the flag gets to wait. */
  lemma {:induction false} WaitsOnlyWhenDeciding(s: State, actions: seq<Action>)
    requires WriterRuns(s, actions) && ExitFlag(s) && !s.writer.Blocked?
    ensures var s' := After(s, actions);
            && s'.uninit == s.uninit
            && (s.writer.Deciding? ==> s'.writer.Deciding? || s'.writer.Blocked?)
            && (!s.writer.Deciding? ==> !s'.writer.Deciding? && !s'.writer.Blocked?)
    decreases |actions|
  {
    if actions != [] {
      assert actions[0] in actions;
      assert forall a <- actions[1..] :: a in actions;
      var next := Step(s, actions[0]);
      if next.writer.Blocked? {
        BlockedDoesNothing(next, actions[1..]);
      } else {
        WaitsOnlyWhenDeciding(next, actions[1..]);
      }
    }
  }

  /** `uninit` sets the flag without the mutex and notifies some time later.  However the writer goes on from there by
      itself, it comes to rest; it rests waiting, and nothing but a new line or a spurious wake-up can free it, if and
      only if at the moment of the notification it was past its test of the flag but not waiting yet.  Otherwise it
      ends, as `uninit` expects. */
  lemma ExitMissedIff(s: State, actions: seq<Action>)
    requires Enabled(s, NotifyExit) && WriterRuns(Step(s, NotifyExit), actions)
    ensures |actions| <= Work(Step(s, NotifyExit))
    ensures var s' := After(Step(s, NotifyExit), actions);
            AtRest(s') ==>
              && (s'.writer.Blocked? <==> s.writer.Deciding?)
              && (s'.writer.Gone? <==> !s.writer.Deciding?)
              && forall a :: Enabled(s', a) && Step(s', a).writer != s'.writer ==>
                               s.writer.Deciding? && (a.Output? || a.WakeSpuriously?)
  {
    WriterComesToRest(Step(s, NotifyExit), actions);
    WaitsOnlyWhenDeciding(Step(s, NotifyExit), actions);
  }

  /** A run at the end of which the exit flag is set, its notification is over, and the writer waits. */
  lemma ExitCanBeMissed(level: int)
    ensures var actions := [Look, SetExit, NotifyExit, Wait];
            && Runs(Initial(level), actions)
            && var s := After(Initial(level), actions);
               && s.writer.Blocked? && s.uninit.Notified?
               && forall a :: Enabled(s, a) && Step(s, a).writer != s.writer ==> a.Output? || a.WakeSpuriously?
  {
    var actions := [Look, SetExit, NotifyExit, Wait];
    assert actions[1..] == [SetExit, NotifyExit, Wait];
    assert [SetExit, NotifyExit, Wait][1..] == [NotifyExit, Wait];
    assert [NotifyExit, Wait][1..] == [Wait] && [Wait][1..] == [];
  }
}
