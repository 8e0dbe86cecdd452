/**
  The life of a connection (Net/TcpConnection.cpp) and the server's map of connections (Net/TcpServer.cpp).

  Every handler of a connection may end up in a user callback, and that callback may call any handler again, on the same
  connection or another one.  A `Call` is a handler together with the calls that the user callback makes, if the handler
  invokes it; `Exec` runs such a tree.  The results hold for every tree, that is, for every re-entrant order of calls.
  A connection is named by its number, `m_nextConnId` at its creation.
 */
module Connections {
  datatype StateE = DisConnected | Connecting | Connected | Disconnecting

  type Id = nat

  /** `states` are the connections' own states; `byName` is `m_connections`; `closeCalls` are the invocations of close
      callbacks, in order. */
  datatype World =
    World(name: string, hostPort: string, states: map<Id, StateE>, byName: map<string, Id>, nextId: Id,
          closeCalls: seq<Id>)

  // ---------- names ----------

  function Digit(n: nat): char
    requires n < 10
  {
    ['0', '1', '2', '3', '4', '5', '6', '7', '8', '9'][n]
  }

  function Decimal(n: nat): (s: string)
    ensures |s| >= 1
  {
    if n < 10 then [Digit(n)] else Decimal(n / 10) + [Digit(n % 10)]
  }

  /** What `snprintf` leaves in the 32 bytes of `buf`. */
  function NameSuffix(hostPort: string, id: Id): string {
    var s := ":" + hostPort + "#" + Decimal(id);
    if |s| <= 31 then s else s[..31]
  }

  function ConnName(name: string, hostPort: string, id: Id): string {
    name + NameSuffix(hostPort, id)
  }

  predicate NameFits(hostPort: string, id: Id) {
    |Decimal(id)| + |hostPort| <= 29
  }

  lemma {:induction false} DecimalIsInjective(m: nat, n: nat)
    requires Decimal(m) == Decimal(n)
    ensures m == n
    decreases m
  {
    DecimalLast(m);
    DecimalLast(n);
    assert m % 10 == n % 10;
    if m >= 10 {
      DecimalIsInjective(m / 10, n / 10);
    }
  }

  lemma DecimalLast(n: nat)
    ensures var s := Decimal(n);
            && s[|s| - 1] == Digit(n % 10)
            && (n < 10 <==> |s| == 1)
            && (n >= 10 ==> s[..|s| - 1] == Decimal(n / 10))
  {
    if n >= 10 {
      var s, last := Decimal(n / 10), Digit(n % 10);
      assert Decimal(n) == s + [last] && (s + [last])[..|s|] == s;
    }
  }

  lemma {:induction false} DecimalGrows(m: nat, n: nat)
    requires m <= n
    ensures |Decimal(m)| <= |Decimal(n)|
    decreases n
  {
    if m >= 10 {
      DecimalGrows(m / 10, n / 10);
    }
  }

  /** Names that fit the buffer tell connections apart. */
  lemma NamesAreDistinct(name: string, hostPort: string, i: Id, j: Id)
    requires NameFits(hostPort, i) && NameFits(hostPort, j)
    ensures ConnName(name, hostPort, i) == ConnName(name, hostPort, j) <==> i == j
  {
    if ConnName(name, hostPort, i) == ConnName(name, hostPort, j) {
      var head := ":" + hostPort + "#";
      SamePrefix(name, NameSuffix(hostPort, i), NameSuffix(hostPort, j));
      SamePrefix(head, Decimal(i), Decimal(j));
      DecimalIsInjective(i, j);
    }
  }

  lemma SamePrefix(prefix: string, s: string, t: string)
    requires prefix + s == prefix + t
    ensures s == t
  {
    assert (prefix + s)[|prefix|..] == s && (prefix + t)[|prefix|..] == t;
  }

  // ---------- handlers ----------

  datatype Op =
    | Shutdown(id: Id)
    | ForceClose(id: Id)
    | Established(id: Id, reading: bool)
    | HandleRead(id: Id, n: int)
    | HandleWrite(id: Id, writing: bool, n: int)
    | HandleClose(id: Id)
    | NewConnection(reading: bool)

  datatype Call = Call(op: Op, callback: seq<Call>)

  function SetState(w: World, id: Id, s: StateE): World {
    w.(states := w.states[id := s])
  }

  /** `TcpServer::removeConnection`, the close callback; it erases by name. */
  function RemoveConnection(w: World, id: Id): World {
    w.(closeCalls := w.closeCalls + [id], byName := w.byName - {ConnName(w.name, w.hostPort, id)})
  }

  function Close(w: World, id: Id, callback: seq<Call>): World
    decreases callback, 1
  {
    if id !in w.states || w.states[id] == DisConnected then w
    else RemoveConnection(ExecAll(SetState(w, id, DisConnected), callback), id)
  }

  /** `connectEatablished`; `reading` is the answer of `enableReading`. */
  function Establish(w: World, id: Id, reading: bool, callback: seq<Call>): World
    decreases callback, 2
  {
    if id !in w.states || w.states[id] != Connecting then w
    else
      var w' := SetState(w, id, Connected);
      if reading then ExecAll(w', callback) else Close(w', id, callback)
  }

  function Accepted(w: World): World {
    var id := w.nextId;
    w.(nextId := id + 1,
       states := w.states[id := Connecting],
       byName := w.byName[ConnName(w.name, w.hostPort, id) := id])
  }

  function Exec(w: World, call: Call): World
    decreases call, 3
  {
    var callback := call.callback;
    match call.op
    case Shutdown(id) => if id in w.states && w.states[id] == Connected then SetState(w, id, Disconnecting) else w
    case ForceClose(id) =>
      if id in w.states && (w.states[id] == Connected || w.states[id] == Disconnecting)
      then Close(SetState(w, id, Disconnecting), id, callback) else w
    case Established(id, reading) => Establish(w, id, reading, callback)
    case HandleRead(id, n) => if n > 0 then ExecAll(w, callback) else Close(w, id, callback)
    case HandleWrite(id, writing, n) =>
      if !writing then w else if n > 0 then ExecAll(w, callback) else Close(w, id, callback)
    case HandleClose(id) => Close(w, id, callback)
    case NewConnection(reading) => Establish(Accepted(w), w.nextId, reading, callback)
  }

  function ExecAll(w: World, calls: seq<Call>): World
    decreases calls, 0
  {
    if calls == [] then w else ExecAll(Exec(w, calls[0]), calls[1..])
  }

  // ---------- the invariant ----------

  predicate Listed(w: World, id: Id) {
    var name := ConnName(w.name, w.hostPort, id);
    name in w.byName && w.byName[name] == id
  }

  ghost predicate Numbered(w: World) {
    1 <= w.nextId && forall id <- w.states :: 1 <= id < w.nextId
  }

  /** States and close callbacks.  `closing` are the connections in the middle of `handleClose`: already disconnected,
      their close callbacks yet to run. */
  ghost predicate Balanced(w: World, closing: set<Id>) {
    && Numbered(w)
    && (forall id <- closing :: id in w.states && w.states[id] == DisConnected)
    && (forall id <- w.states :: id in w.closeCalls <==> w.states[id] == DisConnected && id !in closing)
    && (forall id <- w.closeCalls :: id in w.states)
    && (forall i, j :: 0 <= i < j < |w.closeCalls| ==> w.closeCalls[i] != w.closeCalls[j])
  }

  /** The map holds the connections that are not disconnected, and those that are not yet taken off it. */
  ghost predicate Mapped(w: World, closing: set<Id>) {
    && (forall id <- w.states :: Listed(w, id) <==> w.states[id] != DisConnected || id in closing)
    && (forall name <- w.byName :: w.byName[name] in w.states && name == ConnName(w.name, w.hostPort, w.byName[name]))
  }

  /** A call that leads from `w` to `w'` keeps the balance, and the map as well while the names fit. */
  ghost predicate Keeps(w: World, w': World, closing: set<Id>) {
    Balanced(w', closing) && (NamesFit(w') && Mapped(w, closing) ==> Mapped(w', closing))
  }

  function Rank(s: StateE): nat {
    match s
    case Connecting => 0
    case Connected => 1
    case Disconnecting => 2
    case DisConnected => 3
  }

  /** Connections only move on through their life, and none is forgotten. */
  ghost predicate MovesOn(w: World, w': World) {
    && w'.name == w.name && w'.hostPort == w.hostPort && w.nextId <= w'.nextId
    && forall id <- w.states :: id in w'.states && Rank(w.states[id]) <= Rank(w'.states[id])
  }

  /** The name of the newest connection, and with it every name so far, fits the buffer; or there is only one. */
  predicate NamesFit(w: World) {
    w.nextId <= 2 || NameFits(w.hostPort, w.nextId - 1)
  }

  lemma OldNamesAreDistinct(w: World, i: Id, j: Id)
    requires NamesFit(w) && 1 <= i < w.nextId && 1 <= j < w.nextId
    ensures ConnName(w.name, w.hostPort, i) == ConnName(w.name, w.hostPort, j) <==> i == j
  {
    if w.nextId > 2 {
      DecimalGrows(i, w.nextId - 1);
      DecimalGrows(j, w.nextId - 1);
      NamesAreDistinct(w.name, w.hostPort, i, j);
    }
  }

  lemma EarlierNamesFit(w: World, w': World)
    requires MovesOn(w, w')
    ensures NamesFit(w') ==> NamesFit(w)
  {
    if w.nextId > 2 {
      DecimalGrows(w.nextId - 1, w'.nextId - 1);
    }
  }

  // ---------- every call moves on ----------

  lemma {:induction false} CloseMovesOn(w: World, id: Id, callback: seq<Call>)
    requires Numbered(w)
    ensures MovesOn(w, Close(w, id, callback)) && Numbered(Close(w, id, callback))
    decreases callback, 1
  {
    if id in w.states {
      ExecAllMovesOn(SetState(w, id, DisConnected), callback);
    }
  }

  lemma {:induction false} EstablishMovesOn(w: World, id: Id, reading: bool, callback: seq<Call>)
    requires Numbered(w)
    ensures MovesOn(w, Establish(w, id, reading, callback)) && Numbered(Establish(w, id, reading, callback))
    decreases callback, 2
  {
    if id in w.states && w.states[id] == Connecting {
      var w' := SetState(w, id, Connected);
      if reading { ExecAllMovesOn(w', callback); } else { CloseMovesOn(w', id, callback); }
    }
  }

  lemma {:induction false} ExecMovesOn(w: World, call: Call)
    requires Numbered(w)
    ensures MovesOn(w, Exec(w, call)) && Numbered(Exec(w, call))
    decreases call, 3
  {
    var callback := call.callback;
    match call.op
    case Shutdown(_) =>
    case ForceClose(id) =>
      if id in w.states { CloseMovesOn(SetState(w, id, Disconnecting), id, callback); }
    case Established(id, reading) => EstablishMovesOn(w, id, reading, callback);
    case HandleRead(id, n) => if n > 0 { ExecAllMovesOn(w, callback); } else { CloseMovesOn(w, id, callback); }
    case HandleWrite(id, _, n) => if n > 0 { ExecAllMovesOn(w, callback); } else { CloseMovesOn(w, id, callback); }
    case HandleClose(id) => CloseMovesOn(w, id, callback);
    case NewConnection(reading) => EstablishMovesOn(Accepted(w), w.nextId, reading, callback);
  }

  lemma {:induction false} ExecAllMovesOn(w: World, calls: seq<Call>)
    requires Numbered(w)
    ensures MovesOn(w, ExecAll(w, calls)) && Numbered(ExecAll(w, calls))
    decreases calls, 0
  {
    if calls != [] {
      ExecMovesOn(w, calls[0]);
      ExecAllMovesOn(Exec(w, calls[0]), calls[1..]);
    }
  }

  // ---------- every call keeps the map and the close callbacks straight ----------

  lemma DisconnectKeeps(w: World, id: Id, closing: set<Id>)
    requires Balanced(w, closing) && id in w.states && w.states[id] != DisConnected
    ensures var w' := SetState(w, id, DisConnected);
            Balanced(w', closing + {id}) && id !in closing && (Mapped(w, closing) ==> Mapped(w', closing + {id}))
  {
    var w' := SetState(w, id, DisConnected);
    assert forall i <- w.states :: Listed(w', i) <==> Listed(w, i);
  }

  lemma AdvanceKeeps(w: World, id: Id, s: StateE, closing: set<Id>)
    requires Balanced(w, closing) && id in w.states && w.states[id] != DisConnected && s != DisConnected
    ensures Balanced(SetState(w, id, s), closing) && (Mapped(w, closing) ==> Mapped(SetState(w, id, s), closing))
  {
    var w' := SetState(w, id, s);
    assert forall i <- w.states :: Listed(w', i) <==> Listed(w, i);
  }

  lemma RemoveKeepsBalanced(w: World, id: Id, closing: set<Id>)
    requires Balanced(w, closing + {id}) && id !in closing
    ensures Balanced(RemoveConnection(w, id), closing)
  {
    var w' := RemoveConnection(w, id);
    assert id in closing + {id};
    forall i | i in w.states ensures i in w'.closeCalls <==> i in w.closeCalls || i == id {
      assert i in w.closeCalls ==> i in w'.closeCalls;
    }
  }

  lemma RemoveKeepsMapped(w: World, id: Id, closing: set<Id>)
    requires Balanced(w, closing + {id}) && id !in closing && Mapped(w, closing + {id}) && NamesFit(w)
    ensures Mapped(RemoveConnection(w, id), closing)
  {
    var w' := RemoveConnection(w, id);
    assert id in closing + {id};
    forall i | i in w.states
      ensures Listed(w', i) <==> Listed(w, i) && i != id
    {
      OldNamesAreDistinct(w, i, id);
    }
  }

  /** `mapped` tells whether the map was right before the close. */
  lemma RemoveKeeps(w: World, id: Id, closing: set<Id>, mapped: bool)
    requires Balanced(w, closing + {id}) && id !in closing
    requires NamesFit(w) && mapped ==> Mapped(w, closing + {id})
    ensures var w' := RemoveConnection(w, id);
            Balanced(w', closing) && (NamesFit(w') && mapped ==> Mapped(w', closing))
  {
    RemoveKeepsBalanced(w, id, closing);
    if NamesFit(w) && mapped { RemoveKeepsMapped(w, id, closing); }
  }

  lemma AcceptKeepsListed(w: World, closing: set<Id>)
    requires Balanced(w, closing) && NamesFit(Accepted(w))
    ensures forall i <- w.states :: Listed(Accepted(w), i) <==> Listed(w, i)
    ensures Listed(Accepted(w), w.nextId)
  {
    var w' := Accepted(w);
    forall i | i in w.states ensures Listed(w', i) <==> Listed(w, i) {
      OldNamesAreDistinct(w', i, w.nextId);
    }
  }

  lemma AcceptKeepsMapped(w: World, closing: set<Id>)
    requires Balanced(w, closing) && Mapped(w, closing) && NamesFit(Accepted(w))
    ensures Mapped(Accepted(w), closing)
  {
    var w' := Accepted(w);
    AcceptKeepsListed(w, closing);
    assert w.nextId !in closing;
    forall name | name in w'.byName
      ensures w'.byName[name] in w'.states && name == ConnName(w.name, w.hostPort, w'.byName[name])
    {
      if w'.byName[name] != w.nextId { assert name in w.byName && w'.byName[name] == w.byName[name]; }
    }
  }

  lemma AcceptKeeps(w: World, closing: set<Id>)
    requires Balanced(w, closing)
    ensures Keeps(w, Accepted(w), closing)
  {
    assert w.nextId !in w.states && w.nextId !in closing && w.nextId !in w.closeCalls;
    if Mapped(w, closing) && NamesFit(Accepted(w)) { AcceptKeepsMapped(w, closing); }
  }

  lemma {:induction false} CloseKeeps(w: World, id: Id, callback: seq<Call>, closing: set<Id>)
    requires Balanced(w, closing)
    ensures Keeps(w, Close(w, id, callback), closing)
    decreases callback, 1
  {
    if id in w.states && w.states[id] != DisConnected {
      var w1 := SetState(w, id, DisConnected);
      var w2 := ExecAll(w1, callback);
      DisconnectKeeps(w, id, closing);
      ExecAllKeeps(w1, callback, closing + {id});
      RemoveKeeps(w2, id, closing, Mapped(w, closing));
    }
  }

  lemma {:induction false} EstablishKeeps(w: World, id: Id, reading: bool, callback: seq<Call>, closing: set<Id>)
    requires Balanced(w, closing)
    ensures Keeps(w, Establish(w, id, reading, callback), closing)
    decreases callback, 2
  {
    if id in w.states && w.states[id] == Connecting {
      var w' := SetState(w, id, Connected);
      AdvanceKeeps(w, id, Connected, closing);
      if reading { ExecAllKeeps(w', callback, closing); } else { CloseKeeps(w', id, callback, closing); }
    }
  }

  lemma {:induction false} ExecKeeps(w: World, call: Call, closing: set<Id>)
    requires Balanced(w, closing)
    ensures Keeps(w, Exec(w, call), closing)
    decreases call, 3
  {
    var callback := call.callback;
    match call.op
    case Shutdown(id) =>
      if id in w.states && w.states[id] == Connected { AdvanceKeeps(w, id, Disconnecting, closing); }
    case ForceClose(id) =>
      if id in w.states && (w.states[id] == Connected || w.states[id] == Disconnecting) {
        AdvanceKeeps(w, id, Disconnecting, closing);
        CloseKeeps(SetState(w, id, Disconnecting), id, callback, closing);
      }
    case Established(id, reading) => EstablishKeeps(w, id, reading, callback, closing);
    case HandleRead(id, n) =>
      if n > 0 { ExecAllKeeps(w, callback, closing); } else { CloseKeeps(w, id, callback, closing); }
    case HandleWrite(id, writing, n) =>
      if writing {
        if n > 0 { ExecAllKeeps(w, callback, closing); } else { CloseKeeps(w, id, callback, closing); }
      }
    case HandleClose(id) => CloseKeeps(w, id, callback, closing);
    case NewConnection(reading) =>
      EstablishMovesOn(Accepted(w), w.nextId, reading, callback);
      EarlierNamesFit(Accepted(w), Exec(w, call));
      AcceptKeeps(w, closing);
      EstablishKeeps(Accepted(w), w.nextId, reading, callback, closing);
  }

  lemma {:induction false} ExecAllKeeps(w: World, calls: seq<Call>, closing: set<Id>)
    requires Balanced(w, closing)
    ensures Keeps(w, ExecAll(w, calls), closing) && MovesOn(w, ExecAll(w, calls))
    decreases calls, 0
  {
    ExecAllMovesOn(w, calls);
    if calls != [] {
      var w' := Exec(w, calls[0]);
      ExecMovesOn(w, calls[0]);
      ExecAllMovesOn(w', calls[1..]);
      EarlierNamesFit(w', ExecAll(w, calls));
      ExecKeeps(w, calls[0], closing);
      ExecAllKeeps(w', calls[1..], closing);
    }
  }

  // ---------- whole runs ----------

  function Started(name: string, hostPort: string): World {
    World(name, hostPort, map[], map[], 1, [])
  }

  /** After any calls, with any re-entrant calls from the callbacks, the close callback of every connection has run
      exactly once if it is disconnected, and not at all otherwise. */
  lemma ClosesOnce(name: string, hostPort: string, calls: seq<Call>, id: Id)
    ensures var w := ExecAll(Started(name, hostPort), calls);
            multiset(w.closeCalls)[id] == if id in w.states && w.states[id] == DisConnected then 1 else 0
  {
    var w := ExecAll(Started(name, hostPort), calls);
    assert Balanced(Started(name, hostPort), {});
    ExecAllKeeps(Started(name, hostPort), calls, {});
    OnceInDistinct(w.closeCalls, id);
  }

  /** After any calls, with any re-entrant calls from the callbacks, a connection is disconnected if and only if its
      close callback has run, exactly once; and, as long as the names fit the buffer, if and only if it is off the map,
      which holds nothing else. */
  lemma MapHoldsTheLiving(name: string, hostPort: string, calls: seq<Call>, id: Id)
    requires id in ExecAll(Started(name, hostPort), calls).states
    ensures var w := ExecAll(Started(name, hostPort), calls);
            && (w.states[id] == DisConnected <==> multiset(w.closeCalls)[id] == 1)
            && multiset(w.closeCalls)[id] <= 1
            && (NamesFit(w) ==>
                  && (Listed(w, id) <==> w.states[id] != DisConnected)
                  && forall key <- w.byName ::
                       w.byName[key] in w.states && key == ConnName(name, hostPort, w.byName[key]))
  {
    ClosesOnce(name, hostPort, calls, id);
    assert Balanced(Started(name, hostPort), {}) && Mapped(Started(name, hostPort), {});
    ExecAllKeeps(Started(name, hostPort), calls, {});
  }

  lemma {:induction false} OnceInDistinct(ids: seq<Id>, id: Id)
    requires forall i, j :: 0 <= i < j < |ids| ==> ids[i] != ids[j]
    ensures multiset(ids)[id] == if id in ids then 1 else 0
    decreases |ids|
  {
    if ids != [] {
      assert ids == [ids[0]] + ids[1..];
      OnceInDistinct(ids[1..], id);
    }
  }

  /** Once disconnected, always disconnected. */
  lemma DisconnectedIsFinal(w: World, calls: seq<Call>, id: Id)
    requires Numbered(w) && id in w.states && w.states[id] == DisConnected
    ensures var w' := ExecAll(w, calls); id in w'.states && w'.states[id] == DisConnected
  {
    ExecAllMovesOn(w, calls);
  }

  /** `forceClose` disconnects a connection that is connected or on its way out, whatever the callbacks do, and does
      nothing at all to one that is still connecting. */
  lemma ForceCloseOutcome(w: World, id: Id, callback: seq<Call>)
    requires Numbered(w) && id in w.states
    ensures var w' := Exec(w, Call(ForceClose(id), callback));
            if w.states[id] == Connecting then w' == w else id in w'.states && w'.states[id] == DisConnected
  {
    if w.states[id] == Connected || w.states[id] == Disconnecting {
      var w1 := SetState(w, id, Disconnecting);
      ExecAllMovesOn(SetState(w1, id, DisConnected), callback);
    }
  }

  // ---------- what each handler does ----------

  /** Whether the handler gets as far as the user callback. */
  predicate Invokes(w: World, op: Op) {
    match op
    case Shutdown(_) => false
    case ForceClose(id) => id in w.states && (w.states[id] == Connected || w.states[id] == Disconnecting)
    case Established(id, _) => id in w.states && w.states[id] == Connecting
    case HandleRead(id, n) => n > 0 || (id in w.states && w.states[id] != DisConnected)
    case HandleWrite(id, writing, n) => writing && (n > 0 || (id in w.states && w.states[id] != DisConnected))
    case HandleClose(id) => id in w.states && w.states[id] != DisConnected
    case NewConnection(_) => true
  }

  /** A handler that is not for the connection `other`, or does not change its state. */
  predicate SparesOther(op: Op, other: Id) {
    op.NewConnection? || op.id != other || (op.HandleRead? && op.n > 0) || (op.HandleWrite? && op.n > 0)
  }

  lemma ForceClosedBy(w: World, other: Id, callback: seq<Call>)
    requires Numbered(w) && other in w.states && w.states[other] == Connected
    ensures var w' := ExecAll(w, [Call(ForceClose(other), callback)]);
            other in w'.states && w'.states[other] == DisConnected
  {
    ForceCloseOutcome(w, other, callback);
    assert [Call(ForceClose(other), callback)][1..] == [];
  }

  lemma CallbackOfCloseRuns(w: World, id: Id, other: Id, callback: seq<Call>)
    requires Numbered(w) && id in w.states && w.states[id] != DisConnected
    requires other in w.states && w.states[other] == Connected && other != id
    ensures var w' := Close(w, id, [Call(ForceClose(other), callback)]);
            other in w'.states && w'.states[other] == DisConnected
  {
    ForceClosedBy(SetState(w, id, DisConnected), other, callback);
  }

  lemma CallbackOfEstablishRuns(w: World, id: Id, reading: bool, other: Id, callback: seq<Call>)
    requires Numbered(w) && id in w.states && w.states[id] == Connecting
    requires other in w.states && w.states[other] == Connected && other != id
    ensures var w' := Establish(w, id, reading, [Call(ForceClose(other), callback)]);
            other in w'.states && w'.states[other] == DisConnected
  {
    var w1 := SetState(w, id, Connected);
    if reading { ForceClosedBy(w1, other, callback); } else { CallbackOfCloseRuns(w1, id, other, callback); }
  }

  /** The user callback of a handler runs, and what it calls happens: a connection that it closes is closed. */
  lemma CallbackRuns(w: World, op: Op, other: Id, callback: seq<Call>)
    requires Numbered(w) && Invokes(w, op) && SparesOther(op, other)
    requires other in w.states && w.states[other] == Connected
    ensures var w' := Exec(w, Call(op, [Call(ForceClose(other), callback)]));
            other in w'.states && w'.states[other] == DisConnected
  {
    match op
    case ForceClose(id) => CallbackOfCloseRuns(SetState(w, id, Disconnecting), id, other, callback);
    case Established(id, reading) => CallbackOfEstablishRuns(w, id, reading, other, callback);
    case HandleRead(id, n) =>
      if n > 0 { ForceClosedBy(w, other, callback); } else { CallbackOfCloseRuns(w, id, other, callback); }
    case HandleWrite(id, _, n) =>
      if n > 0 { ForceClosedBy(w, other, callback); } else { CallbackOfCloseRuns(w, id, other, callback); }
    case HandleClose(id) => CallbackOfCloseRuns(w, id, other, callback);
    case NewConnection(reading) => CallbackOfEstablishRuns(Accepted(w), w.nextId, reading, other, callback);
  }

  /** A handler that does not invoke the user callback does nothing at all, except for the new state of a shutdown. */
  lemma NothingWithoutCallback(w: World, op: Op, callback: seq<Call>)
    requires !Invokes(w, op)
    ensures var w' := Exec(w, Call(op, callback));
            if op.Shutdown? && op.id in w.states && w.states[op.id] == Connected
            then w' == w.(states := w.states[op.id := Disconnecting])
            else w' == w
  {}

  /** A close callback runs after the user callback, and so after the close callbacks of what that one closes. */
  lemma ClosesInside(w: World, id: Id, other: Id)
    requires id in w.states && w.states[id] != DisConnected
    requires other in w.states && w.states[other] == Connected && other != id
    ensures Exec(w, Call(HandleClose(id), [Call(ForceClose(other), [])])).closeCalls == w.closeCalls + [other, id]
  {
    var inner := Call(ForceClose(other), []);
    var w1 := SetState(w, id, DisConnected);
    var w2 := SetState(SetState(w1, other, Disconnecting), other, DisConnected);
    assert [inner][1..] == [] && Exec(w1, inner) == RemoveConnection(w2, other);
    assert ExecAll(w1, [inner]) == RemoveConnection(w2, other);
  }

  lemma CloseDisconnects(w: World, id: Id, callback: seq<Call>)
    requires Numbered(w) && id in w.states
    ensures var w' := Close(w, id, callback); id in w'.states && w'.states[id] == DisConnected
  {
    ExecAllMovesOn(SetState(w, id, DisConnected), callback);
  }

  /** The calls that end a connection: the end of file or an error on reading, an error on writing, a hang-up, and an
      `enableReading` that fails. */
  predicate Ends(w: World, op: Op, id: Id)
    requires id in w.states
  {
    match op
    case HandleRead(i, n) => i == id && n <= 0
    case HandleWrite(i, writing, n) => i == id && writing && n <= 0
    case HandleClose(i) => i == id
    case Established(i, reading) => i == id && !reading && w.states[id] == Connecting
    case _ => false
  }

  /** They disconnect it, whatever the callbacks do. */
  lemma EndingDisconnects(w: World, id: Id, op: Op, callback: seq<Call>)
    requires Numbered(w) && id in w.states && Ends(w, op, id)
    ensures var w' := Exec(w, Call(op, callback)); id in w'.states && w'.states[id] == DisConnected
  {
    CloseDisconnects(w, id, callback);
    CloseDisconnects(SetState(w, id, Connected), id, callback);
    if op.Established? {
      assert Exec(w, Call(op, callback)) == Establish(w, id, false, callback);
    }
  }

  lemma AcceptReading(w: World)
    requires Numbered(w)
    ensures var id, name := w.nextId, ConnName(w.name, w.hostPort, w.nextId);
            Exec(w, ACCEPT)
            == w.(nextId := id + 1, states := w.states[id := Connected], byName := w.byName[name := id])
  {
    AcceptedAndEstablished(w);
    var id := w.nextId;
    assert SetState(Accepted(w), id, Connected).states == w.states[id := Connected];
  }

  lemma CloseWithoutCallback(w: World, id: Id)
    requires id in w.states && w.states[id] != DisConnected
    ensures Close(w, id, []) == RemoveConnection(SetState(w, id, DisConnected), id)
  {
    assert ExecAll(SetState(w, id, DisConnected), []) == SetState(w, id, DisConnected);
  }

  lemma AcceptedThenClosed(w: World, id: Id, name: string)
    requires id == w.nextId && name == ConnName(w.name, w.hostPort, id)
    ensures RemoveConnection(SetState(SetState(Accepted(w), id, Connected), id, DisConnected), id)
            == w.(nextId := id + 1, states := w.states[id := DisConnected], byName := w.byName - {name},
                  closeCalls := w.closeCalls + [id])
  {
    assert w.states[id := Connecting][id := Connected][id := DisConnected] == w.states[id := DisConnected];
    assert w.byName[name := id] - {name} == w.byName - {name};
  }

  lemma AcceptIsClosed(w: World, id: Id)
    requires id == w.nextId
    ensures Exec(w, Call(NewConnection(false), [])) == Close(SetState(Accepted(w), id, Connected), id, [])
  {
    assert Exec(w, Call(NewConnection(false), [])) == Establish(Accepted(w), id, false, []);
  }

  lemma AcceptNotReading(w: World)
    ensures var id, name := w.nextId, ConnName(w.name, w.hostPort, w.nextId);
            Exec(w, Call(NewConnection(false), []))
            == w.(nextId := id + 1, states := w.states[id := DisConnected], byName := w.byName - {name},
                  closeCalls := w.closeCalls + [id])
  {
    var id := w.nextId;
    AcceptIsClosed(w, id);
    CloseWithoutCallback(SetState(Accepted(w), id, Connected), id);
    AcceptedThenClosed(w, id, ConnName(w.name, w.hostPort, id));
  }

  /** A new connection gets the next number and its place in the map; it is connected, or, if reading cannot be enabled,
      closed at once. */
  lemma AcceptOutcome(w: World, reading: bool)
    requires Numbered(w)
    ensures var id, name := w.nextId, ConnName(w.name, w.hostPort, w.nextId);
            Exec(w, Call(NewConnection(reading), []))
            == if reading
               then w.(nextId := id + 1, states := w.states[id := Connected], byName := w.byName[name := id])
               else w.(nextId := id + 1, states := w.states[id := DisConnected], byName := w.byName - {name},
                       closeCalls := w.closeCalls + [id])
  {
    if reading { AcceptReading(w); } else { AcceptNotReading(w); }
  }

  /** The name of a connection, as long as it fits. */
  lemma NameLayout(name: string)
    ensures ConnName(name, "IP:1,Port=2", 1073) == name + ":IP:1,Port=2#1073"
  {
    assert Decimal(1) == "1" && Decimal(10) == "10" && Decimal(107) == "107" && Decimal(1073) == "1073";
  }

  // ---------- names that do not fit ----------

  /** A name that fills the buffer is the name of every connection whose number continues its own. */
  lemma CutNamesCollide(name: string, hostPort: string, i: Id, j: Id)
    requires 1 <= i == j / 10 && 29 <= |hostPort| + |Decimal(i)|
    ensures ConnName(name, hostPort, i) == ConnName(name, hostPort, j)
  {
    var s := ":" + hostPort + "#" + Decimal(i);
    assert Decimal(j) == Decimal(i) + [Digit(j % 10)];
    assert ":" + hostPort + "#" + Decimal(j) == s + [Digit(j % 10)];
  }

  /** Some number up to `n` has exactly `digits` digits. */
  lemma {:induction false} NumberWith(digits: nat, n: nat) returns (j: nat)
    requires 1 <= digits <= |Decimal(n)|
    ensures j <= n && |Decimal(j)| == digits
    decreases n
  {
    j := n;
    if digits < |Decimal(n)| {
      j := NumberWith(digits, n / 10);
    }
  }

  lemma FirstCollision(name: string, hostPort: string, n: Id) returns (i: Id, j: Id)
    requires 1 < n && !NameFits(hostPort, n)
    ensures 1 <= i < j <= n && ConnName(name, hostPort, i) == ConnName(name, hostPort, j)
  {
    if 29 <= |hostPort| {
      i, j := 1, 2;
      var head := ":" + hostPort + "#";
      assert NameSuffix(hostPort, 1) == head[..31] == NameSuffix(hostPort, 2);
    } else {
      j := NumberWith(30 - |hostPort|, n);
      i := j / 10;
      CutNamesCollide(name, hostPort, i, j);
    }
  }

  /** The first `n` connections of a server have different names if and only if the last of these names fits, or there
      is only one. */
  lemma NamesDistinctIff(name: string, hostPort: string, n: Id)
    ensures (forall i, j :: 1 <= i < j <= n ==> ConnName(name, hostPort, i) != ConnName(name, hostPort, j))
            <==> n <= 1 || NameFits(hostPort, n)
  {
    if NameFits(hostPort, n) {
      forall i, j | 1 <= i < j <= n ensures ConnName(name, hostPort, i) != ConnName(name, hostPort, j) {
        DecimalGrows(i, n);
        DecimalGrows(j, n);
        NamesAreDistinct(name, hostPort, i, j);
      }
    } else if 1 < n {
      var i, j := FirstCollision(name, hostPort, n);
    }
  }

  const ACCEPT := Call(NewConnection(true), [])

  /** `n` connections, one after the other, and nothing else. */
  function Accepts(n: nat): (calls: seq<Call>)
    ensures |calls| == n
  {
    seq(n, _ => ACCEPT)
  }

  lemma {:induction false} ExecAllSnoc(w: World, calls: seq<Call>, call: Call)
    ensures ExecAll(w, calls + [call]) == Exec(ExecAll(w, calls), call)
    decreases |calls|
  {
    if calls == [] {
      assert [] + [call] == [call] && [call][1..] == [];
    } else {
      assert (calls + [call])[1..] == calls[1..] + [call];
      ExecAllSnoc(Exec(w, calls[0]), calls[1..], call);
    }
  }

  lemma AcceptedAndEstablished(w: World)
    ensures Exec(w, ACCEPT) == SetState(Accepted(w), w.nextId, Connected)
  {
    var id := w.nextId;
    var w' := Accepted(w);
    assert id in w'.states && w'.states[id] == Connecting;
    assert ExecAll(SetState(w', id, Connected), []) == SetState(w', id, Connected);
  }

  ghost predicate OnlyAccepted(w: World, n: nat) {
    w.nextId == n + 1 && forall id :: 1 <= id <= n ==> id in w.states && w.states[id] == Connected
  }

  lemma AcceptsOneMore(w: World, n: nat)
    requires OnlyAccepted(w, n)
    ensures var w' := Exec(w, ACCEPT);
            w'.name == w.name && w'.hostPort == w.hostPort && OnlyAccepted(w', n + 1) && Listed(w', n + 1)
  {
    AcceptedAndEstablished(w);
  }

  lemma {:induction false} AllAccepted(name: string, hostPort: string, n: nat)
    ensures var w := ExecAll(Started(name, hostPort), Accepts(n));
            w.name == name && w.hostPort == hostPort && OnlyAccepted(w, n) && (n > 0 ==> Listed(w, n))
  {
    if n > 0 {
      AllAccepted(name, hostPort, n - 1);
      assert Accepts(n) == Accepts(n - 1) + [ACCEPT];
      ExecAllSnoc(Started(name, hostPort), Accepts(n - 1), ACCEPT);
      AcceptsOneMore(ExecAll(Started(name, hostPort), Accepts(n - 1)), n - 1);
    }
  }

  /** A connection with the name of an earlier one takes its place in the map, although that one is still connected. */
  lemma CollisionLosesConnection(name: string, hostPort: string, i: Id, j: Id)
    requires 1 <= i < j && ConnName(name, hostPort, i) == ConnName(name, hostPort, j)
    ensures var w := ExecAll(Started(name, hostPort), Accepts(j));
            i in w.states && w.states[i] == Connected && !Listed(w, i)
  {
    AllAccepted(name, hostPort, j);
  }

  /** The map holds a connection if and only if it is not disconnected. */
  ghost predicate MapIsRight(w: World) {
    forall id <- w.states :: Listed(w, id) <==> w.states[id] != DisConnected
  }

  /** The map of a server is right after every run of up to `n` connections, whatever is called and called back, if and
      only if the name of connection `n` fits the buffer, or there is only one. */
  lemma MapIsRightIff(name: string, hostPort: string, n: Id)
    ensures (forall calls :: ExecAll(Started(name, hostPort), calls).nextId <= n + 1 ==>
                               MapIsRight(ExecAll(Started(name, hostPort), calls)))
            <==> n <= 1 || NameFits(hostPort, n)
  {
    if n <= 1 || NameFits(hostPort, n) {
      forall calls | ExecAll(Started(name, hostPort), calls).nextId <= n + 1
        ensures MapIsRight(ExecAll(Started(name, hostPort), calls))
      {
        MapIsRightWhileNamesFit(name, hostPort, calls, n);
      }
    } else {
      var i, j := FirstCollision(name, hostPort, n);
      CollisionLosesConnection(name, hostPort, i, j);
      AllAccepted(name, hostPort, j);
      assert !MapIsRight(ExecAll(Started(name, hostPort), Accepts(j)));
    }
  }

  lemma MapIsRightWhileNamesFit(name: string, hostPort: string, calls: seq<Call>, n: Id)
    requires n <= 1 || NameFits(hostPort, n)
    requires ExecAll(Started(name, hostPort), calls).nextId <= n + 1
    ensures MapIsRight(ExecAll(Started(name, hostPort), calls))
  {
    var w := ExecAll(Started(name, hostPort), calls);
    ExecAllMovesOn(Started(name, hostPort), calls);
    if w.nextId > 2 { DecimalGrows(w.nextId - 1, n); }
    forall id | id in w.states ensures Listed(w, id) <==> w.states[id] != DisConnected {
      MapHoldsTheLiving(name, hostPort, calls, id);
    }
  }

  /** The longest host strings, such as "IP:-1778276160,Port=10000", leave room for four digits: connection 10000 gets
      the name of connection 1000, which is still connected, and takes its place. */
  lemma TenThousandthLosesConnection(name: string, hostPort: string)
    requires |hostPort| == |"IP:-1778276160,Port=10000"|
    ensures ConnName(name, hostPort, 1000) == ConnName(name, hostPort, 10000)
    ensures var before, after := ExecAll(Started(name, hostPort), Accepts(9999)),
                                 ExecAll(Started(name, hostPort), Accepts(10000));
            && 1000 in before.states && before.states[1000] == Connected && Listed(before, 1000)
            && 1000 in after.states && after.states[1000] == Connected && !Listed(after, 1000)
  {
    assert |Decimal(10)| == 2 && |Decimal(100)| == 3 && |Decimal(1000)| == 4;
    assert |Decimal(99)| == 2 && |Decimal(999)| == 3 && |Decimal(9999)| == 4;
    AllAccepted(name, hostPort, 9999);
    MapIsRightWhileNamesFit(name, hostPort, Accepts(9999), 9999);
    CutNamesCollide(name, hostPort, 1000, 10000);
    CollisionLosesConnection(name, hostPort, 1000, 10000);
  }

  // ---------- the object ----------

  /** A server and its connections; a connection's own `m_state` is `states[id]`. */
  class TcpServer {
    const name: string
    const hostPort: string
    var states: map<Id, StateE>
    var connections: map<string, Id>
    var nextConnId: Id
    var closeCalls: seq<Id>

    function View(): World
      reads this
    {
      World(name, hostPort, states, connections, nextConnId, closeCalls)
    }

    constructor (name: string, hostPort: string)
      ensures View() == Started(name, hostPort)
    {
      this.name, this.hostPort := name, hostPort;
      states, connections, nextConnId, closeCalls := map[], map[], 1, [];
    }

    /** A user callback, which makes the calls `callback`. */
    method Invoke(callback: seq<Call>)
      modifies this
      ensures View() == ExecAll(old(View()), callback)
      decreases callback, 0
    {
      if callback != [] {
        Handle(callback[0]);
        Invoke(callback[1..]);
      }
    }

    method Handle(call: Call)
      modifies this
      ensures View() == Exec(old(View()), call)
      decreases call, 4
    {
      match call.op
      case Shutdown(id) => ShutdownConnection(id);
      case ForceClose(id) => ForceCloseConnection(id, call.callback);
      case Established(id, reading) => ConnectEstablished(id, reading, call.callback);
      case HandleRead(id, n) => Read(id, n, call.callback);
      case HandleWrite(id, writing, n) => WriteOut(id, writing, n, call.callback);
      case HandleClose(id) => CloseConnection(id, call.callback);
      case NewConnection(reading) => Accept(reading, call.callback);
    }

    method ShutdownConnection(id: Id)
      modifies this`states
      ensures View() == Exec(old(View()), Call(Shutdown(id), []))
    {
      if id in states && states[id] == Connected {
        states := states[id := Disconnecting];
      }
    }

    method ForceCloseConnection(id: Id, callback: seq<Call>)
      modifies this
      ensures View() == Exec(old(View()), Call(ForceClose(id), callback))
      decreases callback, 2
    {
      if id in states && (states[id] == Connected || states[id] == Disconnecting) {
        states := states[id := Disconnecting];
        CloseConnection(id, callback);
      }
    }

    method CloseConnection(id: Id, callback: seq<Call>)
      modifies this
      ensures View() == Close(old(View()), id, callback)
      decreases callback, 1
    {
      if id !in states || states[id] == DisConnected {
        return;
      }
      states := states[id := DisConnected];
      Invoke(callback);
      RemoveConnectionInLoop(id);
    }

    method RemoveConnectionInLoop(id: Id)
      modifies this`connections, this`closeCalls
      ensures View() == RemoveConnection(old(View()), id)
    {
      closeCalls := closeCalls + [id];
      connections := connections - {ConnName(name, hostPort, id)};
    }

    method ConnectEstablished(id: Id, reading: bool, callback: seq<Call>)
      modifies this
      ensures View() == Establish(old(View()), id, reading, callback)
      decreases callback, 2
    {
      if id !in states || states[id] != Connecting {
        return;
      }
      states := states[id := Connected];
      if !reading {
        CloseConnection(id, callback);
        return;
      }
      Invoke(callback);
    }

    method Read(id: Id, n: int, callback: seq<Call>)
      modifies this
      ensures View() == Exec(old(View()), Call(HandleRead(id, n), callback))
      decreases callback, 3
    {
      if n > 0 {
        Invoke(callback);
      } else {
        CloseConnection(id, callback);
      }
    }

    method WriteOut(id: Id, writing: bool, n: int, callback: seq<Call>)
      modifies this
      ensures View() == Exec(old(View()), Call(HandleWrite(id, writing, n), callback))
      decreases callback, 3
    {
      if writing {
        if n > 0 {
          Invoke(callback);
        } else {
          CloseConnection(id, callback);
        }
      }
    }

    method Accept(reading: bool, callback: seq<Call>)
      modifies this
      ensures View() == Exec(old(View()), Call(NewConnection(reading), callback))
      decreases callback, 3
    {
      var id := nextConnId;
      nextConnId := nextConnId + 1;
      states := states[id := Connecting];
      connections := connections[ConnName(name, hostPort, id) := id];
      ConnectEstablished(id, reading, callback);
    }
  }
}
