/**
  The epoll registration machine (Net/KaPoller.cpp, Net/KaChannel.cpp).

  A channel's `m_index` says where it stands with its poller; the poller has a map from descriptors to channels; the
  kernel has an interest set.  `Registry` is all three, and the kernel is modelled by its presence rules:
  `EPOLL_CTL_ADD` fails for a descriptor that is in the set, `MOD` and `DEL` for one that is not.  `Consistent` is what
  every call keeps for any number of channels.

  Channels start with the index that the constructor gives them.  Net/KaChannel.cpp:22 makes that `KAdded`; the states
  of Net/KaPoller.h:15-18 call for `KNew`.  `RegistersIff` says what difference it makes.
 */
module Pollers {
  import opened Bytes

  datatype Index = KNew | KAdded | KDeleted

  const NONE_EVENT: bv8 := 0
  const READ_EVENT: bv8 := 3   // EPOLLIN | EPOLLPRI
  const WRITE_EVENT: bv8 := 4  // EPOLLOUT

  type ChannelId = nat

  datatype Channel = Channel(fd: int, events: bv8, index: Index)

  /** An entry of the kernel's interest set: the mask and the channel it reports events to (`event.data.ptr`). */
  datatype Interest = Interest(mask: bv8, channel: ChannelId)

  datatype Registry = Registry(channels: map<ChannelId, Channel>, byFd: map<int, ChannelId>, kernel: map<int, Interest>)

  datatype Operation = CtlAdd | CtlMod | CtlDel

  /** `epoll_ctl`; the flag is false when the call fails. */
  function EpollCtl(kernel: map<int, Interest>, op: Operation, fd: int, e: Interest): (map<int, Interest>, bool) {
    match op
    case CtlAdd => if fd in kernel then (kernel, false) else (kernel[fd := e], true)
    case CtlMod => if fd in kernel then (kernel[fd := e], true) else (kernel, false)
    case CtlDel => if fd in kernel then (kernel - {fd}, true) else (kernel, false)
  }

  function Control(r: Registry, op: Operation, c: ChannelId): (Registry, bool)
    requires c in r.channels
  {
    var ch := r.channels[c];
    var (kernel, ok) := EpollCtl(r.kernel, op, ch.fd, Interest(ch.events, c));
    (r.(kernel := kernel), ok)
  }

  function SetIndex(r: Registry, c: ChannelId, index: Index): Registry
    requires c in r.channels
  {
    r.(channels := r.channels[c := r.channels[c].(index := index)])
  }

  /** `updateChannel`. */
  function Update(r: Registry, c: ChannelId): (Registry, bool)
    requires c in r.channels
  {
    var ch := r.channels[c];
    var fd := ch.fd;
    match ch.index
    case KNew =>
      if fd in r.byFd then (r, false)
      else Control(SetIndex(r.(byFd := r.byFd[fd := c]), c, KAdded), CtlAdd, c)
    case KDeleted =>
      if fd !in r.byFd || r.byFd[fd] != c then (r, false)
      else Control(SetIndex(r, c, KAdded), CtlAdd, c)
    case KAdded =>
      if fd !in r.byFd || r.byFd[fd] != c then (r, false)
      else if ch.events == NONE_EVENT then
        var (r', ok) := Control(r, CtlDel, c);
        if ok then (SetIndex(r', c, KDeleted), true) else (r', false)
      else Control(r, CtlMod, c)
  }

  /** `removeChannel`. */
  function Remove(r: Registry, c: ChannelId): Registry
    requires c in r.channels
  {
    var ch := r.channels[c];
    var fd := ch.fd;
    if fd !in r.byFd || r.byFd[fd] != c || ch.events != NONE_EVENT || ch.index == KNew then r
    else
      var r' := r.(byFd := r.byFd - {fd});
      SetIndex(if ch.index == KAdded then Control(r', CtlDel, c).0 else r', c, KNew)
  }

  /** The `enable*` and `disable*` calls, which change the mask and then update. */
  datatype Change = EnableReading | DisableReading | EnableWriting | DisableWriting | DisableAll

  function NewMask(mask: bv8, change: Change): bv8 {
    match change
    case EnableReading => mask | READ_EVENT
    case DisableReading => mask & !READ_EVENT
    case EnableWriting => mask | WRITE_EVENT
    case DisableWriting => mask & !WRITE_EVENT
    case DisableAll => NONE_EVENT
  }

  /** A change sets or clears its own events, EPOLLIN (1) and EPOLLPRI (2) or EPOLLOUT (4), and leaves every other event
      alone; disabling everything clears them all. */
  lemma ChangeIsLocal(mask: bv8, change: Change)
    ensures var mask' := NewMask(mask, change);
            match change
            case EnableReading => mask' & 3 == 3 && mask' & !3 == mask & !3
            case DisableReading => mask' & 3 == 0 && mask' & !3 == mask & !3
            case EnableWriting => mask' & 4 == 4 && mask' & !4 == mask & !4
            case DisableWriting => mask' & 4 == 0 && mask' & !4 == mask & !4
            case DisableAll => mask' == 0
  {}

  function SetMask(r: Registry, c: ChannelId, mask: bv8): Registry
    requires c in r.channels
  {
    r.(channels := r.channels[c := r.channels[c].(events := mask)])
  }

  function Changed(r: Registry, c: ChannelId, change: Change): (Registry, bool)
    requires c in r.channels
  {
    Update(SetMask(r, c, NewMask(r.channels[c].events, change)), c)
  }

  // ---------- the invariant ----------

  /** Where a channel stands: unknown to the poller; known to the poller only; known to the poller and registered with
      the kernel under its own mask. */
  ghost predicate ChannelConsistent(r: Registry, c: ChannelId)
    requires c in r.channels
  {
    var ch := r.channels[c];
    var mapped := ch.fd in r.byFd && r.byFd[ch.fd] == c;
    match ch.index
    case KNew => !mapped
    case KDeleted => mapped && ch.fd !in r.kernel
    case KAdded => mapped && ch.fd in r.kernel && r.kernel[ch.fd] == Interest(ch.events, c)
  }

  /** The map holds known channels under their descriptors, and the kernel knows only what the poller does. */
  ghost predicate Consistent(r: Registry) {
    && (forall c <- r.channels :: ChannelConsistent(r, c))
    && (forall fd <- r.byFd :: r.byFd[fd] in r.channels && r.channels[r.byFd[fd]].fd == fd)
    && (forall fd <- r.kernel :: fd in r.byFd)
  }

  datatype Call = Adjust(c: ChannelId, change: Change) | RemoveCall(c: ChannelId) | Create(c: ChannelId, fd: int)

  predicate Allowed(r: Registry, call: Call) {
    if call.Create? then call.c !in r.channels else call.c in r.channels
  }

  function Apply(r: Registry, call: Call, first: Index): Registry
    requires Allowed(r, call)
  {
    match call
    case Adjust(c, change) => Changed(r, c, change).0
    case RemoveCall(c) => Remove(r, c)
    case Create(c, fd) => r.(channels := r.channels[c := Channel(fd, NONE_EVENT, first)])
  }

  lemma UpdateKeepsConsistent(r: Registry, c: ChannelId, mask: bv8)
    requires Consistent(r) && c in r.channels
    ensures Consistent(Update(SetMask(r, c, mask), c).0)
  {
    var r1 := SetMask(r, c, mask);
    var r2 := Update(r1, c).0;
    assert ChannelConsistent(r, c);
    forall d | d in r2.channels ensures ChannelConsistent(r2, d) {
      assert ChannelConsistent(r, d);
    }
  }

  lemma RemoveKeepsConsistent(r: Registry, c: ChannelId)
    requires Consistent(r) && c in r.channels
    ensures Consistent(Remove(r, c))
  {
    var r2 := Remove(r, c);
    assert ChannelConsistent(r, c);
    forall d | d in r2.channels ensures ChannelConsistent(r2, d) {
      assert ChannelConsistent(r, d);
    }
  }

  lemma CallKeepsConsistent(r: Registry, call: Call)
    requires Consistent(r) && Allowed(r, call)
    ensures Consistent(Apply(r, call, KNew))
  {
    match call
    case Adjust(c, change) => UpdateKeepsConsistent(r, c, NewMask(r.channels[c].events, change));
    case RemoveCall(c) => RemoveKeepsConsistent(r, c);
    case Create(c, fd) =>
      var r2 := Apply(r, call, KNew);
      forall d | d in r2.channels ensures ChannelConsistent(r2, d) {
        if d != c { assert ChannelConsistent(r, d); }
        else if fd in r.byFd { assert r.byFd[fd] in r.channels; }
      }
  }

  // ---------- whole runs ----------

  ghost predicate Runs(r: Registry, calls: seq<Call>, first: Index)
    decreases |calls|
  {
    calls == [] || (Allowed(r, calls[0]) && Runs(Apply(r, calls[0], first), calls[1..], first))
  }

  ghost function After(r: Registry, calls: seq<Call>, first: Index): Registry
    requires Runs(r, calls, first)
    decreases |calls|
  {
    if calls == [] then r else After(Apply(r, calls[0], first), calls[1..], first)
  }

  const NOTHING := Registry(map[], map[], map[])

  lemma {:induction false} RunKeepsConsistent(r: Registry, calls: seq<Call>)
    requires Consistent(r) && Runs(r, calls, KNew)
    ensures Consistent(After(r, calls, KNew))
    decreases |calls|
  {
    if calls != [] {
      CallKeepsConsistent(r, calls[0]);
      RunKeepsConsistent(Apply(r, calls[0], KNew), calls[1..]);
    }
  }

  /** The operation that an update of `c` asks of the kernel, if it gets that far. */
  function OperationOf(r: Registry, c: ChannelId): Option<Operation>
    requires c in r.channels
  {
    var ch := r.channels[c];
    var mapped := ch.fd in r.byFd && r.byFd[ch.fd] == c;
    match ch.index
    case KNew => if ch.fd in r.byFd then None else Some(CtlAdd)
    case KDeleted => if mapped then Some(CtlAdd) else None
    case KAdded => if !mapped then None else if ch.events == NONE_EVENT then Some(CtlDel) else Some(CtlMod)
  }

  /** The kernel grants the operation that an update asks for. */
  ghost predicate Granted(r: Registry, c: ChannelId)
    requires c in r.channels
  {
    match OperationOf(r, c)
    case Some(CtlAdd) => r.channels[c].fd !in r.kernel
    case Some(_) => r.channels[c].fd in r.kernel
    case None => true
  }

  lemma ConsistentIsGranted(r: Registry, c: ChannelId, mask: bv8)
    requires Consistent(r) && c in r.channels
    ensures var r' := SetMask(r, c, mask);
            Granted(r', c) && (Update(r', c).1 <==> !(r.channels[c].index.KNew? && r.channels[c].fd in r.byFd))
  {
    assert ChannelConsistent(r, c);
  }

  /** The operation that a removal of `c` asks of the kernel. */
  function RemovalOf(r: Registry, c: ChannelId): Option<Operation>
    requires c in r.channels
  {
    var ch := r.channels[c];
    var mapped := ch.fd in r.byFd && r.byFd[ch.fd] == c;
    if mapped && ch.events == NONE_EVENT && ch.index == KAdded then Some(CtlDel) else None
  }

  /** After any calls on any set of channels that start at `KNew`, the poller never meets a refusing kernel: every `ADD`
      of an update is for an absent descriptor, and every `MOD` or `DEL`, the `DEL` of a removal included, for a present
      one.  An update fails only for a new channel whose descriptor another channel occupies, and a removed channel
      is gone from the kernel. */
  lemma KernelNeverRefuses(calls: seq<Call>, c: ChannelId, change: Change)
    requires Runs(NOTHING, calls, KNew) && c in After(NOTHING, calls, KNew).channels
    ensures var r := After(NOTHING, calls, KNew);
            var ch := r.channels[c];
            && Granted(SetMask(r, c, NewMask(ch.events, change)), c)
            && (Changed(r, c, change).1 <==> !(ch.index.KNew? && ch.fd in r.byFd))
            && (ch.index == KAdded ==> ch.fd in r.kernel)
            && (RemovalOf(r, c).Some? <==> ch.index == KAdded && ch.events == NONE_EVENT)
            && (RemovalOf(r, c).Some? ==> ch.fd !in Remove(r, c).kernel)
            && (RemovalOf(r, c).None? ==> Remove(r, c).kernel == r.kernel)
  {
    RunKeepsConsistent(NOTHING, calls);
    var r := After(NOTHING, calls, KNew);
    ConsistentIsGranted(r, c, NewMask(r.channels[c].events, change));
    RemovalIsGranted(r, c);
  }

  lemma RemovalIsGranted(r: Registry, c: ChannelId)
    requires Consistent(r) && c in r.channels
    ensures var ch, r' := r.channels[c], Remove(r, c);
            && (ch.index == KAdded ==> ch.fd in r.kernel)
            && (RemovalOf(r, c).Some? <==> ch.index == KAdded && ch.events == NONE_EVENT)
            && (RemovalOf(r, c).Some? ==> r'.kernel == r.kernel - {ch.fd})
            && (RemovalOf(r, c).None? ==> r'.kernel == r.kernel)
  {
    assert ChannelConsistent(r, c);
  }

  /** A channel that is registered by a `disableAll` as its first change stays in the kernel set with no interest, and
      the `DEL` of its removal takes it out. */
  lemma RemovalCanDelete(c: ChannelId, fd: int)
    ensures var calls := [Create(c, fd), Adjust(c, DisableAll)];
            && Runs(NOTHING, calls, KNew)
            && var r := After(NOTHING, calls, KNew);
               && c in r.channels && RemovalOf(r, c) == Some(CtlDel)
               && r.kernel.Keys == {fd} && Remove(r, c).kernel == map[]
  {
    var create, disable := Create(c, fd), Adjust(c, DisableAll);
    assert [create, disable][1..] == [disable] && [disable][1..] == [];
    var created := Apply(NOTHING, create, KNew);
    var r := Apply(created, disable, KNew);
    assert Runs(created, [disable], KNew) && After(created, [disable], KNew) == r;
    assert r.channels[c] == Channel(fd, NONE_EVENT, KAdded);
  }

  /** What a change leaves.  If it succeeds, the kernel set has the channel under its new mask, again if it was switched
      off before, unless this change switches it off; if it is refused, nothing but the mask changes. */
  lemma ChangeRegisters(r: Registry, c: ChannelId, change: Change)
    requires Consistent(r) && c in r.channels
    ensures var ch := r.channels[c];
            var mask := NewMask(ch.events, change);
            var (r', ok) := Changed(r, c, change);
            if ok then
              && r'.byFd == r.byFd[ch.fd := c]
              && r'.kernel == (if mask == NONE_EVENT && ch.index == KAdded then r.kernel - {ch.fd}
                               else r.kernel[ch.fd := Interest(mask, c)])
              && c in r'.channels && r'.channels[c].events == mask
              && (forall d <- r.channels :: d != c ==> d in r'.channels && r'.channels[d] == r.channels[d])
            else
              r' == Registry(r.channels[c := ch.(events := mask)], r.byFd, r.kernel)
  {
    assert ChannelConsistent(r, c);
    var ch := r.channels[c];
    if ch.fd in r.byFd && r.byFd[ch.fd] == c { assert r.byFd[ch.fd := c] == r.byFd; }
  }

  /** A removal takes a channel without interest off the map and out of the kernel set, so that it is new again, and
      does nothing to any other channel. */
  lemma RemovalForgets(r: Registry, c: ChannelId)
    requires Consistent(r) && c in r.channels
    ensures var ch := r.channels[c];
            Remove(r, c)
            == if ch.index != KNew && ch.events == NONE_EVENT
               then Registry(r.channels[c := ch.(index := KNew)], r.byFd - {ch.fd}, r.kernel - {ch.fd})
               else r
  {
    assert ChannelConsistent(r, c);
    var ch := r.channels[c];
    if ch.fd !in r.kernel { assert r.kernel - {ch.fd} == r.kernel; }
  }

  /** A channel created with index `first` on a fresh descriptor is registered by its first change if and only if
      `first` is `KNew`; as written, with `KAdded`, the change is refused and nothing is registered. */
  lemma RegistersIff(r: Registry, c: ChannelId, fd: int, first: Index, change: Change)
    requires Consistent(r) && c !in r.channels && fd !in r.byFd
    ensures var created := Apply(r, Create(c, fd), first);
            var (r', ok) := Changed(created, c, change);
            && (ok <==> first.KNew?)
            && (ok <==> fd in r'.kernel && r'.kernel[fd] == Interest(NewMask(NONE_EVENT, change), c))
            && (!ok ==> r'.byFd == r.byFd && r'.kernel == r.kernel)
  {}

  /** A run in which every channel starts at `KAdded` registers nothing at all. */
  lemma {:induction false} AsWrittenRegistersNothing(r: Registry, calls: seq<Call>)
    requires r.byFd == map[] && r.kernel == map[] && (forall c <- r.channels :: r.channels[c].index.KAdded?)
    requires Runs(r, calls, KAdded)
    ensures After(r, calls, KAdded).byFd == map[] && After(r, calls, KAdded).kernel == map[]
    decreases |calls|
  {
    if calls != [] {
      AsWrittenRegistersNothing(Apply(r, calls[0], KAdded), calls[1..]);
    }
  }

  // ---------- the objects ----------

  class KaChannel {
    const id: ChannelId
    const fd: int
    var events: bv8
    var revents: bv8
    var index: Index

    constructor (id: ChannelId, fd: int, first: Index)
      ensures this.id == id && this.fd == fd && State() == Channel(fd, NONE_EVENT, first)
    {
      this.id, this.fd := id, fd;
      events, revents, index := NONE_EVENT, 0, first;
    }

    function State(): Channel
      reads this
    {
      Channel(fd, events, index)
    }

    function IsNonEvent(): bool
      reads this
    {
      events == NONE_EVENT
    }
  }

  /** What `epoll_wait` reports: the channel recorded with the descriptor, and the events that are ready. */
  datatype Report = Report(channel: KaChannel, revents: bv8)

  class KaPoller {
    /** All channels of this loop. */
    ghost var all: set<KaChannel>
    var byFd: map<int, KaChannel>
    /** The kernel's side. */
    var kernel: map<int, Interest>
    /** The length of the event vector. */
    var capacity: nat

    const INIT_EVENT_LIST: nat := 16

    ghost predicate Valid()
      reads this
    {
      && (forall c, d :: c in all && d in all && c.id == d.id ==> c == d)
      && (forall fd <- byFd :: byFd[fd] in all)
    }

    /** The event vector starts with 16 entries and is only ever doubled. */
    ghost predicate Doubled()
      reads this`capacity
    {
      exists k: nat :: capacity == INIT_EVENT_LIST * PowerOfTwo(k)
    }

    ghost function View(): Registry
      requires Valid()
      reads this, all
    {
      Registry(map c <- all :: c.id := c.State(), IdsOf(byFd), kernel)
    }

    constructor ()
      ensures Valid() && Doubled() && View() == NOTHING && all == {}
    {
      all, byFd, kernel, capacity := {}, map[], map[], INIT_EVENT_LIST;
      new;
      assert capacity == INIT_EVENT_LIST * PowerOfTwo(0);
    }

    /** A new channel of this loop. */
    method NewChannel(id: ChannelId, fd: int, first: Index) returns (channel: KaChannel)
      requires Valid() && forall c <- all :: c.id != id
      modifies this`all
      ensures Valid() && fresh(channel) && all == old(all) + {channel} && channel.id == id
      ensures View() == Apply(old(View()), Create(id, fd), first)
    {
      ghost var r := View();
      channel := new KaChannel(id, fd, first);
      all := all + {channel};
      assert View().channels.Keys == r.channels.Keys + {id};
      assert View().channels == r.channels[id := channel.State()];
    }

    method HasChannel(channel: KaChannel) returns (has: bool)
      requires Valid() && channel in all
      ensures has <==> channel.fd in View().byFd && View().byFd[channel.fd] == channel.id
    {
      has := channel.fd in byFd && byFd[channel.fd] == channel;
    }

    /** `KaPoller::update`, the call of `epoll_ctl`. */
    method EpollControl(op: Operation, channel: KaChannel) returns (ok: bool)
      requires Valid() && channel in all
      modifies this`kernel
      ensures Valid() && (View(), ok) == Control(old(View()), op, channel.id)
    {
      ghost var r := View();
      assert r.channels[channel.id] == channel.State();
      var (k, done) := EpollCtl(kernel, op, channel.fd, Interest(channel.events, channel.id));
      kernel := k;
      ok := done;
      assert View() == r.(kernel := k);
    }

    method SetChannelIndex(channel: KaChannel, index: Index)
      requires Valid() && channel in all
      modifies channel`index
      ensures Valid() && View() == SetIndex(old(View()), channel.id, index)
      ensures channel.index == index
    {
      channel.index := index;
    }

    method MapFd(fd: int, channel: KaChannel)
      requires Valid() && channel in all
      modifies this`byFd
      ensures Valid() && View() == old(View()).(byFd := old(View()).byFd[fd := channel.id])
    {
      ghost var r := View();
      IdsOfUpdate(byFd, fd, channel);
      byFd := byFd[fd := channel];
      assert View().channels == r.channels;
    }

    method UnmapFd(fd: int)
      requires Valid()
      modifies this`byFd
      ensures Valid() && View() == old(View()).(byFd := old(View()).byFd - {fd})
    {
      ghost var r := View();
      byFd := byFd - {fd};
      assert View().byFd == r.byFd - {fd} && View().channels == r.channels;
    }

    lemma Lookup(channel: KaChannel)
      requires Valid() && channel in all
      ensures var r := View();
              && channel.id in r.channels && r.channels[channel.id] == channel.State()
              && (channel.fd in byFd <==> channel.fd in r.byFd)
              && (channel.fd in byFd ==> (byFd[channel.fd] == channel <==> r.byFd[channel.fd] == channel.id))
    {}

    method UpdateChannel(channel: KaChannel) returns (ok: bool)
      requires Valid() && channel in all
      modifies this`byFd, this`kernel, channel`index
      ensures Valid() && (View(), ok) == Update(old(View()), channel.id)
    {
      var fd := channel.fd;
      Lookup(channel);
      if channel.index == KNew || channel.index == KDeleted {
        if channel.index == KNew {
          if fd in byFd {
            return false;
          }
          MapFd(fd, channel);
        } else {
          if fd !in byFd || byFd[fd] != channel {
            return false;
          }
        }
        SetChannelIndex(channel, KAdded);
        ok := EpollControl(CtlAdd, channel);
      } else {
        if fd !in byFd || byFd[fd] != channel {
          return false;
        }
        if channel.IsNonEvent() {
          ok := EpollControl(CtlDel, channel);
          if ok {
            SetChannelIndex(channel, KDeleted);
          }
        } else {
          ok := EpollControl(CtlMod, channel);
        }
      }
    }

    method RemoveChannel(channel: KaChannel)
      requires Valid() && channel in all
      modifies this`byFd, this`kernel, channel`index
      ensures Valid() && View() == Remove(old(View()), channel.id)
    {
      var fd := channel.fd;
      Lookup(channel);
      if fd !in byFd || byFd[fd] != channel || !channel.IsNonEvent() {
        return;
      }
      if channel.index != KAdded && channel.index != KDeleted {
        return;
      }
      UnmapFd(fd);
      if channel.index == KAdded {
        var _ := EpollControl(CtlDel, channel);
      }
      SetChannelIndex(channel, KNew);
    }

    /** `enableReading` and its four siblings. */
    method Adjust(channel: KaChannel, change: Change) returns (ok: bool)
      requires Valid() && channel in all
      modifies this`byFd, this`kernel, channel`events, channel`index
      ensures Valid() && (View(), ok) == Changed(old(View()), channel.id, change)
    {
      ghost var r := View();
      channel.events := NewMask(channel.events, change);
      assert View() == SetMask(r, channel.id, channel.events);
      ok := UpdateChannel(channel);
    }

    /** What the kernel may report: at most one event for each descriptor of its interest set, and no more than fit. */
    ghost predicate FromKernel(reports: seq<Report>)
      reads this
    {
      && |reports| <= capacity
      && (forall e <- reports ::
            e.channel in all && e.channel.fd in kernel && kernel[e.channel.fd].channel == e.channel.id)
      && (forall i, j :: 0 <= i < j < |reports| ==> reports[i].channel != reports[j].channel)
    }

    method SetRevents(channel: KaChannel, revents: bv8)
      requires Valid() && channel in all
      modifies channel`revents
      ensures Valid() && View() == old(View()) && channel.revents == revents
    {
      channel.revents := revents;
    }

    /** The mismatch test of the source never succeeds: every reported event gets into the active list, once and with
        its own mask. */
    method FillActiveChannel(reports: seq<Report>) returns (active: seq<KaChannel>)
      requires Valid() && Consistent(View()) && FromKernel(reports)
      modifies (set e <- reports :: e.channel)`revents
      ensures Valid() && View() == old(View())
      ensures |active| == |reports|
      ensures forall i :: 0 <= i < |reports| ==>
                            active[i] == reports[i].channel && active[i].revents == reports[i].revents
    {
      active := [];
      ghost var r := View();
      forall e <- reports ensures e.channel.fd in byFd && byFd[e.channel.fd] == e.channel {
        RegisteredIsMapped(e.channel);
      }
      for i := 0 to |reports|
        invariant Valid() && View() == r && |active| == i
        invariant forall k :: 0 <= k < i ==> active[k] == reports[k].channel && active[k].revents == reports[k].revents
      {
        var channel := reports[i].channel;
        if channel.fd !in byFd || byFd[channel.fd] != channel {
          return;
        }
        SetRevents(channel, reports[i].revents);
        active := active + [channel];
      }
    }

    lemma RegisteredIsMapped(channel: KaChannel)
      requires Valid() && Consistent(View()) && channel in all
      requires channel.fd in kernel && kernel[channel.fd].channel == channel.id
      ensures channel.fd in byFd && byFd[channel.fd] == channel
    {
      var r := View();
      var d := byFd[channel.fd];
      assert channel.fd in r.byFd && d.id in r.channels && r.channels[d.id] == d.State();
      assert ChannelConsistent(r, d.id);
    }

    /** `poll` with `reports` from `epoll_wait`: the event vector doubles when it was full. */
    method Poll(reports: seq<Report>) returns (active: seq<KaChannel>)
      requires Valid() && Doubled() && Consistent(View()) && FromKernel(reports)
      modifies this`capacity, (set e <- reports :: e.channel)`revents
      ensures Valid() && Doubled() && View() == old(View()) && |reports| <= capacity
      ensures capacity == if |reports| == old(capacity) then 2 * old(capacity) else old(capacity)
      ensures |active| == |reports|
      ensures forall i :: 0 <= i < |reports| ==>
                            active[i] == reports[i].channel && active[i].revents == reports[i].revents
    {
      active := [];
      if |reports| > 0 {
        active := FillActiveChannel(reports);
        if |reports| == capacity {
          DoubleEvents();
        }
      }
    }

    method DoubleEvents()
      requires Valid() && Doubled()
      modifies this`capacity
      ensures Valid() && Doubled() && View() == old(View()) && capacity == 2 * old(capacity)
    {
      ghost var k: nat :| capacity == INIT_EVENT_LIST * PowerOfTwo(k);
      capacity := capacity * 2;
      assert capacity == INIT_EVENT_LIST * PowerOfTwo(k + 1);
    }
  }

  function IdsOf(byFd: map<int, KaChannel>): map<int, ChannelId> {
    map fd <- byFd :: byFd[fd].id
  }

  lemma IdsOfUpdate(byFd: map<int, KaChannel>, fd: int, channel: KaChannel)
    ensures IdsOf(byFd[fd := channel]) == IdsOf(byFd)[fd := channel.id]
  {}

  ghost function PowerOfTwo(k: nat): nat {
    if k == 0 then 1 else 2 * PowerOfTwo(k - 1)
  }
}
