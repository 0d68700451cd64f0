/** Model of the event system (Unidirect/Helpers/EventBus.cs): `EventChannel<T>` keeps its
    listeners in a `UDLL`, `EventBus<T>` owns the one channel of a payload type and a pool of
    payload instances, and the static `EventBus` registry lists every channel created.

    Listeners (`Action<T>` delegates) are opaque ids; `NoListener` stands for a `null`
    delegate.  Invoking a listener is recorded in a trace instead of being run; the one effect
    a listener may have on the bus while it runs, taking itself off, is a parameter. */
module Events {
  import opened Stacks
  import opened LinkedLists

  /** A `null` delegate. */
  const NoListener: int := 0

  /** The listeners of `s` that are not in `removing`, in order. */
  function Without(s: seq<int>, removing: set<int>): (r: seq<int>)
    ensures |r| <= |s|
    ensures forall x :: x in r <==> x in s && x !in removing
    decreases |s|
  {
    if s == [] then []
    else
      var init := s[..|s| - 1];
      var r' := Without(init, removing);
      assert forall x :: x in s <==> x in init || x == s[|s| - 1];
      r' + (if s[|s| - 1] in removing then [] else [s[|s| - 1]])
  }

  /** `Without` over one more element of a prefix. */
  lemma WithoutStep(s: seq<int>, k: int, removing: set<int>)
    requires 0 <= k < |s|
    ensures Without(s[..k + 1], removing) ==
            Without(s[..k], removing) + (if s[k] in removing then [] else [s[k]])
  {
    assert s[..k + 1][..k] == s[..k];
  }

  /** Taking out the element just after a prefix `a` of `a + b`. */
  lemma DropAfter<X>(a: seq<X>, b: seq<X>)
    requires |b| > 0
    ensures (a + b)[..|a|] + (a + b)[|a| + 1..] == a + b[1..]
    ensures (a + b)[|a|] == b[0]
  {
    assert (a + b)[..|a|] == a;
    assert (a + b)[|a| + 1..] == b[1..];
  }

  /** The element after a prefix `a`, taken out of `a + s[k..]` or moved into the prefix. */
  lemma Shift<X>(a: seq<X>, s: seq<X>, k: int)
    requires 0 <= k < |s|
    ensures (a + s[k..])[|a|] == s[k]
    ensures (a + s[k..])[..|a|] + (a + s[k..])[|a| + 1..] == a + s[k + 1..]
    ensures a + s[k..] == (a + [s[k]]) + s[k + 1..]
  {
    DropAfter(a, s[k..]);
    assert s[k..][1..] == s[k + 1..];
  }

  /** Calling the listener at position `pos` of a channel's list: one in `removing` takes
      itself off through `EventBus<T>.RemoveListener`, any other leaves the list alone. */
  method Invoke(list: UDLL<int>, listener: int, removing: set<int>, ghost pos: int)
    requires list.Valid() && 0 <= pos < |list.Contents| && list.Contents[pos] == listener
    modifies list.Repr()
    ensures list.Valid() && list.pool == old(list.pool)
    ensures list.pool.storage == old(list.pool.storage) || fresh(list.pool.storage)
    ensures listener in removing ==>
      list.Chain == old(list.Chain[..pos] + list.Chain[pos + 1..])
      && list.Contents == old(list.Contents[..pos] + list.Contents[pos + 1..])
    ensures listener !in removing ==> list.Chain == old(list.Chain) && list.Contents == old(list.Contents)
    ensures old(list.Tidy()) ==> list.Tidy()
    ensures old(list.CanAdd()) ==> list.CanAdd()
  {
    if listener in removing {
      assert LinkedAt(list.nodes, list.Chain, list.Contents, pos);
      EraseAt(list.index, list.count, list.Chain, list.Contents, pos);
      list.Remove(listener);
    }
  }

  /** One step of the walk in `Notify`: the node at position `k` of the walk's original
      chain holds the next listener; its `Next` is read before the listener is called. */
  method NotifyAt(list: UDLL<int>, removing: set<int>, node: int,
                  ghost chain0: seq<int>, ghost contents0: seq<int>, ghost kept: seq<int>, ghost k: int)
    returns (next: int, listener: int, ghost kept': seq<int>)
    requires list.Valid() && list.Tidy() && |chain0| == |contents0|
    requires 0 <= k < |chain0| && node == chain0[k]
    requires list.Chain == kept + chain0[k..]
    requires list.Contents == Without(contents0[..k], removing) + contents0[k..]
    modifies list.Repr()
    ensures list.Valid() && list.Tidy() && list.pool == old(list.pool)
    ensures list.pool.storage == old(list.pool.storage) || fresh(list.pool.storage)
    ensures old(list.CanAdd()) ==> list.CanAdd()
    ensures listener == contents0[k]
    ensures next == if k + 1 < |chain0| then chain0[k + 1] else Nil
    ensures list.Chain == kept' + chain0[k + 1..]
    ensures list.Contents == Without(contents0[..k + 1], removing) + contents0[k + 1..]
  {
    ghost var pos := |kept|;
    ghost var done := Without(contents0[..k], removing);
    assert LinkedAt(list.nodes, list.Chain, list.Contents, pos);
    Shift(kept, chain0, k);
    Shift(done, contents0, k);
    next := list.nodes[node].next;
    listener := list.nodes[node].value;
    WithoutStep(contents0, k, removing);
    Invoke(list, listener, removing, pos);
    if listener in removing {
      kept' := kept;
      assert list.Contents == done + contents0[k + 1..];
      assert Without(contents0[..k + 1], removing) == done;
    } else {
      kept' := kept + [node];
      assert list.Contents == (done + [listener]) + contents0[k + 1..];
      assert Without(contents0[..k + 1], removing) == done + [listener];
    }
  }

  /** The walk of `EventChannel.Dispatch` over a channel's list: reads each node's `Next`
      before calling its listener, so a listener may take itself off while it runs.  Every
      listener present when the walk starts is called once, in order, and those in
      `removing` are gone afterwards. */
  method Notify(list: UDLL<int>, removing: set<int>) returns (trace: seq<int>)
    requires list.Valid() && list.Tidy()
    modifies list.Repr()
    ensures list.Valid() && list.Tidy() && list.pool == old(list.pool)
    ensures list.pool.storage == old(list.pool.storage) || fresh(list.pool.storage)
    ensures trace == old(list.Contents)
    ensures list.Contents == Without(old(list.Contents), removing)
    ensures old(list.CanAdd()) ==> list.CanAdd()
  {
    ghost var chain0, contents0 := list.Chain, list.Contents;
    ghost var kept: seq<int> := [];
    ghost var k := 0;
    var node := list.first;
    trace := [];
    while node != Nil
      invariant list.Valid() && list.Tidy()
      invariant list.pool == old(list.pool)
      invariant list.pool.storage == old(list.pool.storage) || fresh(list.pool.storage)
      invariant old(list.CanAdd()) ==> list.CanAdd()
      invariant |chain0| == |contents0|
      invariant 0 <= k <= |chain0| && node == (if k < |chain0| then chain0[k] else Nil)
      invariant trace == contents0[..k]
      invariant list.Chain == kept + chain0[k..]
      invariant list.Contents == Without(contents0[..k], removing) + contents0[k..]
      decreases |chain0| - k
    {
      var listener;
      PrefixStep(contents0, k);
      node, listener, kept := NotifyAt(list, removing, node, chain0, contents0, kept, k);
      trace := trace + [listener];
      k := k + 1;
    }
    assert k == |chain0|;
    assert contents0[..k] == contents0;
  }

  /** `EventChannel<T>`: the listeners of one payload type.  `handlers == null` is
      `IsDisposed`. */
  class EventChannel {
    var handlers: UDLL?<int>

    ghost function Repr(): set<object>
      reads this, handlers, if handlers != null then {handlers.pool} else {}
    {
      {this} + (if handlers != null then handlers.Repr() else {})
    }

    ghost predicate Valid()
      reads Repr()
    {
      handlers != null ==>
        handlers.Valid() && handlers.blank == NoListener && NoListener !in handlers.Contents
    }

    /** The listeners, in the order `Dispatch` calls them. */
    ghost function Listeners(): seq<int>
      reads this, handlers
    {
      if handlers == null then [] else handlers.Contents
    }

    /** `IsDisposed`. */
    predicate IsDisposed()
      reads this
    {
      handlers == null
    }

    constructor ()
      ensures Valid() && fresh(Repr()) && handlers != null && handlers.CanAdd()
      ensures Listeners() == []
    {
      handlers := new UDLL<int>(8, 0.5, NoListener);
    }

    /** `Count`: the number of listeners, 0 once disposed. */
    function Count(): (n: int)
      reads Repr()
      requires Valid()
      ensures n == |Listeners()|
    {
      if handlers == null then 0 else handlers.Count()
    }

    /** `Contains`. */
    predicate Contains(listener: int)
      reads Repr()
      requires Valid() && handlers != null
      ensures Contains(listener) <==> listener in Listeners()
    {
      handlers.Contains(listener)
    }

    /** `Add`: appends a listener not yet present; a listener already present keeps its
        place.  The dictionary lookup `ContainsKey` throws on a `null` key, so `null` is
        excluded. */
    method Add(listener: int)
      requires Valid() && handlers != null && handlers.CanAdd() && listener != NoListener
      modifies Repr()
      ensures Valid() && handlers == old(handlers) && handlers.CanAdd() && fresh(Repr() - old(Repr()))
      ensures Listeners() == if listener in old(Listeners()) then old(Listeners())
                             else old(Listeners()) + [listener]
    {
      var node := handlers.AddLast(listener);
    }

    /** `Remove`: takes a listener off; an absent one changes nothing. */
    method Remove(listener: int)
      requires Valid() && handlers != null
      modifies Repr()
      ensures Valid() && handlers == old(handlers) && fresh(Repr() - old(Repr()))
      ensures Listeners() == if listener in old(Listeners()) then Erase(old(Listeners()), listener)
                             else old(Listeners())
      ensures old(handlers.CanAdd()) ==> handlers.CanAdd()
      ensures old(handlers.Tidy()) ==> handlers.Tidy()
    {
      handlers.Remove(listener);
    }
    /** `Clear(purgePool)`: drops every listener.  The list's `First` is left as it was, a
        scrubbed node holding a `null` delegate, so after clearing a non-empty channel the
        next `Dispatch` calls `null` and throws, and `Add` is safe again only when the one
        listener of the channel was cleared without purging; see `UDLL.Clear`. */
    method Clear(purgePool: bool)
      requires Valid() && handlers != null
      modifies Repr()
      ensures Valid() && handlers == old(handlers) && fresh(Repr() - old(Repr()))
      ensures Listeners() == [] && Count() == 0
      ensures old(Listeners()) == [] ==> handlers.Tidy() == old(handlers.Tidy())
      ensures old(Listeners()) != [] ==> !handlers.Tidy()
      ensures old(Listeners()) != [] ==> handlers.nodes[handlers.first] == Node(NoListener, Nil, Nil)
      ensures !purgePool && |old(Listeners())| == 1 && old(handlers.CanAdd()) ==> handlers.CanAdd()
      ensures old(Listeners()) != [] && (purgePool || |old(Listeners())| > 1) ==> !handlers.CanAdd()
    {
      handlers.Clear(purgePool);
    }

    /** `Dispatch`: walks the list from `First`, reading each node's `Next` before calling
        its listener, so a listener may take itself off while it runs.  Every listener
        present when the walk starts is called once, in order; those in `removing` take
        themselves off when called.  A stale `First` left by `Clear` would be a node holding a
        `null` delegate, whose call throws, so the list must be tidy. */
    method Dispatch(removing: set<int>) returns (trace: seq<int>)
      requires Valid() && handlers != null && handlers.Tidy()
      modifies Repr()
      ensures Valid() && handlers == old(handlers) && handlers.Tidy() && fresh(Repr() - old(Repr()))
      ensures trace == old(Listeners())
      ensures Listeners() == Without(old(Listeners()), removing)
      ensures old(handlers.CanAdd()) ==> handlers.CanAdd()
    {
      var list := handlers;
      assert this !in list.Repr();
      trace := Notify(list, removing);
      assert NoListener !in list.Contents;
    }

    /** `Dispose`: a purging `Clear`, then the list is dropped. */
    method Dispose()
      requires Valid() && handlers != null
      modifies Repr()
      ensures Valid() && IsDisposed() && Listeners() == [] && Count() == 0
    {
      Clear(true);
      handlers := null;
    }
  }

  /** The channels from position `from` on are live and valid, and their lists share no
      object. */
  ghost predicate Separate(cs: seq<EventChannel>, from: int)
    reads *
  {
    (forall i :: from <= i < |cs| ==> 0 <= i && cs[i].Valid() && cs[i].handlers != null)
    && (forall i, j :: from <= i < j < |cs| ==> 0 <= i && cs[i].Repr() !! cs[j].Repr())
  }

  /** One step of `ClearAll`: the `i`th channel is cleared and the others are untouched. */
  method ClearChannel(cs: seq<EventChannel>, i: int, purgePool: bool)
    requires 0 <= i < |cs| && Separate(cs, 0)
    modifies cs[i].Repr()
    ensures Separate(cs, 0)
    ensures forall j :: 0 <= j < |cs| ==> cs[j].handlers == old(cs[j].handlers)
    ensures cs[i].Listeners() == []
    ensures fresh(cs[i].Repr() - old(cs[i].Repr()))
    ensures forall j :: 0 <= j < |cs| && j != i ==> cs[j].Repr() == old(cs[j].Repr())
    ensures forall j :: 0 <= j < |cs| && j != i ==> cs[j].Listeners() == old(cs[j].Listeners())
  {
    cs[i].Clear(purgePool);
    forall j | 0 <= j < |cs| && j != i
      ensures cs[j].Repr() == old(cs[j].Repr()) && cs[j].Listeners() == old(cs[j].Listeners())
      ensures 0 <= j && cs[j].Valid() && cs[j].handlers != null
    {
      assert old(cs[i].Repr() !! cs[j].Repr());
    }
    forall j, m | 0 <= j < m < |cs|
      ensures 0 <= j && cs[j].Repr() !! cs[m].Repr()
    {
      if j != i && m != i {
        assert cs[j].Repr() == old(cs[j].Repr()) && cs[m].Repr() == old(cs[m].Repr());
      } else {
        var other := if j == i then m else j;
        assert cs[other].Repr() == old(cs[other].Repr());
        assert old(allocated(cs[other].Repr()));
      }
    }
  }

  /** `ClearAll` has cleared the channels of `cs` before position `i`: every channel keeps
      its list `hs[j]`, and those from `i` on still have their objects `rs[j]`. */
  ghost predicate Clearing(cs: seq<EventChannel>, i: int, hs: seq<UDLL?<int>>, rs: seq<set<object>>)
    reads *
  {
    0 <= i <= |cs| == |hs| == |rs| && Separate(cs, 0)
    && (forall j :: 0 <= j < |cs| ==> cs[j].handlers == hs[j])
    && (forall j :: i <= j < |cs| ==> cs[j].Repr() == rs[j])
    && (forall j :: 0 <= j < i ==> cs[j].Listeners() == [])
  }

  /** One round of `ClearAll`. */
  method ClearNext(cs: seq<EventChannel>, i: int, purgePools: bool, ghost hs: seq<UDLL?<int>>,
                   ghost rs: seq<set<object>>) returns (i': int)
    requires Clearing(cs, i, hs, rs) && i < |cs|
    modifies cs[i].Repr()
    ensures i' == i + 1 && Clearing(cs, i', hs, rs)
  {
    ClearChannel(cs, i, purgePools);
    i' := i + 1;
  }

  /** The loop of `EventBus.ClearAll` over the registered channels. */
  method ClearEach(cs: seq<EventChannel>, purgePools: bool)
    requires Separate(cs, 0)
    modifies set c, o | c in cs && o in c.Repr() :: o
    ensures Separate(cs, 0)
    ensures forall i :: 0 <= i < |cs| ==> cs[i].handlers == old(cs[i].handlers) && cs[i].Listeners() == []
  {
    ghost var hs := seq(|cs|, j requires 0 <= j < |cs| reads cs => cs[j].handlers);
    ghost var rs := seq(|cs|, j requires 0 <= j < |cs| reads * => cs[j].Repr());
    var i := 0;
    while i < |cs|
      invariant Clearing(cs, i, hs, rs)
    {
      i := ClearNext(cs, i, purgePools, hs, rs);
    }
  }

  /** One step of `DisposeALl`: the `i`th channel is disposed and the later ones are
      untouched. */
  method DisposeChannel(cs: seq<EventChannel>, i: int)
    requires 0 <= i < |cs| && Separate(cs, i)
    requires forall j :: 0 <= j < i ==> cs[j] !in cs[i].Repr() && cs[j].IsDisposed()
    modifies cs[i].Repr()
    ensures Separate(cs, i + 1) && cs[i].IsDisposed()
    ensures forall j :: i < j < |cs| ==> cs[j].Repr() == old(cs[j].Repr())
    ensures forall j :: 0 <= j < i ==> cs[j].IsDisposed()
  {
    var channel := cs[i];
    channel.Dispose();
    forall j | i < j < |cs|
      ensures cs[j].Repr() == old(cs[j].Repr()) && cs[j].Valid() && cs[j].handlers != null
    {
      assert old(cs[i].Repr() !! cs[j].Repr());
    }
  }

  /** The loop of `EventBus.DisposeALl` over the registered channels. */
  method DisposeEach(cs: seq<EventChannel>)
    requires Separate(cs, 0)
    modifies set c, o | c in cs && o in c.Repr() :: o
    ensures forall i :: 0 <= i < |cs| ==> cs[i].IsDisposed()
  {
    var i := 0;
    while i < |cs|
      invariant 0 <= i <= |cs| && Separate(cs, i)
      invariant forall j :: i <= j < |cs| ==> cs[j].Repr() == old(cs[j].Repr())
      invariant forall j :: 0 <= j < i ==> cs[j].IsDisposed()
    {
      forall j | 0 <= j < i
        ensures cs[j] !in cs[i].Repr()
      {
        assert cs[j] in old(cs[j].Repr());
      }
      DisposeChannel(cs, i);
      forall j | 0 <= j <= i
        ensures cs[j].IsDisposed()
      {
        if j == i {
          assert cs[i].IsDisposed();
        }
      }
      i := i + 1;
    }
  }

  /** The static `EventBus` class: every channel created by an `EventBus<T>`, each once.
      The dictionary maps a channel to itself, so it is modelled by its keys, in the order
      they were added. */
  class Registry {
    var channels: seq<EventChannel>

    ghost predicate Valid()
      reads this
    {
      Distinct(channels)
    }

    constructor ()
      ensures Valid() && channels == []
    {
      channels := [];
    }

    /** `Register`: `TryAdd` leaves a channel already present where it is. */
    method Register(channel: EventChannel)
      requires Valid()
      modifies this
      ensures Valid() && channel in channels
      ensures channels == if channel in old(channels) then old(channels) else old(channels) + [channel]
    {
      if channel !in channels {
        assert (channels + [channel])[..|channels|] == channels;
        channels := channels + [channel];
      }
    }

    /** `Unregister`: takes a registered channel out; an unknown one changes nothing. */
    method Unregister(channel: EventChannel)
      requires Valid()
      modifies this
      ensures Valid() && channel !in channels
      ensures channels == if channel in old(channels) then Erase(old(channels), channel) else old(channels)
    {
      if channel in channels {
        EraseMembers(channels, channel);
        channels := Erase(channels, channel);
      }
    }

    /** `ClearAll(purgePools)`: clears every registered channel.  A disposed channel still
        registered would throw, so every channel must be live; their lists are separate. */
    method ClearAll(purgePools: bool)
      requires Valid() && Separate(channels, 0)
      modifies set c, o | c in channels && o in c.Repr() :: o
      ensures channels == old(channels) && Separate(channels, 0)
      ensures forall i :: 0 <= i < |channels| ==>
        channels[i].handlers == old(channels[i].handlers) && channels[i].Listeners() == []
    {
      assert forall c :: c in channels ==> this !in c.Repr();
      ClearEach(channels, purgePools);
    }

    /** `DisposeALl`: disposes every registered channel and leaves them all registered.
        Disposing a channel twice throws, so every channel must be live. */
    method DisposeAll()
      requires Valid() && Separate(channels, 0)
      modifies set c, o | c in channels && o in c.Repr() :: o
      ensures channels == old(channels)
      ensures forall i :: 0 <= i < |channels| ==> channels[i].IsDisposed() && channels[i].Listeners() == []
      ensures channels != [] ==> !Separate(channels, 0)
    {
      assert forall c :: c in channels ==> this !in c.Repr();
      DisposeEach(channels);
      if channels != [] {
        assert channels[0].IsDisposed();
      }
    }

    /** `DisposeALl` as evidently intended: the disposed channels also leave the registry, as
        `EventBus<T>.Dispose` unregisters its channel, so a later `ClearAll` or `DisposeALl`
        meets no disposed channel. */
    method DisposeAllFixed()
      requires Valid() && Separate(channels, 0)
      modifies this, set c, o | c in channels && o in c.Repr() :: o
      ensures Valid() && channels == [] && Separate(channels, 0)
      ensures forall i :: 0 <= i < |old(channels)| ==>
        old(channels)[i].IsDisposed() && old(channels)[i].Listeners() == []
    {
      DisposeAll();
      ghost var disposed := channels;
      channels := [];
      assert disposed == old(channels);
    }
  }

  /** `EventBus<T>` for one payload type `P`: the lazily created channel `_instance`, the
      pool `_events` of spent payloads, and the registry every new channel is added to. */
  class Bus<P> {
    var instance: EventChannel?
    var events: UStack?<P>
    const registry: Registry

    /** The objects of the channel, when there is one. */
    ghost function ChannelRepr(): set<object>
      reads this, instance, if instance != null then {instance.handlers} else {}
      reads if instance != null && instance.handlers != null then {instance.handlers.pool} else {}
    {
      if instance != null then instance.Repr() else {}
    }

    /** The objects of the payload pool, when there is one. */
    ghost function EventsRepr(): set<object>
      reads this, events
    {
      if events != null then events.Repr() else {}
    }

    ghost function Repr(): set<object>
      reads this, instance, if instance != null then {instance.handlers} else {}
      reads if instance != null && instance.handlers != null then {instance.handlers.pool} else {}
      reads events
    {
      {this} + ChannelRepr() + EventsRepr()
    }

    ghost predicate Valid()
      reads Repr()
    {
      (instance != null ==> instance.Valid())
      && (events != null ==>
            events.Valid() && events.isResizable
            && events !in ChannelRepr() && events.storage !in ChannelRepr())
      && this !in ChannelRepr() && this !in EventsRepr() && registry !in ChannelRepr()
    }

    /** `_IsChannelExist`: there is a channel and it is not disposed. */
    predicate Live()
      reads this, instance
    {
      instance != null && !instance.IsDisposed()
    }

    /** The static initialiser: no channel yet, and a resizable pool of capacity 2 with
        modifier 0.5. */
    constructor (registry: Registry, blank: P)
      ensures Valid() && fresh(Repr()) && this.registry == registry
      ensures !Live() && NumListeners() == 0
      ensures events != null && events.Items() == [] && events.size == 2
    {
      this.registry := registry;
      instance := null;
      events := new UStack<P>(2, 0.5, true, blank);
    }

    /** `NumListeners`: the channel's count, or 0 without a live channel. */
    function NumListeners(): (n: int)
      reads Repr()
      requires Valid()
      ensures n == if Live() then |instance.Listeners()| else 0
      ensures n >= 0
    {
      if Live() then instance.Count() else 0
    }

    /** `GetEvent`: a pooled payload when there is one, else the newly created `created`.
        The pool is `null` after `Dispose`, which makes the call throw. */
    method GetEvent(created: P) returns (e: P)
      requires Valid() && events != null
      modifies events
      ensures Valid() && events.storage == old(events.storage)
      ensures old(events.Items()) == [] ==> e == created && events.Items() == []
      ensures old(events.Items()) != [] ==>
        e == old(events.Items())[|old(events.Items())| - 1]
        && events.Items() == old(events.Items())[..|old(events.Items())| - 1]
    {
      if !events.IsEmpty() {
        e := events.Pop();
      } else {
        e := created;
      }
    }

    /** A new channel, added to the registry. */
    method Open() returns (channel: EventChannel)
      requires registry.Valid()
      modifies registry
      ensures registry.Valid() && registry.channels == old(registry.channels) + [channel]
      ensures fresh(channel.Repr()) && channel.Valid() && channel.Listeners() == []
      ensures channel.handlers != null && channel.handlers.CanAdd()
    {
      channel := new EventChannel();
      assert registry !in channel.Repr();
      registry.Register(channel);
    }

    /** `_GetChannel`: the live channel, or else a new one, registered. */
    method GetChannel() returns (channel: EventChannel)
      requires Valid() && registry.Valid()
      modifies this, registry
      ensures Valid() && registry.Valid() && channel == instance && Live() && events == old(events)
      ensures old(Live()) ==> channel == old(instance) && registry.channels == old(registry.channels)
      ensures !old(Live()) ==>
        fresh(channel.Repr()) && channel.Listeners() == [] && channel.handlers.CanAdd()
        && registry.channels == old(registry.channels) + [channel]
    {
      if instance == null || instance.IsDisposed() {
        channel := Open();
        instance := channel;
      } else {
        channel := instance;
      }
    }

    /** `AddListener`: adds to the live channel, creating and registering one first if
        there is none or it was disposed. */
    method AddListener(listener: int)
      requires Valid() && registry.Valid() && listener != NoListener
      requires Live() ==> instance.handlers.CanAdd()
      modifies this, registry, ChannelRepr()
      ensures Valid() && registry.Valid() && Live() && instance.handlers.CanAdd() && events == old(events)
      ensures old(Live()) ==>
        instance == old(instance) && registry.channels == old(registry.channels)
        && instance.Listeners() == if listener in old(instance.Listeners()) then old(instance.Listeners())
                                   else old(instance.Listeners()) + [listener]
      ensures !old(Live()) ==>
        fresh(instance) && registry.channels == old(registry.channels) + [instance]
        && instance.Listeners() == [listener]
    {
      var channel := GetChannel();
      channel.Add(listener);
    }

    /** `RemoveListener`: takes a listener off the live channel; nothing without one. */
    method RemoveListener(listener: int)
      requires Valid()
      modifies ChannelRepr()
      ensures Valid() && Live() == old(Live())
      ensures Live() ==>
        instance.Listeners() == if listener in old(instance.Listeners())
                                then Erase(old(instance.Listeners()), listener) else old(instance.Listeners())
      ensures old(Live() && instance.handlers.CanAdd()) ==> instance.handlers.CanAdd()
      ensures old(Live() && instance.handlers.Tidy()) ==> instance.handlers.Tidy()
    {
      if Live() {
        instance.Remove(listener);
      }
    }

    /** `Clear(purgePool)`: clears the live channel; nothing without one. */
    method Clear(purgePool: bool)
      requires Valid()
      modifies ChannelRepr()
      ensures Valid() && Live() == old(Live())
      ensures Live() ==> instance.Listeners() == []
      ensures !purgePool && old(Live() && |instance.Listeners()| == 1 && instance.handlers.CanAdd()) ==>
                instance.handlers.CanAdd()
    {
      if Live() {
        instance.Clear(purgePool);
      }
    }

    /** `Dispatch(t)`: the live channel, if any, calls its listeners with `t`; then `t` goes
        back to the pool.  `IsEventReset` is read from `_instance` whether or not it is live,
        so a bus with no channel, or one disposed by `Dispose`, throws.  The reset it guards
        never happens: `IsEventReset` tests `typeof(T) is IEventReset`, whether the `Type`
        object itself implements the interface, which it never does.  The pool is resizable,
        so the push always succeeds. */
    method Dispatch(t: P, removing: set<int>) returns (trace: seq<int>)
      requires Valid() && instance != null && events != null
      requires Live() ==> instance.handlers.Tidy()
      modifies Repr()
      ensures Valid() && instance == old(instance) && events == old(events) && Live() == old(Live())
      ensures trace == if Live() then old(instance.Listeners()) else []
      ensures Live() ==> instance.Listeners() == Without(old(instance.Listeners()), removing)
      ensures Live() ==> instance.handlers.Tidy()
      ensures old(Live() && instance.handlers.CanAdd()) ==> instance.handlers.CanAdd()
      ensures events.Items() == old(events.Items()) + [t]
    {
      trace := Deliver(removing);
      Stow(t);
    }

    /** `Dispatch` as evidently intended: the payload is reset when its type `P` implements
        `IEventReset` (`resettable`), whether or not there is a channel, before it is pooled;
        `reset` is the payload after its own `Reset()`. */
    method DispatchFixed(t: P, reset: P, resettable: bool, removing: set<int>) returns (trace: seq<int>)
      requires Valid() && events != null
      requires Live() ==> instance.handlers.Tidy()
      modifies Repr()
      ensures Valid() && instance == old(instance) && events == old(events) && Live() == old(Live())
      ensures trace == if Live() then old(instance.Listeners()) else []
      ensures Live() ==> instance.Listeners() == Without(old(instance.Listeners()), removing)
      ensures events.Items() == old(events.Items()) + [if resettable then reset else t]
    {
      trace := [];
      if instance != null {
        trace := Deliver(removing);
      }
      Stow(if resettable then reset else t);
    }

    /** The channel half of `Dispatch`. */
    method Deliver(removing: set<int>) returns (trace: seq<int>)
      requires Valid() && instance != null
      requires Live() ==> instance.handlers.Tidy()
      modifies ChannelRepr()
      ensures Valid() && Live() == old(Live())
      ensures trace == if Live() then old(instance.Listeners()) else []
      ensures Live() ==> instance.Listeners() == Without(old(instance.Listeners()), removing)
      ensures Live() ==> instance.handlers.Tidy()
      ensures old(Live() && instance.handlers.CanAdd()) ==> instance.handlers.CanAdd()
      ensures events != null ==> events.Items() == old(events.Items())
    {
      trace := [];
      if Live() {
        trace := instance.Dispatch(removing);
        assert events != null ==> events !in instance.Repr() && events.storage !in instance.Repr();
      }
    }

    /** `_events.Push(ref t)`, the pool half of `Dispatch`. */
    method Stow(t: P)
      requires Valid() && events != null
      modifies EventsRepr()
      ensures Valid() && events.Items() == old(events.Items()) + [t]
      ensures instance != null ==>
        instance.Listeners() == old(instance.Listeners())
        && (instance.handlers != null ==>
              instance.handlers.Tidy() == old(instance.handlers.Tidy())
              && instance.handlers.CanAdd() == old(instance.handlers.CanAdd()))
    {
      var pushed := events.Push(t);
    }

    /** `Dispose`: when the channel is live, unregisters and disposes it, drops it, scrubs
        the pool and drops the pool too; otherwise nothing.  A live channel after an earlier
        `Dispose` meets a `null` pool, which throws. */
    method Dispose()
      requires Valid() && registry.Valid()
      requires Live() ==> events != null
      modifies this, registry, Repr()
      ensures Valid() && registry.Valid() && !Live()
      ensures old(Live()) ==>
        instance == null && events == null
        && old(instance).IsDisposed() && old(instance).Listeners() == []
        && old(instance) !in registry.channels
        && registry.channels == if old(instance) in old(registry.channels)
                                then Erase(old(registry.channels), old(instance)) else old(registry.channels)
      ensures !old(Live()) ==>
        instance == old(instance) && events == old(events) && registry.channels == old(registry.channels)
    {
      if Live() {
        var channel := instance;
        instance := null;
        events.Clear();
        events := null;
        Retire(registry, channel);
      }
    }
  }

  /** The channel half of `EventBus<T>.Dispose`: the channel leaves the registry and is
      disposed. */
  method Retire(registry: Registry, channel: EventChannel)
    requires registry.Valid() && channel.Valid() && channel.handlers != null && registry !in channel.Repr()
    modifies registry, channel.Repr()
    ensures registry.Valid() && channel.IsDisposed() && channel.Listeners() == []
    ensures channel !in registry.channels
    ensures registry.channels == if channel in old(registry.channels)
                                 then Erase(old(registry.channels), channel) else old(registry.channels)
  {
    registry.Unregister(channel);
    channel.Dispose();
  }

  /** With `DispatchFixed`, a bus with no channel yet can dispatch, and the payload that
      `GetEvent` hands out next has been reset when its type asks for it. */
  method DispatchFixedThenGetEvent<P>(bus: Bus<P>, t: P, reset: P, resettable: bool, created: P,
                                      removing: set<int>) returns (e: P)
    requires bus.Valid() && bus.events != null
    requires bus.Live() ==> bus.instance.handlers.Tidy()
    modifies bus.Repr()
    ensures bus.Valid() && bus.events == old(bus.events) && e == if resettable then reset else t
    ensures bus.events.Items() == old(bus.events.Items())
  {
    var trace := bus.DispatchFixed(t, reset, resettable, removing);
    e := bus.GetEvent(created);
  }

  /** A payload handed to `Dispatch` is the one `GetEvent` hands out next: it is never reset,
      even when its type implements `IEventReset`. */
  method DispatchThenGetEvent<P>(bus: Bus<P>, t: P, created: P, removing: set<int>) returns (e: P)
    requires bus.Valid() && bus.instance != null && bus.events != null
    requires bus.Live() ==> bus.instance.handlers.Tidy()
    modifies bus.Repr()
    ensures bus.Valid() && bus.events == old(bus.events) && e == t
    ensures bus.events.Items() == old(bus.events.Items())
  {
    var trace := bus.Dispatch(t, removing);
    e := bus.GetEvent(created);
  }
}
