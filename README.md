# Unidirect runtime helpers in Dafny

This project models the small runtime under Unidirect's Unity/MVC binding layer and
proves properties of it. The runtime has four layers, one Dafny module each:

- `Stacks` (`Stacks.dfy`) models `UStack<T>`. It is an array-backed stack that the other
  layers use as an object pool. A push on a full, resizable stack first copies the items
  into a larger array.
- `LinkedLists` (`LinkedLists.dfy`) models `UDLL<T>`. It is a doubly-linked list that
  refuses duplicate values. A value-to-node dictionary finds each value's node, and
  removed nodes are scrubbed and recycled through a `UStack` pool.
  - Nodes live in an arena `seq<Node<T>>`, and `Nil` stands for `null`.
  - The ghost `Chain` and `Contents` are the nodes and values met when walking `Next`
    from `First`.
- `Events` (`Events.dfy`) models the event system:
  - `EventChannel<T>` keeps its listeners in a `UDLL`;
  - `EventBus<T>` (class `Bus`) owns one channel per payload type and a `UStack` of spent
    payloads;
  - the static `EventBus` registry (class `Registry`) lists every channel created.

  Listeners are opaque ids. A dispatch returns the trace of the listeners it called.
- `Coroutines` (`Coroutines.dfy`) models the job scheduler of `CoM`:
  - `CoroutineJob` (class `Job`), whose counters are the value `Countdown`, with
    `Process` proved equal to the function `Step`;
  - the static job pool (class `JobPool`);
  - `_RunJob`, one pass of `_CoroutineLoop`, and `_DisposeAllJobs` (class `Scheduler`).

  A pass is specified by the fate of each job (`Fates`): its state afterwards, the
  callbacks it calls, and whether it is disposed. From these follow the jobs kept in the
  list (`Kept`), the jobs pooled (`Finished`) and the trace of callbacks (`Traced`).

Each model class holds the fields the C# class updates in place, and its methods state
the whole new state. Functions specify what the loops compute, and lemmas relate several
calls. `default(T)` is modelled by a `blank` value given to each list or stack.
`Activator.CreateInstance` is modelled by a fresh object, or by the `created` parameter
for payloads. `Time.deltaTime` is the parameter `dt`.

## Model

| member | source | states |
|---|---|---|
| Stacks.RealRem | Unidirect/Helpers/UStack.cs:107 | C#'s `%` on non-negative floats: the remainder lies in `[0, y)` and leaves a whole number of `y`s. |
| Stacks.ResizeSize | Unidirect/Helpers/UStack.cs:105-110 | The new size computed by `_GetResizeSize` is strictly larger than the old size and at most twice it. |
| Stacks.Grown | Unidirect/Helpers/UStack.cs:107-108 | Truncating `size + rem` and bumping it by one when it did not move gives a size in `(size, 2*size]`. |
| Stacks.DefaultModifierGrowsByOne | Unidirect/Helpers/UStack.cs:20-23 | With the default modifier 2.0 the stack grows by exactly one slot, not twofold as documented. |
| Stacks.HalfModifierGrowsByHalf | Unidirect/Helpers/UStack.cs:105-110 | With the modifier 0.5 that the list and bus pools use, size `n > 1` grows to `n + n/2`, and size 1 grows to 2. |
| Stacks.ScaledSize | Unidirect/Helpers/UStack.cs:20-23 | The growth the `ResizeModifier` comment describes: the size scaled by the modifier, and at least one more slot. |
| Stacks.DefaultModifierDoubles | Unidirect/Helpers/UStack.cs:21 | With the scaled size, the default modifier 2.0 doubles the stack. |
| Stacks.AllocateShortfallThrows | Unidirect/Helpers/UStack.cs:91-97 | A stack of size 2 holding one item cannot allocate 2 slots: the shortfall 1 is passed as the new size, and the copy of 2 slots into 1 throws. |
| Stacks.UStack.constructor | Unidirect/Helpers/UStack.cs:45-52 | A capacity ≤ 0 becomes 1 and a modifier ≤ 0 becomes 0.5. The new stack is empty, with every slot `default`. |
| Stacks.UStack.Count | Unidirect/Helpers/UStack.cs:39 | `Count` is the number of stored items. |
| Stacks.UStack.Available | Unidirect/Helpers/UStack.cs:35 | `Available` is non-negative, and `Count + Available` equals the capacity. |
| Stacks.UStack.IsEmpty | Unidirect/Helpers/UStack.cs:31 | `IsEmpty` holds exactly when no item is stored. |
| Stacks.UStack.IsFull | Unidirect/Helpers/UStack.cs:27 | `IsFull` holds exactly when the count equals the capacity. |
| Stacks.UStack.Push | Unidirect/Helpers/UStack.cs:54-80 | Fails, changing nothing, exactly when the stack is full and not resizable. Otherwise it grows a full stack to `ResizeSize`, keeps every slot and appends the item. |
| Stacks.UStack.Pop | Unidirect/Helpers/UStack.cs:82-85 | Returns the top item and drops it from the items; the slot keeps its value. |
| Stacks.UStack.Allocate | Unidirect/Helpers/UStack.cs:91-97 | With enough free slots nothing changes. Otherwise the new size is the shortfall, and the items and old slots are kept. |
| Stacks.UStack.AllocateFixed | Unidirect/Helpers/UStack.cs:87-97 | `Allocate` as its comment says: afterwards at least `num` slots are free, and the items are kept. |
| Stacks.UStack.Clear | Unidirect/Helpers/UStack.cs:99-102 | Every slot becomes `default`, and the count stays as it was. |
| Stacks.UStack.Resize | Unidirect/Helpers/UStack.cs:113-119 | A fresh array of the new size holds the old slots followed by `default`s. |
| Stacks.PushThenPop | Unidirect/Helpers/UStack.cs:54-85 | A pop right after a push returns the pushed item and gives the items back. |
| Stacks.AllocateLeavesTooFewSlots | Unidirect/Helpers/UStack.cs:91-97 | When `Allocate` resizes the stack and returns, the items are kept but fewer than `num` slots are free afterwards. |
| LinkedLists.EraseMembers | Unidirect/Helpers/UDLL.cs:93-116 | Removing a value from a list without repeats removes exactly that value, and the list still has no repeats. |
| LinkedLists.EraseAppended | Unidirect/Helpers/UDLL.cs:31-44 | Erasing a value just appended gives the list back. |
| LinkedLists.ErasePrepended | Unidirect/Helpers/UDLL.cs:47-60 | Erasing a value just prepended gives the list back. |
| LinkedLists.UDLL.constructor | Unidirect/Helpers/UDLL.cs:24-28 | A new list is empty, with `First == null`, and its pool has the clamped capacity. |
| LinkedLists.UDLL.Count | Unidirect/Helpers/UDLL.cs:20 | `Count` is the number of values in the chain. |
| LinkedLists.UDLL.Contains | Unidirect/Helpers/UDLL.cs:136-139 | The dictionary lookup holds exactly for the values in the chain. |
| LinkedLists.UDLL.GetNode | Unidirect/Helpers/UDLL.cs:119-122 | Returns the top pooled node, popped, or a new scrubbed node when the pool is empty. The chain is unchanged. |
| LinkedLists.UDLL.TryAdd | Unidirect/Helpers/UDLL.cs:63-83 | Refuses a value already present and changes nothing. Otherwise it stores the value in a fresh or pooled node, makes that node `First` and `Last` of an empty list, and records it in the dictionary with the count one higher. |
| LinkedLists.UDLL.AddLast | Unidirect/Helpers/UDLL.cs:31-44 | A duplicate gives `null` and changes nothing. Otherwise the value is appended, its node is `Last`, and the node is the top pooled one when there was one. |
| LinkedLists.UDLL.AddFirst | Unidirect/Helpers/UDLL.cs:47-60 | A duplicate gives `null` and changes nothing. Otherwise the value is prepended and its node is `First`. |
| LinkedLists.UDLL.Release | Unidirect/Helpers/UDLL.cs:125-133 | The node's value leaves the dictionary, the node is scrubbed and pooled, and the count drops by one. |
| LinkedLists.UDLL.Detach | Unidirect/Helpers/UDLL.cs:93-113 | Unlinking keeps the other values in order: chain and contents lose exactly that node and value, and emptying the list sets `First` to `null` but leaves `Last` stale. |
| LinkedLists.UDLL.RemoveNode | Unidirect/Helpers/UDLL.cs:93-116 | Removes a node of the chain from the contents, in order, and pushes it on the pool. |
| LinkedLists.UDLL.Remove | Unidirect/Helpers/UDLL.cs:86-90 | A value not present changes nothing. Otherwise the value is erased and its node pooled. |
| LinkedLists.UDLL.Clear | Unidirect/Helpers/UDLL.cs:141-164 | Count and contents go to zero. Without purging, every walked node is pooled; with purging, the pool's slots become `null`. `First` and `Last` keep their old, scrubbed node, so adding is safe again only after clearing a single value without purging. |
| LinkedLists.UDLL.ClearFixed | Unidirect/Helpers/UDLL.cs:141-164 | `Clear` that also forgets `First` and `Last`: the list is empty, tidy and ready to take values. |
| LinkedLists.UDLL.Dispose | Unidirect/Helpers/UDLL.cs:166-173 | A purging clear, then `First`, `Last`, the pool and the dictionary are dropped. |
| LinkedLists.AddLastThenRemove | Unidirect/Helpers/UDLL.cs:31-44 | `AddLast` of a new value followed by `Remove` of it restores the contents and the pool. |
| LinkedLists.AddFirstThenRemove | Unidirect/Helpers/UDLL.cs:47-60 | `AddFirst` of a new value followed by `Remove` of it restores the contents and the pool. |
| LinkedLists.ClearOneThenAddLast | Unidirect/Helpers/UDLL.cs:36-37 | A one-value list, cleared without purging and then given a new value, holds just that value in the old node, which is `First` and `Last`. |
| Events.Notify | Unidirect/Helpers/EventBus.cs:146-157 | The walk calls every listener present at the start once, in order. Those that take themselves off while called are gone afterwards, in order. |
| Events.EventChannel.constructor | Unidirect/Helpers/EventBus.cs:119 | A new channel has an empty, usable list. |
| Events.EventChannel.Count | Unidirect/Helpers/EventBus.cs:121 | `Count` is the number of listeners, 0 once disposed. |
| Events.EventChannel.Contains | Unidirect/Helpers/EventBus.cs:136-139 | Holds exactly for the listeners of the channel. |
| Events.EventChannel.Add | Unidirect/Helpers/EventBus.cs:126-129 | Appends a new listener; one already present keeps its place. |
| Events.EventChannel.Remove | Unidirect/Helpers/EventBus.cs:131-134 | Erases a present listener; an absent one changes nothing. |
| Events.EventChannel.Clear | Unidirect/Helpers/EventBus.cs:141-144 | No listener is left. After a non-empty clear, `First` is a scrubbed node holding a `null` delegate, and adding is unsafe unless one listener was cleared without purging. |
| Events.EventChannel.Dispatch | Unidirect/Helpers/EventBus.cs:146-157 | Calls every listener once, in order, and removes those that take themselves off. |
| Events.EventChannel.Dispose | Unidirect/Helpers/EventBus.cs:159-164 | The channel is disposed with no listeners. |
| Events.ClearEach | Unidirect/Helpers/EventBus.cs:24-25 | Every channel of the sequence ends with no listeners, each on its own list. |
| Events.DisposeEach | Unidirect/Helpers/EventBus.cs:30-31 | Every channel of the sequence ends disposed. |
| Events.Registry.constructor | Unidirect/Helpers/EventBus.cs:9 | The registry starts empty. |
| Events.Registry.Register | Unidirect/Helpers/EventBus.cs:11-14 | An unknown channel is added once; a known one changes nothing. |
| Events.Registry.Unregister | Unidirect/Helpers/EventBus.cs:16-20 | A known channel is erased; an unknown one changes nothing. |
| Events.Registry.ClearAll | Unidirect/Helpers/EventBus.cs:22-26 | Every registered channel keeps its list and ends with no listeners. |
| Events.Registry.DisposeAll | Unidirect/Helpers/EventBus.cs:28-32 | Every registered channel ends disposed and stays registered, so the registry no longer holds only live channels. |
| Events.Registry.DisposeAllFixed | Unidirect/Helpers/EventBus.cs:28-32 | Every channel ends disposed and the registry ends empty, so a later `ClearAll` or `DisposeALl` is safe. |
| Events.Bus.constructor | Unidirect/Helpers/EventBus.cs:37-38 | No channel yet, and an empty payload pool of capacity 2. |
| Events.Bus.NumListeners | Unidirect/Helpers/EventBus.cs:48 | The live channel's listener count, or 0 without a live channel. |
| Events.Bus.GetEvent | Unidirect/Helpers/EventBus.cs:40-46 | Pops the top pooled payload, or returns the newly created one when the pool is empty. |
| Events.Bus.Open | Unidirect/Helpers/EventBus.cs:109-110 | A fresh empty channel, appended to the registry. |
| Events.Bus.GetChannel | Unidirect/Helpers/EventBus.cs:105-114 | Returns the live channel and leaves the registry alone. Without a live channel, it creates and registers a fresh one. |
| Events.Bus.AddListener | Unidirect/Helpers/EventBus.cs:50-53 | Adds to the live channel, or to a fresh, registered channel when there is none or it was disposed. |
| Events.Bus.RemoveListener | Unidirect/Helpers/EventBus.cs:77-81 | Erases the listener from the live channel; without one nothing changes. |
| Events.Bus.Clear | Unidirect/Helpers/EventBus.cs:83-87 | Clears the live channel; without one nothing changes. |
| Events.Bus.Deliver | Unidirect/Helpers/EventBus.cs:57-58 | Calls the live channel's listeners in order, or nobody without a live channel. |
| Events.Bus.Stow | Unidirect/Helpers/EventBus.cs:63 | The payload is pushed on the pool, and the channel is unchanged. |
| Events.Bus.Dispatch | Unidirect/Helpers/EventBus.cs:55-75 | The live channel's listeners are called in order. The payload is then pushed on the pool as it is, never reset. |
| Events.Bus.DispatchFixed | Unidirect/Helpers/EventBus.cs:55-75 | As `Dispatch`, but a bus without a channel can dispatch, and a resettable payload is pooled reset. |
| Events.Retire | Unidirect/Helpers/EventBus.cs:93-94 | The channel leaves the registry and ends disposed with no listeners. |
| Events.Bus.Dispose | Unidirect/Helpers/EventBus.cs:89-99 | With a live channel, the channel is unregistered, disposed and dropped, and the pool is dropped. Otherwise nothing changes. |
| Events.DispatchThenGetEvent | Unidirect/Helpers/EventBus.cs:60-63 | `GetEvent` right after `Dispatch(t)` returns `t` itself, never reset. |
| Events.DispatchFixedThenGetEvent | Unidirect/Helpers/EventBus.cs:60-63 | With the fixed dispatch, the next `GetEvent` returns the payload, reset when its type asks for it. |
| Coroutines.Dec | Unidirect/Helpers/CoM.cs:330 | C#'s unchecked `--` on an `int`: the 32-bit two's-complement value of `x - 1`, i.e. `(x - 1 - int.MinValue) mod 2^32 + int.MinValue`; so one less above `int.MinValue`, and `int.MaxValue` from `int.MinValue`. |
| Coroutines.Counted | Unidirect/Helpers/CoM.cs:340-344 | `int.MaxValue` stays unbounded, and a positive count drops by one. The result is never negative. |
| Coroutines.Step | Unidirect/Helpers/CoM.cs:317-347 | During a delay only the delay counts down, and nothing fires. Otherwise it fires exactly when both period counters reach ≤ 0. On firing the period restarts and one repeat is used up. It is done exactly when it fires with the count at 0. |
| Coroutines.FramesCountDown | Unidirect/Helpers/CoM.cs:329-338 | A job counting `n` frames fires at the `n`th call and not before, then restarts its period. |
| Coroutines.EveryFrames | Unidirect/Helpers/CoM.cs:280-286 | `InFrames(n)` on a reset job fires every `n`th frame, for ever. |
| Coroutines.DelayFramesSwallowed | Unidirect/Helpers/CoM.cs:319-327 | A start delay of `d` frames swallows `d` calls without firing, then ends. |
| Coroutines.UnsetFiresEveryCall | Unidirect/Helpers/CoM.cs:363-375 | A reset job with neither seconds nor frames fires on every call: an unset dimension never blocks. |
| Coroutines.TimesCountDown | Unidirect/Helpers/CoM.cs:340-344 | A limited repeat count drops by one at each firing and nowhere else, and stops at 0. |
| Coroutines.DoneAtTimesthFiring | Unidirect/Helpers/CoM.cs:340-346 | A job of `Times(k)` is done at its `k`th firing and at no earlier call. |
| Coroutines.SecondsCountDown | Unidirect/Helpers/CoM.cs:329-338 | With a fixed step `dt`, a job counting `n * dt` seconds fires at the `n`th call and not before, then restarts its period. |
| Coroutines.RunAppend | Unidirect/Helpers/CoM.cs:317-347 | Running two batches of calls equals running them together. |
| Coroutines.EveryTwoSecondsThreeTimes | Unidirect/Helpers/CoM.cs:288-300 | `InSeconds(2).Times(3)` called once a second fires at seconds 2, 4 and 6, and is done at the sixth call. |
| Coroutines.Job.constructor | Unidirect/Helpers/CoM.cs:266-271 | A new job is reset, then given its action and pause flag. |
| Coroutines.Job.Set | Unidirect/Helpers/CoM.cs:273-278 | Only the action and the pause flag change. |
| Coroutines.Job.SetPaused | Unidirect/Helpers/CoM.cs:263 | Only the pause flag changes. |
| Coroutines.Job.InFrames | Unidirect/Helpers/CoM.cs:280-286 | The frame period and what is left of it become `frames`; nothing else changes. |
| Coroutines.Job.InSeconds | Unidirect/Helpers/CoM.cs:288-294 | The seconds period and what is left of it become `seconds`; nothing else changes. |
| Coroutines.Job.Times | Unidirect/Helpers/CoM.cs:296-300 | Only the repeat count changes. |
| Coroutines.Job.DelaySeconds | Unidirect/Helpers/CoM.cs:302-307 | Sets the delay seconds. Whether a delay is pending is decided by the seconds alone. |
| Coroutines.Job.DelayFrames | Unidirect/Helpers/CoM.cs:309-314 | Sets the delay frames. Whether a delay is pending is decided by the frames alone. |
| Coroutines.Job.Subscribe | Unidirect/Helpers/CoM.cs:249 | A non-null handler joins the end of `OnComplete`, and `null` changes nothing. |
| Coroutines.Job.Process | Unidirect/Helpers/CoM.cs:317-347 | The counters move exactly as `Step` says, and the result and the call of the action are `Step`'s `done` and `fired`. |
| Coroutines.Job.Reset | Unidirect/Helpers/CoM.cs:363-375 | Every counter is unset, the job is not paused, and there is no action. The `OnComplete` subscribers stay. |
| Coroutines.JobPool.constructor | Unidirect/Helpers/CoM.cs:378 | The pool starts empty. |
| Coroutines.JobPool.Get | Unidirect/Helpers/CoM.cs:380-388 | Pops the top pooled job and sets its action and pause flag, keeping its subscribers. With an empty pool it builds a new job. |
| Coroutines.JobPool.Put | Unidirect/Helpers/CoM.cs:395-399 | The job is reset and pushed. |
| Coroutines.JobPool.Clear | Unidirect/Helpers/CoM.cs:390-393 | The pool is emptied. |
| Coroutines.After | Unidirect/Helpers/CoM.cs:187-191 | A paused job is untouched, and a job that finishes or disposes itself is recycled. Any other job moves on by `Step`, and `OnComplete` is kept. |
| Coroutines.Calls | Unidirect/Helpers/CoM.cs:335-360 | A visit calls the action when it fires, then, when the job is disposed, its `OnComplete` subscribers. A paused job calls nothing. |
| Coroutines.Fates | Unidirect/Helpers/CoM.cs:185-192 | One fate per job of the pass. |
| Coroutines.FateAt | Unidirect/Helpers/CoM.cs:185-192 | The fate of the `i`th job depends on that job's state alone. |
| Coroutines.Kept | Unidirect/Helpers/CoM.cs:185-192 | The jobs a pass keeps come from the jobs visited. |
| Coroutines.Finished | Unidirect/Helpers/CoM.cs:185-192 | The jobs a pass disposes come from the jobs visited. |
| Coroutines.KeptOrFinished | Unidirect/Helpers/CoM.cs:185-192 | Every visited job is kept or disposed, and not both. |
| Coroutines.KeptAt | Unidirect/Helpers/CoM.cs:190-191 | A visited job that does not finish is kept, and one that finishes is disposed. |
| Coroutines.KeptIff | Unidirect/Helpers/CoM.cs:190-191 | After a whole pass, a job is still in the list exactly when its visit did not finish it. |
| Coroutines.Advanced | Unidirect/Helpers/CoM.cs:185-192 | After `n` visits the first `n` jobs hold their fates' states, and the rest are untouched. |
| Coroutines.Unwound | Unidirect/Helpers/CoM.cs:209-213 | The jobs from position `n` on, last first: the order in which `_DisposeAllJobs` disposes them. |
| Coroutines.UnwoundAll | Unidirect/Helpers/CoM.cs:209-213 | Unwinding hands over every job once. |
| Coroutines.Recycling | Unidirect/Helpers/CoM.cs:209-213 | Jobs from position `n` on are recycled, and those before stay. |
| Coroutines.Scheduler.constructor | Unidirect/Helpers/CoM.cs:123-128 | Both lists are empty and the loop is not running. |
| Coroutines.Scheduler.Dispose | Unidirect/Helpers/CoM.cs:349-361 | A job not in the list is left alone, even one waiting for the next frame. Otherwise the job leaves the list and is reset and pooled, and its `OnComplete` subscribers are called. |
| Coroutines.Scheduler.Visit | Unidirect/Helpers/CoM.cs:187-191 | One visit leaves the job as `After` says and calls `Calls`. A job that finishes, or whose action disposes it, leaves the list and is pooled. |
| Coroutines.Scheduler.VisitAt | Unidirect/Helpers/CoM.cs:187-191 | The `k`th visit of a pass changes only that job and, when it finishes, the list and pool. |
| Coroutines.Scheduler.Traverse | Unidirect/Helpers/CoM.cs:182-192 | Visits every job in list order. The list keeps the unfinished ones in order, the finished ones are pooled in order, and the trace is every visit's calls. |
| Coroutines.Scheduler.Merge | Unidirect/Helpers/CoM.cs:195-201 | The waiting jobs join the end of the list in their order, and the waiting list is emptied. |
| Coroutines.Scheduler.Pass | Unidirect/Helpers/CoM.cs:182-201 | The traversal, then the merge. Waiting jobs are not visited in the pass that moves them. |
| Coroutines.Scheduler.Resume | Unidirect/Helpers/CoM.cs:180-206 | An idle loop does nothing. With both lists empty the loop stops; otherwise it makes one more pass. |
| Coroutines.Scheduler.Enqueue | Unidirect/Helpers/CoM.cs:168-171 | The job joins the waiting list or the end of the list, as `skipFrame` says. |
| Coroutines.Scheduler.Start | Unidirect/Helpers/CoM.cs:173 | A new loop makes its first pass at once and is running afterwards; after that pass every job that was in the list holds the state its fate gives it (`Advanced` by `Fates`), and the waiting jobs keep their states. |
| Coroutines.Scheduler.RunJob | Unidirect/Helpers/CoM.cs:166-176 | The job is queued. A running loop leaves every state alone. An idle loop starts and makes its first pass at once over the list with the job appended, unless it waits for the next frame; after that pass each of those jobs holds the state its fate gives it (`Advanced` by `Fates`). |
| Coroutines.Scheduler.DisposeAllJobs | Unidirect/Helpers/CoM.cs:209-213 | Disposes the list from the tail until it is empty. Each job is pooled and recycled, the subscribers are called last job first, and the waiting list is untouched. |
| Coroutines.DisposeTwice | Unidirect/Helpers/CoM.cs:349-352 | A second `Dispose` of a job calls nothing. |

## Left out

- Float arithmetic: job seconds, time steps and `ResizeModifier` are exact reals, with no IEEE rounding, so `(int)` casts truncate exact values.
- The public `ResizeModifier` setter is not modelled: a stack's invariant keeps the modifier above 0, as the constructor leaves it, while the setter could store any value.
- `Push(ref T)` and `Push(T)` are one method, and `Pop` returns the item, not a `ref` into the array, so aliasing through the returned reference is not modelled.
- Stacks.UStack.Pop: popping an empty stack indexes the array at -1 and throws; the model requires a non-empty stack.
- Stacks.UStack.Allocate: requires that the call returns (`AllocateReturns`); the shortfall case in which the copy throws is shown by `AllocateShortfallThrows`.
- LinkedLists.UDLL.constructor: requires a non-negative capacity, since the dictionary's constructor throws on a negative one.
- LinkedLists.UDLL.RemoveNode: requires a node of the chain; removing a foreign or stale node corrupts the list in the source and is not modelled.
- LinkedLists.UDLL.AddLast: requires `CanAdd`, which excludes the corrupted lists a `Clear` of two or more values (or a purging `Clear`) leaves behind; `Clear`'s contract says when that happens. The same holds for AddFirst, TryAdd, GetNode, `EventChannel.Add` and `Bus.AddListener`.
- `UDLLNode<T>`'s public `Prev`, `Next` and `Value` fields, which a client may write, are not modelled.
- Events.EventChannel.Add: requires a non-null listener, since `ContainsKey` throws on a `null` key.
- Events.EventChannel.Dispatch: requires a tidy list, since a stale `First` left by `Clear` holds a `null` delegate whose call throws. Listeners that add listeners, clear the channel or dispatch again during a dispatch are not modelled; the only effect a listener may have is taking itself off (`removing`).
- Events.Bus.Dispatch: requires a channel object (`instance != null`), since `IsEventReset` is read from it unconditionally.
- Events.Bus.GetEvent: requires a payload pool (`events != null`), which `Dispose` drops; the same holds for `Dispatch` and, for a live channel, `Dispose`.
- Events.Registry.ClearAll: requires every registered channel to be live, since clearing a disposed channel throws; DisposeAll requires the same, since disposing one twice throws.
- The registry's dictionary is modelled by its keys as a sequence in insertion order; the .NET enumeration order after removals is not modelled.
- `IsEventReset` is not a member of the model: it is always false (see Findings), and the reset it guards is modelled only in `DispatchFixed`.
- Coroutines.Scheduler.Traverse: a callback may act on the scheduler only by disposing its own job (`quits`). Callbacks that dispose other jobs, call `_RunJob` (so `NextFrame` or `OnceSeconds` from inside a tick), or act through `OnComplete` handlers are not modelled. The same holds for Pass, Resume, Start and RunJob.
- Coroutines.Scheduler.Traverse: requires that no visit calls a `null` action (`Runnable`), since that call throws; the same holds for Pass, Resume, Start and RunJob.
- Coroutines.Job.Process: requires that a firing call has an action, since calling a `null` `_method` throws.
- Coroutines.Scheduler.RunJob: requires a job that is neither in the list nor waiting, since linking a `LinkedListNode` twice throws and a job buffered twice would be merged twice.
- Unity coroutine plumbing is not modelled: `StartCoroutine`/`StopCoroutine`, `_coroutinesMap`, the `Run`/`Stop`/`StopAll` wrappers and the `Singleton<T>` base. The loop is a `running` flag with `Start`/`Resume`, and `Time.deltaTime` is the parameter `dt`.
- The static helpers `OnceSeconds`, `OnceFrames` and `NextFrame` are compositions of `JobPool.Get`, the setters and `RunJob`; they are not separate members.
- `OnComplete -=` and the fluent `ICJob` return values are not modelled; each setter is a method that returns nothing.
- Delegates are opaque ids and their calls are recorded in traces. `Activator.CreateInstance` is a fresh object, or the `created` parameter for payloads.

## Findings

| source | as written | input that shows it | evidently intended | confidence | as-written member | corrected member |
|---|---|---|---|---|---|---|
| Unidirect/Helpers/UStack.cs:91-97 | `Allocate` passes the shortfall `num - Available` to `_Resize` as the new size | a stack of capacity 2 holding one item, `Allocate(2)`: `_Resize(1)` copies 2 slots into an array of 1 and throws | grow so that at least `num` slots are free | high, not executed | Stacks.AllocateShortfallThrows | Stacks.UStack.AllocateFixed |
| Unidirect/Helpers/UStack.cs:107 | `_size + _size * ResizeModifier % _size` | default modifier 2.0, size 4: `4 * 2.0 % 4 == 0`, so the new size is 5 | the documented doubling, size 8 | high, not executed | Stacks.DefaultModifierGrowsByOne | Stacks.ScaledSize |
| Unidirect/Helpers/UDLL.cs:141-164 | `Clear` keeps `First` and `Last`, pointing at scrubbed nodes | a channel with listeners `[a, b]`: `Clear()`, then `Dispatch` calls the `null` delegate held by the stale `First` and throws | `First = Last = null` after clearing | high, not executed | LinkedLists.UDLL.Clear | LinkedLists.UDLL.ClearFixed |
| Unidirect/Helpers/EventBus.cs:124 | `typeof(T) is IEventReset` tests the `Type` object | a payload type implementing `IEventReset`: after `Dispatch(t)`, `GetEvent()` returns `t` un-reset | `typeof(IEventReset).IsAssignableFrom(typeof(T))` | high, not executed | Events.DispatchThenGetEvent | Events.DispatchFixedThenGetEvent |
| Unidirect/Helpers/EventBus.cs:60 | `_instance.IsEventReset` read whether or not a channel exists | `Dispatch(t)` on a payload type nobody listens to, or after `Dispose`: `_instance` is `null` and the call throws | dispatch with no listeners only pools the payload | high, not executed | Events.Bus.Dispatch | Events.Bus.DispatchFixed |
| Unidirect/Helpers/EventBus.cs:28-32 | `DisposeALl` disposes every channel and leaves them registered | `DisposeALl()` then `ClearAll()`: `Clear` on a disposed channel meets `_handlers == null` and throws | disposed channels leave the registry, as in `EventBus<T>.Dispose` | medium, not executed | Events.Registry.DisposeAll | Events.Registry.DisposeAllFixed |
