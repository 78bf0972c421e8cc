/** The library AsyncChainLoader (com.docusign.forklift) as an object: its
    phase, cached result and pending reprocessing tasks, updated in place by
    the loader callbacks. Each method is specified by the value-level
    functions of ChainLoaderSpec. */
module ChainLoader {
  import opened Lang
  import opened Phases
  import opened FallbackQueueSpec
  import opened ChainLoaderSpec
  import TriState

  /** A FallbackDeliveredAsyncTask: its identity, the chain's result it was
      executed with, and whether cancel(false) has been called on it. */
  datatype FallbackTask<T> = FallbackTask(id: nat, input: Nullable<Result<T>>, cancelled: bool)

  predicate IdsIncreasing<T>(ts: seq<FallbackTask<T>>)
  {
    forall i, j :: 0 <= i < j < |ts| ==> ts[i].id < ts[j].id
  }

  class AsyncChainLoader<T> {
    /** This loader's identity; the fallback executor queues its tasks
        under it. */
    const self: LoaderId
    /** m_Chain, or null. */
    const chain: Nullable<LoaderId>
    /** The subclass's onFallbackDelivered. */
    const onFallbackDelivered: Hook<T>

    var state: int                       // m_State
    var data: Nullable<Result<T>>        // m_Data
    var tasks: seq<FallbackTask<T>>      // mFallbackDeliveredTasks
    var nextTask: nat                    // identity of the next task created
    var started: bool                    // the base loader's isStarted()
    var reset: bool                      // isReset()
    var abandoned: bool                  // isAbandoned()
    var events: seq<Event<T>>            // what has been observed so far

    ghost predicate Valid()
      reads this
    {
      state >= INITIALIZED &&
      IdsIncreasing(tasks) &&
      (forall i :: 0 <= i < |tasks| ==> tasks[i].id < nextTask)
    }

    function Snapshot(): Core<T>
      reads this
    {
      Core(state, data, events)
    }

    function Status(): Flags
      reads this
    {
      Flags(started, reset, abandoned)
    }

    /** A new loader starts in phase INITIALIZED with no data and no tasks,
        registers itself as its chain's listener, and (as every loader)
        is reset and not started. */
    constructor(self: LoaderId, chain: Nullable<LoaderId>, onFallbackDelivered: Hook<T>)
      ensures Valid()
      ensures this.self == self && this.chain == chain && this.onFallbackDelivered == onFallbackDelivered
      ensures state == INITIALIZED && data.Null? && tasks == [] && nextTask == 0
      ensures !started && reset && !abandoned
      ensures events == (if chain.NonNull? then [RegisteredWithChain] else [])
    {
      this.self := self;
      this.chain := chain;
      this.onFallbackDelivered := onFallbackDelivered;
      state := INITIALIZED;
      data := Null;
      tasks := [];
      nextTask := 0;
      started := false;
      reset := true;
      abandoned := false;
      events := if chain.NonNull? then [RegisteredWithChain] else [];
    }

    /** performLoad. */
    method PerformLoad()
      requires Valid()
      modifies this`state, this`events
      ensures Valid()
      ensures Snapshot() == PerformLoadSpec(old(Snapshot()), chain.NonNull?)
    {
      if state < LOADING_SELF {
        events := events + [ForceLoad];
      } else if state < LOADING_CHAIN && chain.NonNull? {
        events := events + [ChainStartLoading];
      }
      state := state + 1;
    }

    /** deliverResult. */
    method DeliverResult(d: Nullable<Result<T>>)
      requires Valid()
      modifies this`state, this`data, this`events
      ensures Valid()
      ensures Snapshot() == DeliverSpec(old(Snapshot()), old(Status()), chain.NonNull?, d)
    {
      if reset {
        return;
      }
      ghost var before := Snapshot();
      ghost var shown := if Forwards(Status(), d) then [Delivered(d.value)] + Releases(data) else [];
      var oldData := data;
      data := d;
      if started && !abandoned && data.NonNull? {
        events := events + [Delivered(data.value)];
        events := events + Releases(oldData);
      }
      assert Snapshot() == Core(before.phase, d, before.events + shown);
      if d.Null? || TriState.GetType(d.value) == TriState.COMPLETE {
        PerformLoad();
      }
    }

    /** onStartLoading: re-delivers the cached result, if any, then performs
        the next load. */
    method OnStartLoading()
      requires Valid()
      modifies this`state, this`data, this`events
      ensures Valid()
      ensures Snapshot() == PerformLoadSpec(
        if old(data).NonNull? then DeliverSpec(old(Snapshot()), old(Status()), chain.NonNull?, old(data))
        else old(Snapshot()),
        chain.NonNull?)
    {
      if data.NonNull? {
        DeliverResult(data);
      }
      PerformLoad();
    }

    /** onReset: cancels its own load, releases and forgets the cached
        result, returns to INITIALIZED, resets the chain and cancels every
        pending reprocessing task (which stay listed until they finish). */
    method OnReset()
      requires Valid()
      modifies this`state, this`data, this`events, this`tasks
      ensures Valid()
      ensures state == INITIALIZED && data.Null?
      ensures events == old(events) + [CancelLoad] + Releases(old(data))
                        + (if chain.NonNull? then [ChainReset] else [])
      ensures |tasks| == |old(tasks)|
      ensures forall i :: 0 <= i < |tasks| ==> tasks[i] == old(tasks[i]).(cancelled := true)
    {
      events := events + [CancelLoad];
      events := events + Releases(data);
      data := Null;
      state := INITIALIZED;
      if chain.NonNull? {
        events := events + [ChainReset];
      }
      var i := 0;
      while i < |tasks|
        modifies this`tasks
        invariant 0 <= i <= |tasks| == |old(tasks)|
        invariant forall j :: 0 <= j < |tasks| ==>
          tasks[j] == if j < i then old(tasks[j]).(cancelled := true) else old(tasks[j])
      {
        tasks := tasks[i := tasks[i].(cancelled := true)];
        i := i + 1;
      }
    }

    /** onAbandon. */
    method OnAbandon()
      modifies this`events
      ensures events == old(events) + [CancelLoad]
    {
      events := events + [CancelLoad];
    }

    /** onCanceled: the cancelled load's result is released. */
    method OnCanceled(d: Nullable<Result<T>>)
      modifies this`events
      ensures events == old(events) + Releases(d)
    {
      events := events + Releases(d);
    }

    /** onLoadComplete: only the chain may call back; a result arriving while
        the loader is not started is dropped; otherwise a reprocessing task
        is created and handed to the fallback executor under this loader's
        identity, so the chain's results are reprocessed one at a time and
        in order. */
    method OnLoadComplete(from: Nullable<LoaderId>, d: Nullable<Result<T>>) returns (res: Outcome<()>)
      requires Valid()
      modifies this`tasks, this`nextTask, this`events
      ensures Valid()
      ensures res.Raise? <==> from != chain
      ensures res.Raise? ==> res.error == UnsupportedOperation
      ensures res.Raise? || !started ==> unchanged(this)
      ensures res.Ok? && started ==>
        tasks == old(tasks) + [FallbackTask(old(nextTask), d, false)] &&
        nextTask == old(nextTask) + 1 &&
        events == old(events) + [Submitted(RunnableWrapper(old(nextTask), self, old(nextTask)))]
    {
      if from != chain {
        return Raise(UnsupportedOperation);
      }
      if !started {
        return Ok(());
      }
      var t := FallbackTask(nextTask, d, false);
      tasks := tasks + [t];
      events := events + [Submitted(RunnableWrapper(nextTask, self, nextTask))];
      nextTask := nextTask + 1;
      res := Ok(());
    }

    /** removeTask. */
    method RemoveTask(k: nat)
      requires Valid() && k < |tasks|
      modifies this`tasks
      ensures Valid()
      ensures tasks == old(tasks[..k] + tasks[k + 1..])
    {
      tasks := tasks[..k] + tasks[k + 1..];
      forall i, j | 0 <= i < j < |tasks|
        ensures tasks[i].id < tasks[j].id
      {
        var i0 := if i < k then i else i + 1;
        var j0 := if j < k then j else j + 1;
        assert tasks[i] == old(tasks[i0]) && tasks[j] == old(tasks[j0]);
      }
    }

    /** One reprocessing task run to its end: doInBackground, then
        onPostExecute (deliver, then remove) or, for a cancelled task,
        onCancelled (remove only). doInBackground failing on a null input
        ends the task with that exception and changes nothing. */
    method RunFallbackTask(k: nat) returns (res: Outcome<()>)
      requires Valid() && k < |tasks|
      modifies this`state, this`data, this`events, this`tasks
      ensures Valid()
      ensures
        var t := old(tasks[k]);
        var out := Reprocess(t.cancelled, t.input, onFallbackDelivered);
        (out.Raise? ==> res == Raise(out.error) && unchanged(this)) &&
        (out.Ok? ==> res == Ok(()) && tasks == old(tasks[..k] + tasks[k + 1..])) &&
        (out.Ok? && t.cancelled ==> Snapshot() == old(Snapshot())) &&
        (out.Ok? && !t.cancelled ==>
          Snapshot() == DeliverSpec(old(Snapshot()), old(Status()), chain.NonNull?, out.value))
    {
      var t := tasks[k];
      var out := Reprocess(t.cancelled, t.input, onFallbackDelivered);
      if out.Raise? {
        return Raise(out.error);
      }
      if !t.cancelled {
        DeliverResult(out.value);
      }
      RemoveTask(k);
      res := Ok(());
    }

    /** The base Loader's startLoading(): started, neither reset nor
        abandoned, then onStartLoading. */
    method StartLoading()
      requires Valid()
      modifies this
      ensures Valid()
      ensures started && !reset && !abandoned
      ensures tasks == old(tasks) && nextTask == old(nextTask)
      ensures Snapshot() == PerformLoadSpec(
        if old(data).NonNull? then DeliverSpec(old(Snapshot()), Flags(true, false, false), chain.NonNull?, old(data))
        else old(Snapshot()),
        chain.NonNull?)
    {
      started := true;
      reset := false;
      abandoned := false;
      OnStartLoading();
    }

    /** The base Loader's reset(): onReset, then reset and not started. */
    method Reset()
      requires Valid()
      modifies this
      ensures Valid()
      ensures reset && !started && !abandoned
      ensures state == INITIALIZED && data.Null?
      ensures events == old(events) + [CancelLoad] + Releases(old(data))
                        + (if chain.NonNull? then [ChainReset] else [])
      ensures |tasks| == |old(tasks)|
      ensures forall i :: 0 <= i < |tasks| ==> tasks[i] == old(tasks[i]).(cancelled := true)
      ensures nextTask == old(nextTask)
    {
      OnReset();
      reset := true;
      started := false;
      abandoned := false;
    }
  }

  /** onFallbackDelivered of the delegation example: doubles the value. */
  function Doubling(v: Nullable<int>, k: Nullable<TriState.ResultType>): (a: Attempt<int>)
    ensures v.NonNull? ==> a == Produced(NonNull(2 * v.value))
  {
    if v.NonNull? then Produced(NonNull(2 * v.value)) else Produced(Null)
  }

  /** The events of the delegation example before the chain's result is
      reprocessed: registration, the own load, the chain's start and the
      reprocessing task's submission. */
  function DelegationHead(): seq<Event<int>>
  {
    [RegisteredWithChain, ForceLoad, ChainStartLoading, Submitted(RunnableWrapper(0, 1, 0))]
  }

  /** After the delegation example the consumer has been shown only the
      reprocessed result. */
  lemma DelegationShown(out: Result<int>)
    ensures Shown(DelegationHead() + [Delivered(out)]) == [out]
  {
    var head := DelegationHead();
    forall i | 0 <= i < |head|
      ensures !head[i].Delivered?
    {
    }
    ShownOnlyDelivered(head, [Delivered(out)]);
  }

  /** A started loader with a chain whose own load has deferred: the chain
      has been started and the loader waits for its result. */
  method StartDeferring() returns (a: AsyncChainLoader<int>)
    ensures fresh(a) && a.Valid()
    ensures a.self == 1 && a.chain == NonNull(2) && a.onFallbackDelivered == Doubling
    ensures a.Snapshot() == Core(LOADING_CHAIN, Null, DelegationHead()[..3])
    ensures a.Status() == Flags(true, false, false)
    ensures a.tasks == [] && a.nextTask == 0
  {
    a := new AsyncChainLoader<int>(1, NonNull(2), Doubling);
    a.StartLoading();
    assert a.state == LOADING_SELF && a.events == [RegisteredWithChain, ForceLoad];
    var own := LoadInBackground(Raised(NoResult), true);
    a.DeliverResult(own.value);
    assert a.events == DelegationHead()[..3];
  }

  /** A loader whose own load defers to its chain, the chain answering
      success(42) and the hook doubling it: the consumer is handed
      success(84) and nothing else, and the cycle ends idle. */
  method DelegationExample() returns (shown: seq<Result<int>>, phase: int)
    ensures shown == [TriState.Success(NonNull(84))]
    ensures phase == LOADING_CHAIN + 1
  {
    var a := StartDeferring();
    var fromChain: Result<int> := TriState.Success(NonNull(42));
    var r := a.OnLoadComplete(NonNull(2), NonNull(fromChain));
    ghost var head := DelegationHead();
    assert a.tasks == [FallbackTask(0, NonNull(fromChain), false)];
    assert a.Snapshot() == Core(LOADING_CHAIN, Null, head);
    var out: Result<int> := TriState.Success(NonNull(84));
    assert TriState.Get(fromChain) == Returns(NonNull(42)) && TriState.GetType(fromChain) == TriState.COMPLETE;
    assert Reprocess(false, NonNull(fromChain), Doubling) == Ok(NonNull(out));
    r := a.RunFallbackTask(0);
    assert a.Snapshot() == Core(LOADING_CHAIN + 1, NonNull(out), head + [Delivered(out)]);
    DelegationShown(out);
    shown := Shown(a.events);
    phase := a.state;
  }
}
