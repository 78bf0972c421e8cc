/** The older com.docusign.dataaccess.AsyncChainLoader, which delivers
    LoaderResult values. It shares the phase logic of the library version
    but hands the chain's results over synchronously, forwards null results
    to its consumer, moves the phase on after every delivery and does not
    ignore deliveries to a reset loader. */
module LegacyChainLoader {
  import opened Lang
  import opened Phases
  import opened LoaderResults
  import ChainLoaderSpec

  type Flags = ChainLoaderSpec.Flags

  /** What the loader does that its consumer or its chain can observe. */
  datatype Event<R, E> =
    | ForceLoad                                  // forceLoad()
    | CancelLoad                                 // cancelLoad()
    | ChainRegisterListener                      // m_Chain.registerListener(0, this)
    | ChainStartLoading                          // m_Chain.startLoading()
    | Delivered(data: Nullable<LoaderResult<R, E>>)   // super.deliverResult, null included
    | Released(released: LoaderResult<R, E>)     // onReleaseData(data)

  datatype Core<R, E> = Core(phase: int, data: Nullable<LoaderResult<R, E>>, events: seq<Event<R, E>>)

  function LoadEvents<R, E>(a: LoadAction): seq<Event<R, E>>
  {
    match a
    case StartSelf => [ForceLoad]
    case StartChain => [ChainRegisterListener, ChainStartLoading]
    case Idle => []
  }

  function Releases<R, E>(d: Nullable<LoaderResult<R, E>>): seq<Event<R, E>>
  {
    if d.NonNull? then [Released(d.value)] else []
  }

  /** performLoad: registers with the chain just before starting it. */
  function PerformLoadSpec<R, E>(c: Core<R, E>, hasChain: bool): (r: Core<R, E>)
    ensures r.phase == c.phase + 1 && r.data == c.data
    ensures r.events == c.events + LoadEvents(NextAction(c.phase, hasChain))
  {
    Core(c.phase + 1, c.data, c.events + LoadEvents(NextAction(c.phase, hasChain)))
  }

  /** The events a run of performLoad decisions produces, in order. */
  function ActionEvents<R, E>(acts: seq<LoadAction>): seq<Event<R, E>>
    decreases |acts|
  {
    if acts == [] then [] else LoadEvents(acts[0]) + ActionEvents(acts[1..])
  }

  /** n consecutive performLoads with no other call in between. */
  function PerformLoads<R, E>(c: Core<R, E>, hasChain: bool, n: nat): Core<R, E>
    decreases n
  {
    if n == 0 then c else PerformLoads(PerformLoadSpec(c, hasChain), hasChain, n - 1)
  }

  /** n performLoads take the decisions of Phases.Actions, in order: the
      phase rises by n, the data stays, and the events are those decisions'. */
  lemma {:induction false} PerformLoadsFollowActions<R, E>(c: Core<R, E>, hasChain: bool, n: nat)
    ensures PerformLoads(c, hasChain, n) ==
      Core(c.phase + n, c.data, c.events + ActionEvents(Actions(c.phase, n, hasChain)))
    decreases n
  {
    if n == 0 {
      assert Actions(c.phase, n, hasChain) == [];
    } else {
      var next := PerformLoadSpec(c, hasChain);
      PerformLoadsFollowActions(next, hasChain, n - 1);
      var acts := Actions(c.phase, n, hasChain);
      assert acts[0] == NextAction(c.phase, hasChain);
      assert acts[1..] == Actions(c.phase + 1, n - 1, hasChain);
      assert ActionEvents<R, E>(acts) == LoadEvents(acts[0]) + ActionEvents(acts[1..]);
      assert next.events + ActionEvents(acts[1..]) == c.events + ActionEvents<R, E>(acts);
    }
  }

  /** From LOADING_CHAIN on, performLoad starts nothing: only the phase
      moves. */
  lemma {:induction false} IdlePastChain<R, E>(c: Core<R, E>, hasChain: bool, n: nat)
    requires c.phase >= LOADING_CHAIN
    ensures PerformLoads(c, hasChain, n) == Core(c.phase + n, c.data, c.events)
    decreases n
  {
    if n > 0 {
      var next := PerformLoadSpec(c, hasChain);
      assert next == Core(c.phase + 1, c.data, c.events);
      IdlePastChain(next, hasChain, n - 1);
    }
  }

  /** What one loading cycle starts: the loader's own load on the first
      performLoad, and on the second, when there is a chain, registration
      with the chain followed by the chain's start. */
  function CycleEvents<R, E>(n: nat, hasChain: bool): seq<Event<R, E>>
  {
    (if n >= 1 then [ForceLoad] else []) +
    (if n >= 2 && hasChain then [ChainRegisterListener, ChainStartLoading] else [])
  }

  /** From INITIALIZED, any number of performLoads starts the loader's own
      load exactly once (from the first one on), and registers with and
      starts the chain at most once, only when there is a chain and only
      after the own load; nothing else is observed and the data stays. */
  lemma CycleStartsEachLoadOnce<R, E>(c: Core<R, E>, hasChain: bool, n: nat)
    requires c.phase == INITIALIZED
    ensures PerformLoads(c, hasChain, n) == Core(n, c.data, c.events + CycleEvents(n, hasChain))
  {
    if n >= 1 {
      var first := PerformLoadSpec(c, hasChain);
      assert PerformLoads(c, hasChain, n) == PerformLoads(first, hasChain, n - 1);
      if n >= 2 {
        var second := PerformLoadSpec(first, hasChain);
        assert PerformLoads(first, hasChain, n - 1) == PerformLoads(second, hasChain, n - 2);
        IdlePastChain(second, hasChain, n - 2);
      }
    }
  }

  /** deliverResult: a reset loader releases the delivered result but goes on;
      the result is cached, handed (even when null) to a started,
      non-abandoned consumer, the previous result is released, and the next
      load is performed. */
  function DeliverSpec<R, E>(c: Core<R, E>, f: Flags, hasChain: bool, d: Nullable<LoaderResult<R, E>>): Core<R, E>
  {
    var released := if f.reset then Releases(d) else [];
    var shown := if f.started && !f.abandoned then [Delivered(d)] else [];
    PerformLoadSpec(Core(c.phase, d, c.events + released + shown + Releases(c.data)), hasChain)
  }

  /** Every delivery is cached and moves the cycle on, whatever the flags and
      whether or not it is null; the previous result is always released. */
  lemma DeliverAlwaysAdvances<R, E>(c: Core<R, E>, f: Flags, hasChain: bool, d: Nullable<LoaderResult<R, E>>)
    ensures DeliverSpec(c, f, hasChain, d).data == d
    ensures DeliverSpec(c, f, hasChain, d).phase == c.phase + 1
    ensures c.data.NonNull? ==> Released(c.data.value) in DeliverSpec(c, f, hasChain, d).events
    ensures f.started && !f.abandoned ==> Delivered(d) in DeliverSpec(c, f, hasChain, d).events
  {
    var released := if f.reset then Releases(d) else [];
    var shown := if f.started && !f.abandoned then [Delivered(d)] else [];
    var es := c.events + released + shown + Releases(c.data);
    assert DeliverSpec(c, f, hasChain, d).events == es + LoadEvents(NextAction(c.phase, hasChain));
    if c.data.NonNull? {
      assert es[|es| - 1] == Released(c.data.value);
    }
    if f.started && !f.abandoned {
      assert es[|c.events| + |released|] == Delivered(d);
    }
  }

  /** A delivery to a reset loader releases the result and still caches it,
      where the library version ignores such a delivery altogether. */
  lemma ResetDeliveryCachesReleasedData<R, E>(c: Core<R, E>, f: Flags, hasChain: bool, d: LoaderResult<R, E>)
    requires f.reset
    ensures DeliverSpec(c, f, hasChain, NonNull(d)).data == NonNull(d)
    ensures DeliverSpec(c, f, hasChain, NonNull(d)).events[|c.events|] == Released(d)
  {
  }

  class AsyncChainLoader<R, E> {
    /** This loader's identity as its chain sees it. */
    const self: nat
    /** m_Chain, or null. */
    const chain: Nullable<nat>
    /** The subclass's onFallbackDelivered(data). */
    const onFallbackDelivered: Nullable<LoaderResult<R, E>> -> Nullable<LoaderResult<R, E>>

    var state: int                              // m_State
    var data: Nullable<LoaderResult<R, E>>      // m_Data
    var started: bool                           // isStarted()
    var reset: bool                             // isReset()
    var abandoned: bool                         // isAbandoned()
    var events: seq<Event<R, E>>

    ghost predicate Valid()
      reads this
    {
      state >= INITIALIZED
    }

    function Snapshot(): Core<R, E>
      reads this
    {
      Core(state, data, events)
    }

    function Status(): Flags
      reads this
    {
      ChainLoaderSpec.Flags(started, reset, abandoned)
    }

    /** The constructor stores the chain and starts in INITIALIZED; unlike
        the library version it does not register with the chain yet. */
    constructor(self: nat, chain: Nullable<nat>,
                onFallbackDelivered: Nullable<LoaderResult<R, E>> -> Nullable<LoaderResult<R, E>>)
      ensures Valid()
      ensures this.self == self && this.chain == chain && this.onFallbackDelivered == onFallbackDelivered
      ensures state == INITIALIZED && data.Null? && events == []
      ensures !started && reset && !abandoned
    {
      this.self := self;
      this.chain := chain;
      this.onFallbackDelivered := onFallbackDelivered;
      state := INITIALIZED;
      data := Null;
      started := false;
      reset := true;
      abandoned := false;
      events := [];
    }

    /** performLoad. */
    method PerformLoad()
      requires Valid()
      modifies this`state, this`events
      ensures Valid()
      ensures Snapshot() == PerformLoadSpec(old(Snapshot()), chain.NonNull?)
    {
      if state < LOADING_SELF {
        events := events + [ForceLoad];
      } else if state < LOADING_CHAIN && chain.NonNull? {
        events := events + [ChainRegisterListener, ChainStartLoading];
      }
      state := state + 1;
    }

    /** deliverResult. */
    method DeliverResult(d: Nullable<LoaderResult<R, E>>)
      requires Valid()
      modifies this`state, this`data, this`events
      ensures Valid()
      ensures Snapshot() == DeliverSpec(old(Snapshot()), old(Status()), chain.NonNull?, d)
    {
      ghost var before := Snapshot();
      ghost var released := if reset then Releases(d) else [];
      ghost var shown := if started && !abandoned then [Delivered(d)] else [];
      if reset {
        events := events + Releases(d);
      }
      assert events == before.events + released;
      var oldData := data;
      data := d;
      if started && !abandoned {
        events := events + [Delivered(data)];
      }
      assert events == before.events + released + shown;
      events := events + Releases(oldData);
      assert Snapshot() == Core(before.phase, d, before.events + released + shown + Releases(before.data));
      PerformLoad();
    }

    /** onStartLoading: re-delivers the cached result, if any, then performs
        the next load. */
    method OnStartLoading()
      requires Valid()
      modifies this`state, this`data, this`events
      ensures Valid()
      ensures Snapshot() == PerformLoadSpec(
        if old(data).NonNull? then DeliverSpec(old(Snapshot()), old(Status()), chain.NonNull?, old(data))
        else old(Snapshot()),
        chain.NonNull?)
    {
      if data.NonNull? {
        DeliverResult(data);
      }
      PerformLoad();
    }

    /** onReset: cancels the load, releases and forgets the cached result
        and returns to INITIALIZED; the chain is left alone. */
    method OnReset()
      modifies this`state, this`data, this`events
      ensures Valid()
      ensures state == INITIALIZED && data.Null?
      ensures events == old(events) + [CancelLoad] + Releases(old(data))
    {
      events := events + [CancelLoad];
      events := events + Releases(data);
      data := Null;
      state := INITIALIZED;
    }

    /** onAbandon. */
    method OnAbandon()
      modifies this`events
      ensures events == old(events) + [CancelLoad]
    {
      events := events + [CancelLoad];
    }

    /** onCanceled: the cancelled load's result is released. */
    method OnCanceled(d: Nullable<LoaderResult<R, E>>)
      modifies this`events
      ensures events == old(events) + Releases(d)
    {
      events := events + Releases(d);
    }

    /** onLoadComplete: only the chain may call back; its result goes through
        onFallbackDelivered and is delivered at once, whether or not the
        loader is started. */
    method OnLoadComplete(from: Nullable<nat>, d: Nullable<LoaderResult<R, E>>) returns (res: Outcome<()>)
      requires Valid()
      modifies this`state, this`data, this`events
      ensures Valid()
      ensures res.Raise? <==> from != chain
      ensures res.Raise? ==> res.error == UnsupportedOperation && unchanged(this)
      ensures res.Ok? ==>
        Snapshot() == DeliverSpec(old(Snapshot()), old(Status()), chain.NonNull?, onFallbackDelivered(d))
    {
      if from != chain {
        return Raise(UnsupportedOperation);
      }
      DeliverResult(onFallbackDelivered(d));
      res := Ok(());
    }
  }
}
