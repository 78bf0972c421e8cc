/** The library AsyncChainLoader (com.docusign.forklift) on values: what its
    background steps compute, how the synchronous path resolves a chain, and
    how a delivery changes the loader's phase, cached data and what its
    consumer sees. The class in ChainLoader keeps its state in these terms. */
module ChainLoaderSpec {
  import opened Lang
  import opened Phases
  import opened FallbackQueueSpec
  import TriState

  /** ChainLoaderException and its two special kinds: the NO_RESULT
      singleton (the loader defers to its chain) and LoadCancelledException. */
  datatype ChainLoaderException = NoResult | LoadCancelled | Failed(message: string)

  type Result<T> = TriState.Result<T, ChainLoaderException>

  /** What a call of doLoad() or onFallbackDelivered(...) does: return a
      value, which may be null, or throw a ChainLoaderException. */
  datatype Attempt<T> = Produced(value: Nullable<T>) | Raised(error: ChainLoaderException)

  /** onFallbackDelivered(data, type) as the function it computes. */
  type Hook<!T> = (Nullable<T>, Nullable<TriState.ResultType>) -> Attempt<T>

  predicate Defers<T>(a: Attempt<T>)
  {
    a.Raised? && a.error == NoResult
  }

  /** The default onFallbackDelivered: hands the chain's value on unchanged. */
  function PassThrough<T>(data: Nullable<T>, kind: Nullable<TriState.ResultType>): (a: Attempt<T>)
    ensures a == Produced(data)
  {
    Produced(data)
  }

  /** A ChainLoaderException caught by the asynchronous steps: NO_RESULT
      becomes a null result, any other becomes failure(e). */
  function Caught<T>(e: ChainLoaderException): (r: Nullable<Result<T>>)
    ensures r.Null? <==> e == NoResult
    ensures r.NonNull? ==> TriState.GetType(r.value) == TriState.FAILURE && TriState.Get(r.value) == Throws(e)
  {
    if e == NoResult then Null else NonNull(TriState.Failure(NonNull(e)))
  }

  /** FallbackDeliveredAsyncTask.doInBackground: a cancelled task produces
      null; otherwise the chain's result is unwrapped with get() and passed
      with its type to onFallbackDelivered, whose value is rewrapped with
      the same type. A null input is a NullPointerException. A failure of
      the chain skips the hook and is passed on, except NO_RESULT, which
      becomes null; the hook sees the chain's type, and its value is
      delivered with that same type. */
  function Reprocess<T>(cancelled: bool, input: Nullable<Result<T>>, hook: Hook<T>): (r: Outcome<Nullable<Result<T>>>)
    ensures cancelled ==> r == Ok(Null)
    ensures !cancelled ==> (r.Raise? <==> input.Null?)
    ensures r.Raise? ==> r.error == NullPointer
    ensures !cancelled && input.NonNull? && TriState.Get(input.value).Throws? ==>
      var e := TriState.Get(input.value).error;
      r.Ok? && (r.value.Null? <==> e == NoResult) &&
      (r.value.NonNull? ==> TriState.GetType(r.value.value) == TriState.FAILURE && TriState.Get(r.value.value) == Throws(e))
    ensures !cancelled && input.NonNull? && TriState.Get(input.value).Returns? ==>
      var h := hook(TriState.Get(input.value).value, NonNull(TriState.GetType(input.value)));
      r.Ok? &&
      (h.Produced? ==> r.value.NonNull? && TriState.Get(r.value.value) == Returns(h.value)
                       && TriState.GetType(r.value.value) == TriState.GetType(input.value)) &&
      (h.Raised? ==> (r.value.Null? <==> h.error == NoResult)) &&
      (h.Raised? && r.value.NonNull? ==> TriState.GetType(r.value.value) == TriState.FAILURE
                                         && TriState.Get(r.value.value) == Throws(h.error))
  {
    if cancelled then Ok(Null)
    else if input.Null? then Raise(NullPointer)
    else
      var data := input.value;
      match TriState.Get(data)
      case Throws(e) => Ok(Caught(e))
      case Returns(v) =>
        match hook(v, NonNull(TriState.GetType(data)))
        case Produced(out) => Ok(NonNull(TriState.New(out, Null, NonNull(TriState.GetType(data))).value))
        case Raised(e) => Ok(Caught(e))
  }

  /** With the default hook, reprocessing hands the chain's result on as it
      came, except that failure(NO_RESULT) is turned into null. */
  lemma PassThroughKeepsResult<T>(input: Result<T>)
    ensures Reprocess(false, NonNull(input), PassThrough) ==
      (if input.exception == NonNull(NoResult) then Ok(Null)
       else if input.exception.NonNull? then Ok(NonNull(TriState.Failure(input.exception)))
       else Ok(NonNull(TriState.Result(input.result, Null, input.kind))))
  {
  }

  /** loadInBackground after the wait for pending reprocessing: doLoad()'s
      value is a success; NO_RESULT is a null result when there is a chain
      and an UnsupportedOperationException when there is none; any other
      ChainLoaderException, cancellation included, is a failure. */
  function LoadInBackground<T>(local: Attempt<T>, hasChain: bool): (r: Outcome<Nullable<Result<T>>>)
    ensures local.Produced? ==>
      (r.Ok? && r.value.NonNull? &&
       TriState.Get(r.value.value) == Returns(local.value) && TriState.GetType(r.value.value) == TriState.COMPLETE)
    ensures Defers(local) ==> r == (if hasChain then Ok(Null) else Raise(UnsupportedOperation))
    ensures local.Raised? && !Defers(local) ==>
      (r.Ok? && r.value.NonNull? &&
       TriState.GetType(r.value.value) == TriState.FAILURE && TriState.Get(r.value.value) == Throws(local.error))
  {
    match local
    case Produced(v) => Ok(NonNull(TriState.Success(v)))
    case Raised(e) =>
      if e == NoResult then (if hasChain then Ok(Null) else Raise(UnsupportedOperation))
      else Ok(Caught(e))
  }

  // ---------------------------------------------------------------------
  // The synchronous path, ACLForklift.getSync

  /** A chain of loaders as the synchronous path sees it: what each one's
      doLoad() does, whether its phase is changed (by a reset) while doLoad()
      runs or while its chain resolves, its onFallbackDelivered, and the next
      loader of the chain, itself an AsyncChainLoader. */
  datatype SyncLoader<!T> = SyncLoader(
    local: Attempt<T>,
    resetDuringLoad: bool,
    hook: Hook<T>,
    chain: Nullable<SyncLoader<T>>,
    resetDuringChain: bool)

  /** How getSync ends: it returns a result, throws LoadCancelledException,
      or throws UnsupportedOperationException. */
  datatype SyncOutcome<T> = Answered(answer: Result<T>) | Cancelled | ContractViolation

  /** The outer catch clauses: LoadCancelledException is rethrown, any other
      ChainLoaderException becomes failure(e). */
  function SyncHandled<T>(e: ChainLoaderException): SyncOutcome<T>
  {
    if e == LoadCancelled then Cancelled else Answered(TriState.Failure(NonNull(e)))
  }

  /** Only a cancellation escapes getSync as an exception; every other
      ChainLoaderException, NO_RESULT included, is answered as a failure
      whose get() throws it. */
  lemma SyncHandledMeaning<T>(e: ChainLoaderException)
    ensures SyncHandled<T>(e).Cancelled? <==> e == LoadCancelled
    ensures SyncHandled<T>(e).Answered? ==>
      TriState.GetType(SyncHandled<T>(e).answer) == TriState.FAILURE && TriState.Get(SyncHandled<T>(e).answer) == Throws(e)
  {
  }

  /** getSync: the loader's own doLoad() answers when it can; on NO_RESULT the
      chain is resolved synchronously, its value is shown to
      onFallbackDelivered (with a null type) and delivered as a success. The
      value onFallbackDelivered returns is not used. */
  function GetSync<T>(l: SyncLoader<T>): (r: SyncOutcome<T>)
    decreases l
    ensures r.Answered? ==> TriState.GetType(r.answer) != TriState.PARTIAL
    ensures r.Answered? ==> TriState.Get(r.answer) != Throws(LoadCancelled)
    ensures l.local.Produced? ==> r == Answered(TriState.Success(l.local.value))
    ensures Defers(l.local) && l.chain.Null? ==> r == ContractViolation
  {
    match l.local
    case Produced(v) => Answered(TriState.Success(v))
    case Raised(e) =>
      if e != NoResult then SyncHandled(e)
      else if l.chain.Null? then ContractViolation
      else if l.resetDuringLoad then Cancelled
      else
        match GetSync(l.chain.value)
        case Cancelled => Cancelled
        case ContractViolation => ContractViolation
        case Answered(inner) =>
          match TriState.Get(inner)
          case Throws(ce) => SyncHandled(ce)
          case Returns(ret) =>
            if l.resetDuringChain then Cancelled
            else
              match l.hook(ret, Null)
              case Produced(_) => Answered(TriState.Success(ret))
              case Raised(he) => SyncHandled(he)
  }

  /** A chain in which no phase changes while it resolves and no
      onFallbackDelivered throws on the value the chain below hands it. */
  predicate Undisturbed<T>(l: SyncLoader<T>)
    decreases l
  {
    !l.resetDuringLoad && !l.resetDuringChain &&
    (l.chain.NonNull? ==> Undisturbed(l.chain.value) && HookAccepts(l.hook, GetSync(l.chain.value)))
  }

  /** onFallbackDelivered does not throw on the value of the chain's answer. */
  predicate HookAccepts<T>(hook: Hook<T>, below: SyncOutcome<T>)
  {
    Yields(below) ==> hook(TriState.Get(below.answer).value, Null).Produced?
  }

  /** getSync ends with a value: its answer's get() returns. */
  predicate Yields<T>(o: SyncOutcome<T>)
  {
    o.Answered? && TriState.Get(o.answer).Returns?
  }

  /** The first loader of the chain whose doLoad() does not defer, or null
      when every loader defers. */
  function Responder<T>(l: SyncLoader<T>): (r: Nullable<SyncLoader<T>>)
    decreases l
    ensures r.NonNull? ==> !Defers(r.value.local)
  {
    if !Defers(l.local) then NonNull(l)
    else if l.chain.Null? then Null
    else Responder(l.chain.value)
  }

  /** What getSync answers for a loader whose doLoad() does not defer. */
  function Answer<T>(a: Attempt<T>): SyncOutcome<T>
  {
    match a
    case Produced(v) => Answered(TriState.Success(v))
    case Raised(e) => SyncHandled(e)
  }

  /** In an undisturbed chain getSync answers with the first loader that does
      not defer: its value as a success, its failure as a failure, or its
      cancellation; every hook above it runs but does not change the answer.
      A chain in which every loader defers ends in
      UnsupportedOperationException. */
  lemma {:induction false} UndisturbedChainAnswersFromResponder<T>(l: SyncLoader<T>)
    requires Undisturbed(l)
    ensures Responder(l).Null? ==> GetSync(l) == ContractViolation
    ensures Responder(l).NonNull? ==> GetSync(l) == Answer(Responder(l).value.local)
    decreases l
  {
    if Defers(l.local) && l.chain.NonNull? {
      var c := l.chain.value;
      UndisturbedChainAnswersFromResponder(c);
      match GetSync(c)
      case Cancelled =>
      case ContractViolation =>
      case Answered(inner) =>
        match TriState.Get(inner)
        case Throws(ce) =>
        case Returns(ret) =>
          assert l.hook(ret, Null).Produced?;
          assert Responder(c).value.local.Produced?;
    }
  }

  /** A reset while the loader's own doLoad() runs cancels the synchronous
      load once it defers to the chain. */
  lemma ResetDuringLoadCancels<T>(l: SyncLoader<T>)
    requires Defers(l.local) && l.chain.NonNull? && l.resetDuringLoad
    ensures GetSync(l) == Cancelled
  {
  }

  /** A reset while the chain resolves cancels the load even when the chain
      produced a value. */
  lemma ResetDuringChainCancels<T>(l: SyncLoader<T>)
    requires Defers(l.local) && l.chain.NonNull? && !l.resetDuringLoad && l.resetDuringChain
    requires GetSync(l.chain.value).Answered? && TriState.Get(GetSync(l.chain.value).answer).Returns?
    ensures GetSync(l) == Cancelled
  {
  }

  /** onFallbackDelivered's return value is discarded on the synchronous
      path: replacing the hook by any other that does not throw gives the
      same answer. */
  lemma SyncDiscardsHookValue<T>(l: SyncLoader<T>, other: Hook<T>)
    requires forall v, k :: l.hook(v, k).Produced? && other(v, k).Produced?
    ensures GetSync(l.(hook := other)) == GetSync(l)
  {
    var m := l.(hook := other);
    assert m.local == l.local && m.chain == l.chain;
    if Defers(l.local) && l.chain.NonNull? && !l.resetDuringLoad {
      match GetSync(l.chain.value)
      case Cancelled =>
      case ContractViolation =>
      case Answered(inner) =>
        match TriState.Get(inner)
        case Throws(ce) =>
        case Returns(ret) =>
          assert l.hook(ret, Null).Produced? && other(ret, Null).Produced?;
    }
  }

  /** The two paths agree on a loader that answers by itself, except for
      cancellation: loadInBackground turns LoadCancelledException into a
      failure, getSync rethrows it. */
  lemma SyncAgreesWithAsyncOnOwnAnswer<T>(l: SyncLoader<T>)
    requires !Defers(l.local)
    ensures l.local != Raised(LoadCancelled) ==>
      LoadInBackground(l.local, l.chain.NonNull?) == Ok(NonNull(GetSync(l).answer))
    ensures l.local == Raised(LoadCancelled) ==>
      GetSync(l) == Cancelled && LoadInBackground(l.local, l.chain.NonNull?).value.NonNull?
  {
  }

  // ---------------------------------------------------------------------
  // Listener registration on the synchronous path

  /** getSync unregisters the loader as its chain's listener just before it
      resolves the chain: once doLoad() deferred, there is a chain and no
      reset intervened. */
  predicate Unregisters<T>(l: SyncLoader<T>)
  {
    Defers(l.local) && l.chain.NonNull? && !l.resetDuringLoad
  }

  /** The registration is restored only after the chain's get() returned a
      value; when the chain's getSync throws, or its get() throws, getSync
      leaves the loader unregistered. */
  predicate LeftDetached<T>(l: SyncLoader<T>)
  {
    Unregisters(l) && !Yields(GetSync(l.chain.value))
  }

  /** A loader that getSync leaves unregistered never answers with a value:
      it is cancelled, breaks the contract or answers a failure. */
  lemma LeftDetachedNeverYields<T>(l: SyncLoader<T>)
    ensures LeftDetached(l) ==> !Yields(GetSync(l))
  {
    if LeftDetached(l) {
      match GetSync(l.chain.value)
      case Cancelled =>
      case ContractViolation =>
      case Answered(inner) =>
        var ce := TriState.Get(inner).error;
        SyncHandledMeaning<T>(ce);
    }
  }

  /** How many loaders of the chain getSync unregisters. */
  function UnregisterCount<T>(l: SyncLoader<T>): nat
    decreases l
  {
    if Unregisters(l) then 1 + UnregisterCount(l.chain.value) else 0
  }

  /** How many loaders of the chain getSync leaves unregistered. */
  function DetachedCount<T>(l: SyncLoader<T>): nat
    decreases l
  {
    if Unregisters(l) then (if LeftDetached(l) then 1 else 0) + DetachedCount(l.chain.value) else 0
  }

  /** In an undisturbed chain, a getSync that answers with a value leaves
      every loader registered again, and one that does not leaves every
      loader it unregistered detached from its chain. */
  lemma {:induction false} UndisturbedDetachment<T>(l: SyncLoader<T>)
    requires Undisturbed(l)
    ensures DetachedCount(l) == (if Yields(GetSync(l)) then 0 else UnregisterCount(l))
    decreases l
  {
    if Unregisters(l) {
      var c := l.chain.value;
      UndisturbedDetachment(c);
      LeftDetachedNeverYields(l);
      if Yields(GetSync(c)) {
        var ret := TriState.Get(GetSync(c).answer).value;
        assert l.hook(ret, Null).Produced?;
        assert GetSync(l) == Answered(TriState.Success(ret));
      }
    }
  }

  // ---------------------------------------------------------------------
  // Phase, cache and consumer

  /** What the loader does that its consumer or its chain can observe. */
  datatype Event<T> =
    | RegisteredWithChain                // m_Chain.registerListener(0, this)
    | ForceLoad                          // forceLoad(): its own background load starts
    | CancelLoad                         // cancelLoad()
    | ChainStartLoading                  // m_Chain.startLoading()
    | ChainReset                         // m_Chain.reset()
    | Delivered(data: Result<T>)         // super.deliverResult: the consumer gets data
    | Released(data: Result<T>)          // onReleaseData(data)
    | Submitted(task: RunnableWrapper)   // a reprocessing task handed to the fallback executor

  /** The phase, the cached result and what has been observed so far. */
  datatype Core<T> = Core(phase: int, data: Nullable<Result<T>>, events: seq<Event<T>>)

  /** The base loader's isStarted(), isReset() and isAbandoned(). */
  datatype Flags = Flags(started: bool, reset: bool, abandoned: bool)

  function LoadEvents<T>(a: LoadAction): seq<Event<T>>
  {
    match a
    case StartSelf => [ForceLoad]
    case StartChain => [ChainStartLoading]
    case Idle => []
  }

  /** releaseData: only a non-null result is released. */
  function Releases<T>(d: Nullable<Result<T>>): seq<Event<T>>
  {
    if d.NonNull? then [Released(d.value)] else []
  }

  /** performLoad: acts as Phases.NextAction decides, then moves the phase on. */
  function PerformLoadSpec<T>(c: Core<T>, hasChain: bool): (r: Core<T>)
    ensures r.phase == c.phase + 1 && r.data == c.data
    ensures r.events == c.events + LoadEvents(NextAction(c.phase, hasChain))
  {
    Core(c.phase + 1, c.data, c.events + LoadEvents(NextAction(c.phase, hasChain)))
  }

  /** The events a run of performLoad decisions produces, in order. */
  function ActionEvents<T>(acts: seq<LoadAction>): seq<Event<T>>
    decreases |acts|
  {
    if acts == [] then [] else LoadEvents(acts[0]) + ActionEvents(acts[1..])
  }

  /** n consecutive performLoads with no other call in between. */
  function PerformLoads<T>(c: Core<T>, hasChain: bool, n: nat): Core<T>
    decreases n
  {
    if n == 0 then c else PerformLoads(PerformLoadSpec(c, hasChain), hasChain, n - 1)
  }

  /** n performLoads take the decisions of Phases.Actions, in order: the
      phase rises by n, the data stays, and the events are those decisions'. */
  lemma {:induction false} PerformLoadsFollowActions<T>(c: Core<T>, hasChain: bool, n: nat)
    ensures PerformLoads(c, hasChain, n) ==
      Core(c.phase + n, c.data, c.events + ActionEvents(Actions(c.phase, n, hasChain)))
    decreases n
  {
    if n == 0 {
      assert Actions(c.phase, n, hasChain) == [];
    } else {
      var next := PerformLoadSpec(c, hasChain);
      PerformLoadsFollowActions(next, hasChain, n - 1);
      var acts := Actions(c.phase, n, hasChain);
      assert acts[0] == NextAction(c.phase, hasChain);
      assert acts[1..] == Actions(c.phase + 1, n - 1, hasChain);
      assert ActionEvents<T>(acts) == LoadEvents(acts[0]) + ActionEvents(acts[1..]);
      assert next.events + ActionEvents(acts[1..]) == c.events + ActionEvents<T>(acts);
    }
  }

  /** From LOADING_CHAIN on, performLoad starts nothing: only the phase
      moves. */
  lemma {:induction false} IdlePastChain<T>(c: Core<T>, hasChain: bool, n: nat)
    requires c.phase >= LOADING_CHAIN
    ensures PerformLoads(c, hasChain, n) == Core(c.phase + n, c.data, c.events)
    decreases n
  {
    if n > 0 {
      var next := PerformLoadSpec(c, hasChain);
      assert next == Core(c.phase + 1, c.data, c.events);
      IdlePastChain(next, hasChain, n - 1);
    }
  }

  /** What one loading cycle starts: the loader's own load on the first
      performLoad, the chain on the second when there is one. */
  function CycleEvents<T>(n: nat, hasChain: bool): seq<Event<T>>
  {
    (if n >= 1 then [ForceLoad] else []) + (if n >= 2 && hasChain then [ChainStartLoading] else [])
  }

  /** From INITIALIZED, any number of performLoads starts the loader's own
      load exactly once (from the first one on) and the chain at most once,
      only when there is a chain and only after the own load; nothing else
      is observed and the cached data stays. */
  lemma CycleStartsEachLoadOnce<T>(c: Core<T>, hasChain: bool, n: nat)
    requires c.phase == INITIALIZED
    ensures PerformLoads(c, hasChain, n) == Core(n, c.data, c.events + CycleEvents(n, hasChain))
  {
    if n >= 1 {
      var first := PerformLoadSpec(c, hasChain);
      assert PerformLoads(c, hasChain, n) == PerformLoads(first, hasChain, n - 1);
      if n >= 2 {
        var second := PerformLoadSpec(first, hasChain);
        assert PerformLoads(first, hasChain, n - 1) == PerformLoads(second, hasChain, n - 2);
        IdlePastChain(second, hasChain, n - 2);
      }
    }
  }

  /** A delivery moves the cycle on only when it is null or COMPLETE. */
  predicate Advances<T>(d: Nullable<Result<T>>)
  {
    d.Null? || TriState.GetType(d.value) == TriState.COMPLETE
  }

  predicate Forwards<T>(f: Flags, d: Nullable<Result<T>>)
  {
    f.started && !f.abandoned && d.NonNull?
  }

  /** deliverResult: nothing on a reset loader; otherwise the result is
      cached, handed to a started, non-abandoned consumer when it is not null
      (the previously cached result is then released), and a null or
      COMPLETE result performs the next load. */
  function DeliverSpec<T>(c: Core<T>, f: Flags, hasChain: bool, d: Nullable<Result<T>>): Core<T>
  {
    if f.reset then c
    else
      var shown := if Forwards(f, d) then [Delivered(d.value)] + Releases(c.data) else [];
      var cached := Core(c.phase, d, c.events + shown);
      if Advances(d) then PerformLoadSpec(cached, hasChain) else cached
  }

  /** A reset loader ignores deliveries entirely. */
  lemma DeliverWhileResetIgnored<T>(c: Core<T>, f: Flags, hasChain: bool, d: Nullable<Result<T>>)
    requires f.reset
    ensures DeliverSpec(c, f, hasChain, d) == c
  {
  }

  /** Otherwise the delivered result is cached; the consumer is handed it
      exactly when the loader is started, not abandoned and the result is not
      null, and only then is the previously cached result released; the
      phase moves on exactly for a null or COMPLETE result, starting what
      performLoad decides. */
  lemma DeliverEffect<T>(c: Core<T>, f: Flags, hasChain: bool, d: Nullable<Result<T>>)
    requires !f.reset
    ensures DeliverSpec(c, f, hasChain, d).data == d
    ensures DeliverSpec(c, f, hasChain, d).phase == (if Advances(d) then c.phase + 1 else c.phase)
    ensures DeliverSpec(c, f, hasChain, d).events ==
      c.events
      + (if Forwards(f, d) then [Delivered(d.value)] + Releases(c.data) else [])
      + (if Advances(d) then LoadEvents(NextAction(c.phase, hasChain)) else [])
  {
  }

  /** On the asynchronous path the chain runs after the loader's own load
      whenever that load did not fail: delivering what loadInBackground
      produced in LOADING_SELF starts the chain for a value and for
      NO_RESULT alike, and only a FAILURE leaves the chain unstarted. */
  lemma OwnLoadThenChain<T>(c: Core<T>, f: Flags, a: Attempt<T>)
    requires !f.reset && c.phase == LOADING_SELF
    ensures LoadInBackground(a, true).Ok?
    ensures var r := DeliverSpec(c, f, true, LoadInBackground(a, true).value);
      r.phase == (if a.Raised? && !Defers(a) then LOADING_SELF else LOADING_CHAIN) &&
      (ChainStartLoading in r.events[|c.events|..] <==> !(a.Raised? && !Defers(a)))
  {
    var d := LoadInBackground(a, true).value;
    DeliverEffect(c, f, true, d);
    var r := DeliverSpec(c, f, true, d);
    var added := (if Forwards(f, d) then [Delivered(d.value)] + Releases(c.data) else []);
    assert r.events[|c.events|..] ==
      added + (if Advances(d) then LoadEvents(NextAction(c.phase, true)) else []);
    assert ChainStartLoading !in added;
  }

  /** The results a consumer has been handed, in order. */
  function Shown<T>(es: seq<Event<T>>): seq<Result<T>>
  {
    if es == [] then []
    else (if es[0].Delivered? then [es[0].data] else []) + Shown(es[1..])
  }

  lemma {:induction false} ShownAppend<T>(a: seq<Event<T>>, b: seq<Event<T>>)
    ensures Shown(a + b) == Shown(a) + Shown(b)
    decreases |a|
  {
    if a == [] {
      assert a + b == b;
    } else {
      assert (a + b)[0] == a[0];
      assert (a + b)[1..] == a[1..] + b;
      ShownAppend(a[1..], b);
    }
  }

  /** Events other than deliveries show the consumer nothing. */
  lemma ShownOnlyDelivered<T>(a: seq<Event<T>>, b: seq<Event<T>>)
    requires forall i :: 0 <= i < |a| ==> !a[i].Delivered?
    requires |b| == 1 && b[0].Delivered?
    ensures Shown(a + b) == [b[0].data]
  {
    ShownAppend(a, b);
    NothingShown(a);
    assert b[1..] == [];
  }

  lemma {:induction false} NothingShown<T>(a: seq<Event<T>>)
    requires forall i :: 0 <= i < |a| ==> !a[i].Delivered?
    ensures Shown(a) == []
    decreases |a|
  {
    if a != [] {
      NothingShown(a[1..]);
    }
  }

  /** The non-null results of a sequence of deliveries. */
  function NonNulls<T>(ds: seq<Nullable<Result<T>>>): seq<Result<T>>
  {
    if ds == [] then [] else (if ds[0].NonNull? then [ds[0].value] else []) + NonNulls(ds[1..])
  }

  /** How many of a sequence of deliveries move the cycle on. */
  function AdvanceCount<T>(ds: seq<Nullable<Result<T>>>): nat
  {
    if ds == [] then 0 else (if Advances(ds[0]) then 1 else 0) + AdvanceCount(ds[1..])
  }

  /** Successive deliveries. */
  function DeliverAll<T>(c: Core<T>, f: Flags, hasChain: bool, ds: seq<Nullable<Result<T>>>): Core<T>
    decreases |ds|
  {
    if ds == [] then c else DeliverAll(DeliverSpec(c, f, hasChain, ds[0]), f, hasChain, ds[1..])
  }

  /** One delivery to a started, non-abandoned consumer shows it exactly
      the result, when that is not null. */
  lemma DeliverShowsOne<T>(c: Core<T>, f: Flags, hasChain: bool, d: Nullable<Result<T>>)
    requires !f.reset && f.started && !f.abandoned
    ensures Shown(DeliverSpec(c, f, hasChain, d).events) == Shown(c.events) + (if d.NonNull? then [d.value] else [])
  {
    DeliverEffect(c, f, hasChain, d);
    var shown: seq<Event<T>> := if Forwards(f, d) then [Delivered(d.value)] + Releases(c.data) else [];
    var started: seq<Event<T>> := if Advances(d) then LoadEvents(NextAction(c.phase, hasChain)) else [];
    assert DeliverSpec(c, f, hasChain, d).events == c.events + shown + started;
    ShownAppend(c.events + shown, started);
    ShownAppend(c.events, shown);
    assert Shown(started) == [] by {
      match NextAction(c.phase, hasChain)
      case StartSelf =>
      case StartChain =>
      case Idle =>
    }
    if d.NonNull? {
      assert Shown(shown) == [d.value] by {
        assert shown == [Delivered(d.value)] + Releases(c.data);
        ShownAppend([Delivered(d.value)], Releases(c.data));
      }
    }
  }

  /** A started, non-abandoned consumer is handed every non-null delivery,
      PARTIAL ones included, in the order they were delivered, and the phase
      moves on once per null or COMPLETE delivery. */
  lemma {:induction false} DeliverAllShowsInOrder<T>(c: Core<T>, f: Flags, hasChain: bool, ds: seq<Nullable<Result<T>>>)
    requires !f.reset && f.started && !f.abandoned
    ensures Shown(DeliverAll(c, f, hasChain, ds).events) == Shown(c.events) + NonNulls(ds)
    ensures DeliverAll(c, f, hasChain, ds).phase == c.phase + AdvanceCount(ds)
    ensures DeliverAll(c, f, hasChain, ds).data == (if ds == [] then c.data else ds[|ds| - 1])
    decreases |ds|
  {
    if ds != [] {
      var c1 := DeliverSpec(c, f, hasChain, ds[0]);
      DeliverShowsOne(c, f, hasChain, ds[0]);
      DeliverAllShowsInOrder(c1, f, hasChain, ds[1..]);
      if |ds| > 1 {
        assert ds[1..][|ds[1..]| - 1] == ds[|ds| - 1];
      }
    }
  }

  /** Re-delivering the cached result, as onStartLoading does, hands it to
      the consumer and then releases that same result while it stays cached. */
  lemma RedeliveryReleasesCachedData<T>(c: Core<T>, f: Flags, hasChain: bool)
    requires !f.reset && f.started && !f.abandoned && c.data.NonNull?
    ensures DeliverSpec(c, f, hasChain, c.data).data == c.data
    ensures DeliverSpec(c, f, hasChain, c.data).events[|c.events| + 1] == Released(c.data.value)
  {
  }
}
