/** The integer phase shared by both versions of AsyncChainLoader, and the
    decision their performLoad takes from it. */
module Phases {

  const INITIALIZED: int := 0
  const LOADING_SELF: int := INITIALIZED + 1
  const LOADING_CHAIN: int := LOADING_SELF + 1

  /** What one performLoad starts. */
  datatype LoadAction =
    | StartSelf    // forceLoad(): the loader's own background load
    | StartChain   // the chained loader's startLoading()
    | Idle         // nothing

  /** performLoad's decision: below LOADING_SELF it starts its own load;
      below LOADING_CHAIN, and only when there is a chain, it starts the
      chain; otherwise nothing. Either way the phase then goes up by one. */
  function NextAction(phase: int, hasChain: bool): LoadAction
  {
    if phase < LOADING_SELF then StartSelf
    else if phase < LOADING_CHAIN && hasChain then StartChain
    else Idle
  }

  /** The decisions of n consecutive performLoads starting from phase p. */
  function Actions(p: int, n: nat, hasChain: bool): seq<LoadAction>
    decreases n
  {
    if n == 0 then [] else [NextAction(p, hasChain)] + Actions(p + 1, n - 1, hasChain)
  }

  lemma {:induction false} ActionsAt(p: int, n: nat, hasChain: bool, i: nat)
    requires i < n
    ensures |Actions(p, n, hasChain)| == n
    ensures Actions(p, n, hasChain)[i] == NextAction(p + i, hasChain)
    decreases n
  {
    if i == 0 {
      if n > 1 {
        ActionsAt(p + 1, n - 1, hasChain, 0);
      }
    } else {
      ActionsAt(p + 1, n - 1, hasChain, i - 1);
    }
  }

  /** One loading cycle: from INITIALIZED, the first performLoad starts the
      loader's own load, the second starts the chain when there is one, and
      every later one starts nothing until a reset returns the phase to
      INITIALIZED. So within a cycle each load is started at most once. */
  lemma CycleFromInitialized(n: nat, hasChain: bool)
    ensures |Actions(INITIALIZED, n, hasChain)| == n
    ensures forall i :: 0 <= i < n ==>
      Actions(INITIALIZED, n, hasChain)[i] ==
        (if i == 0 then StartSelf else if i == 1 && hasChain then StartChain else Idle)
  {
    if n == 0 {
      assert Actions(INITIALIZED, n, hasChain) == [];
    } else {
      ActionsAt(INITIALIZED, n, hasChain, 0);
    }
    forall i | 0 <= i < n
      ensures Actions(INITIALIZED, n, hasChain)[i] ==
        (if i == 0 then StartSelf else if i == 1 && hasChain then StartChain else Idle)
    {
      ActionsAt(INITIALIZED, n, hasChain, i);
    }
  }
}
