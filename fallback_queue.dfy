/** FallbackDeliveryExecutor.FallbackQueue: the work queue of the executor
    that runs chain loaders' post-delegation work. Items are partitioned by
    owning loader; poll only hands out the head item of an owner that is not
    already running one, which gives at most one item in flight per owner and
    per-owner FIFO order (see FifoPerOwner and NoSecondItemWhileRunning in
    FallbackQueueSpec, which the Apply-shaped postconditions below connect
    to). */
module FallbackDelivery {
  import opened Lang
  import opened FallbackQueueSpec

  /** The items enqueued by adding each Runnable of rs in turn; anything but
      a wrapper adds nothing. */
  function EnqueuedAll(qs: Queues, rs: seq<Runnable>): Queues
    decreases |rs|
  {
    if rs == [] then qs
    else
      var prev := EnqueuedAll(qs, rs[..|rs| - 1]);
      var last := rs[|rs| - 1];
      if last.Wrapped? then Enqueued(prev, last.w) else prev
  }

  /** The queues left after removing each object of os in turn. */
  function RemovedAll(qs: Queues, os: seq<Runnable>): Queues
    decreases |os|
  {
    if os == [] then qs
    else
      var prev := RemovedAll(qs, os[..|os| - 1]);
      var last := os[|os| - 1];
      if last.Wrapped? then Removed(prev, last.w) else prev
  }

  /** The number of wrappers at the front of rs, before the first Runnable
      that is not one. */
  function LeadingWrappers(rs: seq<Runnable>): (k: nat)
    ensures k <= |rs|
    ensures forall i :: 0 <= i < k ==> rs[i].Wrapped?
    ensures k < |rs| ==> rs[k].Plain?
  {
    if rs == [] || rs[0].Plain? then 0 else 1 + LeadingWrappers(rs[1..])
  }

  /** The state of retainAll's walk over the owners: those still in ks are
      untouched, the others are filtered or dropped. */
  ghost predicate RetainedSoFar(q0: Queues, qs: Queues, ks: set<LoaderId>, c: set<Runnable>)
  {
    && qs.Keys <= q0.Keys
    && (forall l :: l in ks ==> l in qs && qs[l] == q0[l])
    && (forall l :: l in q0 && l !in ks ==> (l in qs <==> Kept(q0[l], c) != []))
    && (forall l :: l in qs && l !in ks ==> qs[l] == Kept(q0[l], c))
  }

  /** Filtering one not yet visited owner l keeps the walk's invariant. */
  lemma RetainedStep(q0: Queues, qs: Queues, ks: set<LoaderId>, c: set<Runnable>, l: LoaderId, after: Queues)
    requires RetainedSoFar(q0, qs, ks, c) && ks <= q0.Keys && l in ks
    requires after == if Kept(qs[l], c) == [] then qs - {l} else qs[l := Kept(qs[l], c)]
    ensures RetainedSoFar(q0, after, ks - {l}, c)
  {
  }

  /** Whether some owner already visited (not in ks) has lost an item. */
  ghost predicate LostSoFar(q0: Queues, ks: set<LoaderId>, c: set<Runnable>)
  {
    exists l :: l in q0 && l !in ks && Kept(q0[l], c) != q0[l]
  }

  lemma LostStep(q0: Queues, ks: set<LoaderId>, c: set<Runnable>, l: LoaderId)
    requires l in ks && l in q0
    ensures LostSoFar(q0, ks - {l}, c) <==> LostSoFar(q0, ks, c) || Kept(q0[l], c) != q0[l]
  {
    if LostSoFar(q0, ks - {l}, c) {
      var m :| m in q0 && m !in ks - {l} && Kept(q0[m], c) != q0[m];
      if m != l {
        assert LostSoFar(q0, ks, c);
      }
    }
    if Kept(q0[l], c) != q0[l] {
      assert LostSoFar(q0, ks - {l}, c);
    }
  }

  /** Once every owner has been visited, the walk has computed Retained. */
  lemma RetainedDone(q0: Queues, qs: Queues, c: set<Runnable>)
    requires RetainedSoFar(q0, qs, {}, c)
    ensures qs == Retained(q0, c)
  {
  }

  class FallbackQueue {
    /** mQueues: each owner's pending items, head first. */
    var queues: Queues
    /** mCurrentlyRunning: owners with an item in flight. */
    var running: set<LoaderId>

    ghost predicate Valid()
      reads this
    {
      Wf(queues)
    }

    /** The queue's state in the terms of the step model. */
    ghost function Snapshot(): State
      reads this
    {
      State(queues, running)
    }

    constructor ()
      ensures Valid() && queues == map[] && running == {}
    {
      queues := map[];
      running := {};
    }

    /** getQueue(loader): the owner's queue, created empty if absent. This
        is the one point where an empty queue exists; every caller fills it
        at once. */
    method GetQueue(loader: LoaderId) returns (q: seq<RunnableWrapper>)
      modifies this
      ensures q == QueueOf(old(queues), loader)
      ensures queues == old(queues)[loader := q] && running == old(running)
    {
      if loader in queues {
        q := queues[loader];
      } else {
        q := [];
        queues := queues[loader := q];
      }
    }

    /** The shared body of add, offer and put once the item is known to be
        a wrapper: append it to its owner's queue. */
    method Append(w: RunnableWrapper)
      requires Valid()
      modifies this
      ensures Valid()
      ensures Snapshot() == Apply(old(Snapshot()), Push(w)).0
      ensures Total(queues) == Total(old(queues)) + 1
    {
      ghost var before := queues;
      var q := GetQueue(w.loader);
      queues := queues[w.loader := q + [w]];
      assert queues == Enqueued(before, w);
      EnqueuedWf(before, w);
      TotalEnqueued(before, w);
    }

    /** add(r): a wrapper is appended to the tail of its owner's queue and
        true is returned; anything else is refused with
        UnsupportedOperationException and changes nothing. */
    method Add(r: Runnable) returns (res: Outcome<bool>)
      requires Valid()
      modifies this
      ensures Valid() && running == old(running)
      ensures r.Plain? ==> res == Raise(UnsupportedOperation) && queues == old(queues)
      ensures r.Wrapped? ==> res == Ok(true) && queues == Enqueued(old(queues), r.w)
      ensures r.Wrapped? ==> Total(queues) == Total(old(queues)) + 1
    {
      var checked := CheckWrapped(r);
      if checked.Raise? {
        return Raise(checked.error);
      }
      Append(checked.value);
      res := Ok(true);
    }

    /** offer(r): as add; the queue is unbounded, so it never answers false. */
    method Offer(r: Runnable) returns (res: Outcome<bool>)
      requires Valid()
      modifies this
      ensures Valid() && running == old(running)
      ensures r.Plain? ==> res == Raise(UnsupportedOperation) && queues == old(queues)
      ensures r.Wrapped? ==> res == Ok(true) && queues == Enqueued(old(queues), r.w)
    {
      var checked := CheckWrapped(r);
      if checked.Raise? {
        return Raise(checked.error);
      }
      Append(checked.value);
      res := Ok(true);
    }

    /** put(r): as add, returning nothing. */
    method Put(r: Runnable) returns (res: Outcome<()>)
      requires Valid()
      modifies this
      ensures Valid() && running == old(running)
      ensures r.Plain? ==> res == Raise(UnsupportedOperation) && queues == old(queues)
      ensures r.Wrapped? ==> res == Ok(()) && queues == Enqueued(old(queues), r.w)
    {
      var checked := CheckWrapped(r);
      if checked.Raise? {
        return Raise(checked.error);
      }
      Append(checked.value);
      res := Ok(());
    }

    /** addAll(rs): add each in turn. The first Runnable that is not a
        wrapper throws, after the wrappers before it were added; otherwise
        the answer is whether anything was added. */
    method AddAll(rs: seq<Runnable>) returns (res: Outcome<bool>)
      requires Valid()
      modifies this
      ensures Valid() && running == old(running)
      ensures queues == EnqueuedAll(old(queues), rs[..LeadingWrappers(rs)])
      ensures Total(queues) == Total(old(queues)) + LeadingWrappers(rs)
      ensures res == if LeadingWrappers(rs) < |rs| then Raise(UnsupportedOperation) else Ok(|rs| > 0)
    {
      var changed := false;
      var i := 0;
      while i < |rs|
        invariant 0 <= i <= LeadingWrappers(rs)
        invariant Valid() && running == old(running)
        invariant queues == EnqueuedAll(old(queues), rs[..i])
        invariant Total(queues) == Total(old(queues)) + i
        invariant changed <==> i > 0
      {
        ghost var before := queues;
        var added := Add(rs[i]);
        if added.Raise? {
          assert LeadingWrappers(rs) == i;
          return Raise(added.error);
        }
        assert rs[..i + 1][..i] == rs[..i];
        assert queues == Enqueued(before, rs[i].w);
        changed := changed || added.value;
        i := i + 1;
      }
      res := Ok(changed);
    }

    /** startedRunning: the owner of w is now running. */
    method StartedRunning(w: RunnableWrapper)
      modifies this`running
      ensures running == old(running) + {w.loader}
    {
      running := running + {w.loader};
    }

    /** finishedRunning: the owner of w is no longer running, so its next
        queued item, if any, becomes eligible for poll. */
    method FinishedRunning(w: RunnableWrapper)
      modifies this`running
      ensures Snapshot() == Apply(old(Snapshot()), Finish(w.loader)).0
      ensures w.loader in Eligible(queues, running) <==> w.loader in queues
    {
      running := running - {w.loader};
    }

    /** peek(): the head item of some owner that is not running, or null
        when every owner with pending items is running. Owners are visited
        in the map's own order, which the model leaves open. */
    method Peek() returns (r: Nullable<RunnableWrapper>)
      requires Valid()
      ensures r.Null? <==> Eligible(queues, running) == {}
      ensures r.NonNull? ==> r.value.loader in Eligible(queues, running)
                              && r.value == queues[r.value.loader][0]
    {
      var keys := queues.Keys;
      while keys != {}
        invariant keys <= queues.Keys
        invariant forall l :: l in queues && l !in keys ==> l in running
        decreases keys
      {
        var l :| l in keys;
        if l !in running {
          assert l in Eligible(queues, running);
          return NonNull(queues[l][0]);
        }
        keys := keys - {l};
      }
      return Null;
    }

    /** element(): as peek, but NoSuchElementException instead of null. */
    method Element() returns (r: Outcome<RunnableWrapper>)
      requires Valid()
      ensures r.Raise? <==> Eligible(queues, running) == {}
      ensures r.Raise? ==> r.error == NoSuchElement
      ensures r.Ok? ==> r.value.loader in Eligible(queues, running)
                        && r.value == queues[r.value.loader][0]
    {
      var head := Peek();
      if head.Null? {
        return Raise(NoSuchElement);
      }
      r := Ok(head.value);
    }

    /** poll(): null when every owner with pending items is running;
        otherwise removes the OLDEST item of some owner that is not running
        and marks that owner running. */
    method Poll() returns (r: Nullable<RunnableWrapper>)
      requires Valid()
      modifies this
      ensures Valid()
      ensures r.Null? <==> Eligible(old(queues), old(running)) == {}
      ensures r.Null? ==> queues == old(queues) && running == old(running)
      ensures r.NonNull? ==>
        var l := r.value.loader;
        l in Eligible(old(queues), old(running))
        && r.value == old(queues)[l][0]
        && queues == TakeHead(old(queues), l)
        && running == old(running) + {l}
        && Apply(old(Snapshot()), Take(l)) == (Snapshot(), [r.value])
        && Total(queues) == Total(old(queues)) - 1
    {
      r := Peek();
      if r.NonNull? {
        var l := r.value.loader;
        var rest := queues[l][1..];
        if rest == [] {
          queues := queues - {l};
        } else {
          queues := queues[l := rest];
        }
        TakeHeadWf(old(queues), l);
        TotalTakeHead(old(queues), l);
        StartedRunning(r.value);
      }
    }

    /** remove(): as poll, but NoSuchElementException instead of null. */
    method RemoveHead() returns (r: Outcome<RunnableWrapper>)
      requires Valid()
      modifies this
      ensures Valid()
      ensures r.Raise? <==> Eligible(old(queues), old(running)) == {}
      ensures r.Raise? ==> r.error == NoSuchElement && queues == old(queues) && running == old(running)
      ensures r.Ok? ==>
        var l := r.value.loader;
        l in Eligible(old(queues), old(running))
        && r.value == old(queues)[l][0]
        && queues == TakeHead(old(queues), l)
        && running == old(running) + {l}
    {
      var head := Poll();
      if head.Null? {
        return Raise(NoSuchElement);
      }
      r := Ok(head.value);
    }

    /** remove(o): deletes the first occurrence of o from its owner's queue
        and nothing else, dropping the queue if that empties it; false when
        o is not a wrapper or was not queued. */
    method Remove(o: Runnable) returns (changed: bool)
      requires Valid()
      modifies this
      ensures Valid() && running == old(running)
      ensures changed <==> Queued(old(queues), o)
      ensures o.Plain? ==> queues == old(queues)
      ensures o.Wrapped? ==> queues == Removed(old(queues), o.w)
      ensures Total(queues) == Total(old(queues)) - (if changed then 1 else 0)
    {
      if o.Plain? {
        return false;
      }
      var w := o.w;
      if w.loader !in queues {
        return false;
      }
      var q := queues[w.loader];
      var rest := RemoveFirst(q, w);
      changed := |rest| < |q|;
      if rest == [] {
        queues := queues - {w.loader};
      } else {
        queues := queues[w.loader := rest];
      }
      RemovedWf(old(queues), w);
      TotalRemoved(old(queues), w);
    }

    /** removeAll(os): remove each in turn; true iff anything was removed. */
    method RemoveAll(os: seq<Runnable>) returns (changed: bool)
      requires Valid()
      modifies this
      ensures Valid() && running == old(running)
      ensures queues == RemovedAll(old(queues), os)
      ensures changed <==> Total(queues) < Total(old(queues))
    {
      changed := false;
      for i := 0 to |os|
        invariant Valid() && running == old(running)
        invariant queues == RemovedAll(old(queues), os[..i])
        invariant Total(queues) <= Total(old(queues))
        invariant changed <==> Total(queues) < Total(old(queues))
      {
        var removed := Remove(os[i]);
        assert os[..i + 1][..i] == os[..i];
        changed := changed || removed;
      }
      assert os[..|os|] == os;
    }

    /** retainAll(c): every queue keeps only the items c contains, in order,
        and emptied queues are dropped; true iff some queue lost an item. */
    method RetainAll(c: set<Runnable>) returns (changed: bool)
      requires Valid()
      modifies this
      ensures Valid() && running == old(running)
      ensures queues == Retained(old(queues), c)
      ensures changed <==> exists l :: l in old(queues) && Kept(old(queues)[l], c) != old(queues)[l]
    {
      ghost var q0 := queues;
      var keys := queues.Keys;
      changed := false;
      while keys != {}
        modifies this`queues
        invariant keys <= q0.Keys
        invariant RetainedSoFar(q0, queues, keys, c)
        invariant changed <==> LostSoFar(q0, keys, c)
        decreases keys
      {
        var l :| l in keys;
        ghost var before := queues;
        var kept := Kept(queues[l], c);
        changed := changed || kept != queues[l];
        if kept == [] {
          queues := queues - {l};
        } else {
          queues := queues[l := kept];
        }
        RetainedStep(q0, before, keys, c, l, queues);
        LostStep(q0, keys, c, l);
        keys := keys - {l};
      }
      RetainedDone(q0, queues, c);
      RetainedWf(q0, c);
    }

    /** clear(): every queue goes; the running set is left as it was. */
    method Clear()
      modifies this`queues
      ensures Valid() && queues == map[] && Total(queues) == 0
    {
      queues := map[];
      EmptyIffSizeZero(queues);
    }

    /** size(): the number of pending items over all owners. */
    method Size() returns (n: nat)
      ensures n == Total(queues)
    {
      var keys := queues.Keys;
      n := 0;
      assert Restrict(queues, keys) == queues;
      while keys != {}
        invariant keys <= queues.Keys
        invariant n + Total(Restrict(queues, keys)) == Total(queues)
        decreases keys
      {
        var l :| l in keys;
        TotalRemoveKey(Restrict(queues, keys), l);
        assert Restrict(queues, keys) - {l} == Restrict(queues, keys - {l});
        n := n + |queues[l]|;
        keys := keys - {l};
      }
      assert Restrict(queues, keys) == map[];
    }

    /** isEmpty(): no owner has an entry, which under the no-empty-queue
        invariant is the same as size() being 0. */
    method IsEmpty() returns (e: bool)
      requires Valid()
      ensures e <==> Total(queues) == 0
    {
      e := |queues| == 0;
      EmptyIffSizeZero(queues);
      if !e {
        var l :| l in queues;
      }
    }

    /** remainingCapacity(): the queue is unbounded. */
    method RemainingCapacity() returns (n: int)
      ensures n == INT_MAX
    {
      n := INT_MAX;
    }

    /** contains(o): o is a wrapper queued anywhere, which by the
        partitioning means in its own owner's queue. */
    method Contains(o: Runnable) returns (b: bool)
      requires Valid()
      ensures b <==> o.Wrapped? && exists l :: l in queues && o.w in queues[l]
    {
      if o.Plain? {
        return false;
      }
      if o.w.loader in queues {
        b := o.w in queues[o.w.loader];
      } else {
        b := false;
      }
      assert forall l :: l in queues && o.w in queues[l] ==> l == o.w.loader;
    }

    /** containsAll(c) as the source writes it: the answers of contains are
        OR-ed, so it is true when SOME element is queued. */
    method ContainsAllAsWritten(c: seq<Runnable>) returns (b: bool)
      ensures b == AnyQueued(queues, c)
    {
      b := false;
      for i := 0 to |c|
        invariant b == exists j :: 0 <= j < i && Queued(queues, c[j])
      {
        var one := Queued(queues, c[i]);
        b := b || one;
      }
    }

    /** containsAll(c) as Collection specifies it: true when EVERY element
        is queued. */
    method ContainsAll(c: seq<Runnable>) returns (b: bool)
      ensures b == AllQueued(queues, c)
    {
      b := true;
      for i := 0 to |c|
        invariant b == forall j :: 0 <= j < i ==> Queued(queues, c[j])
      {
        var one := Queued(queues, c[i]);
        b := b && one;
      }
    }
  }
}
