/** Values that arrive NUL-terminated within their 64 bytes stay below 64 characters in the
    store, over every run, so a handler's failed lookup always means that the key is absent. */
module ValueBound {
  import opened KvTypes
  import opened Chains
  import opened Requests
  import opened AtomicStore
  import Machine
  import Refinement
  import opened Scans

  /** The message of a request that has just been received is NUL-terminated in its field. */
  predicate ShortMessage(p: Prog) {
    (p.InsertLook? || p.UpdateLook?) ==> |p.value| < MAX_VALUE_LEN
  }

  ghost predicate ShortMessages(run: seq<State>) {
    forall y, t | 0 <= y < |run| && 0 <= t < |run[y].threads| :: ShortMessage(run[y].threads[t].prog)
  }

  predicate ShortThread(th: Thread) {
    && ((th.prog.InsertAdd? || th.prog.UpdateAdd?) ==> |th.prog.value| < MAX_VALUE_LEN)
    && th.pc != Return(Err(-ENOSPC))
    && (th.pc.Return? && th.pc.res.Found? ==> |th.pc.res.value| < MAX_VALUE_LEN)
    && (th.prog.Replied? && th.prog.reply.GotValue? ==> |th.prog.reply.value| < MAX_VALUE_LEN)
  }

  ghost predicate ShortState(s: State) {
    && (forall k | k in s.m :: |s.m[k]| < MAX_VALUE_LEN)
    && forall t | 0 <= t < |s.threads| :: ShortThread(s.threads[t])
  }

  lemma {:induction false} ShortStep(g: Geometry, s: State, s': State)
    requires Next(g, s, s') && ShortState(s)
    requires forall t | 0 <= t < |s.threads| :: ShortMessage(s.threads[t].prog)
    ensures ShortState(s')
  {
  }

  lemma {:induction false} ShortRun(g: Geometry, run: seq<State>, n: nat)
    requires Run(g, run) && Init(run[0]) && ShortMessages(run) && n < |run|
    ensures ShortState(run[n])
  {
    if n > 0 {
      ShortRun(g, run, n - 1);
      assert NextAt(g, run, n - 1);
      ShortStep(g, run[n - 1], run[n]);
    }
  }

  ghost predicate TerminatedAt(run: seq<Machine.State>, y: nat) {
    y < |run| && forall t | 0 <= t < |run[y].threads| :: ShortMessage(run[y].threads[t].prog)
  }

  /** Every message of the run was NUL-terminated when it came in. */
  ghost predicate Terminated(run: seq<Machine.State>) {
    forall y: nat | y < |run| :: TerminatedAt(run, y)
  }

  /** In every interleaving: stored values have at most 63 characters, no operation ever
      returns -ENOSPC, and a lookup that fails as it takes effect does so because the key
      is absent at that moment. */
  lemma StoredValuesFit(g: Geometry, run: seq<Machine.State>, n: nat)
    requires Machine.Run(g, run) && n < |run| && Terminated(run)
    ensures forall k | k in Stored(run[n]) :: |Stored(run[n])[k]| < MAX_VALUE_LEN
    ensures forall t | 0 <= t < |run[n].threads| ::
              run[n].threads[t].pc != Machine.Return(Err(-ENOSPC))
              && (run[n].threads[t].pc.Unlock? ==> run[n].threads[t].pc.res != Err(-ENOSPC))
  {
    Refinement.RunRefines(g, run);
    var v := ViewRun(run);
    assert ShortMessages(v) by {
      forall y, t | 0 <= y < |v| && 0 <= t < |v[y].threads| ensures ShortMessage(v[y].threads[t].prog) {
        assert v[y].threads[t] == ViewThread(run[y].threads[t]);
        assert TerminatedAt(run, y);
      }
    }
    ShortRun(g, v, n);
    assert v[n].m == Stored(run[n]);
    forall t | 0 <= t < |run[n].threads|
      ensures run[n].threads[t].pc != Machine.Return(Err(-ENOSPC))
      ensures run[n].threads[t].pc.Unlock? ==> run[n].threads[t].pc.res != Err(-ENOSPC)
    {
      assert ShortThread(v[n].threads[t]);
    }
  }

  /** With values that fit, a failed lookup step is exactly an absent key. */
  lemma FailedLookupMeansAbsent(g: Geometry, run: seq<State>, n: nat, t: nat, k: u64)
    requires Run(g, run) && Init(run[0]) && ShortMessages(run) && n + 1 < |run|
    requires t < |run[n].threads| == |run[n + 1].threads| && OpStep(run[n], run[n + 1], t)
    requires OpOf(run[n].threads[t].prog) == Some(Lookup(k, MAX_VALUE_LEN))
    ensures run[n + 1].threads[t].pc.res.Err? <==> k !in run[n].m
    ensures k in run[n].m ==> run[n + 1].threads[t].pc.res == Found(run[n].m[k])
  {
    ShortRun(g, run, n);
  }
}
