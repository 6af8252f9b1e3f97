/** kv_hash.c as interleaved steps: any number of threads, one lock per bucket, and one
    node visited, stored, linked or unlinked per step. */
module Machine {
  import opened KvTypes
  import opened Chains
  import opened ChainMemory
  import opened Requests

  type Tid = nat

  datatype Pc =
    | Idle
    | Wait                                          // spinning on the bucket lock
    | Walk(b: nat, cur: Ptr)                        // inside the lock, about to look at cur
    | Unlock(b: nat, res: Result)
    | ScanWait(b: nat, acc: Acc)
    | ScanWalk(b: nat, cur: Ptr, acc: Acc, base: Acc)  // base: acc when the bucket was entered
    | ScanUnlock(b: nat, acc: Acc)
    | Return(res: Result)

  datatype Thread = Thread(prog: Prog, pc: Pc)

  datatype State = State(heap: Heap, locks: seq<Option<Tid>>, threads: seq<Thread>)

  ghost predicate Init(g: Geometry, s: State) {
    && s.heap == Heap(seq(g.n, b => NULL), map[])
    && s.locks == seq(g.n, b => None)
    && forall t | 0 <= t < |s.threads| :: s.threads[t] == Thread(Ready, Idle)
  }

  // ---- steps of a thread that touch no shared state ----

  ghost predicate ClientStep(th: Thread, th': Thread) {
    || (th.pc.Idle? && th'.pc.Idle? && th.prog.Ready? && exists r: Request :: th'.prog == Begin(r))
    || (th.pc.Idle? && th'.pc.Idle? && th.prog.Replied? && th'.prog.Ready?)
    || (th.pc.Return? && th'.pc.Idle? && Resumes(th.prog, th.pc.res, th'.prog))
  }

  /** Enter kv_hash: kv_hash_add copies the value first, and that allocation may fail. */
  predicate CallStep(th: Thread, th': Thread) {
    && th.pc.Idle? && OpOf(th.prog).Some? && th'.prog == th.prog
    && var op := OpOf(th.prog).value;
       || (Keyed(op) && th'.pc == Wait)
       || (op.Add? && th'.pc == Return(Err(-ENOMEM)))
       || (op == Snapshot(0) && th'.pc == Return(Err(-EINVAL)))
       || (!Keyed(op) && op != Snapshot(0) && th'.pc == ScanWait(0, StartAcc(op)))
  }

  // ---- steps of a keyed operation ----

  predicate AcquireStep(g: Geometry, s: State, s': State, t: Tid) {
    t < |s.threads| &&
    var th := s.threads[t];
    && th.pc.Wait? && OpOf(th.prog).Some? && Keyed(OpOf(th.prog).value)
    && var b := g.hash(OpOf(th.prog).value.key);
       && b < |s.locks| && b < |s.heap.heads| && s.locks[b].None?
       && s' == State(s.heap, s.locks[b := Some(t)], s.threads[t := Thread(th.prog, Walk(b, s.heap.heads[b]))])
  }

  /** The node under the cursor has another key. */
  predicate AdvanceStep(s: State, s': State, t: Tid) {
    t < |s.threads| &&
    var th := s.threads[t];
    && th.pc.Walk? && th.pc.cur in s.heap.node && OpOf(th.prog).Some? && Keyed(OpOf(th.prog).value)
    && s.heap.node[th.pc.cur].key != OpOf(th.prog).value.key
    && s' == s.(threads := s.threads[t := Thread(th.prog, Walk(th.pc.b, s.heap.node[th.pc.cur].next))])
  }

  /** The node under the cursor has the key: store, unlink and free, or copy out. */
  predicate HitStep(s: State, s': State, t: Tid) {
    t < |s.threads| &&
    var th := s.threads[t];
    && th.pc.Walk? && th.pc.cur in s.heap.node && OpOf(th.prog).Some? && Keyed(OpOf(th.prog).value)
    && th.pc.b < |s.heap.heads|
    && var op, p := OpOf(th.prog).value, th.pc.cur;
       && s.heap.node[p].key == op.key
       && s'.locks == s.locks
       && match op
          case Add(k, v) =>
            && s'.heap == Store(s.heap, p, v)
            && s'.threads == s.threads[t := Thread(th.prog, Unlock(th.pc.b, Ok))]
          case Remove(k) =>
            && s'.heap == Unlink(s.heap, th.pc.b, p)
            && s'.threads == s.threads[t := Thread(th.prog, Unlock(th.pc.b, Ok))]
          case Lookup(k, room) =>
            && s'.heap == s.heap
            && var v := s.heap.node[p].value;
               s'.threads == s.threads[t := Thread(th.prog,
                   Unlock(th.pc.b, if |v| + 1 > room then Err(-ENOSPC) else Found(v)))]
  }

  /** The end of the chain on an add: link the fresh node p. */
  predicate LinkStep(s: State, s': State, t: Tid, p: Ptr) {
    t < |s.threads| &&
    var th := s.threads[t];
    && th.pc.Walk? && th.pc.cur == NULL && OpOf(th.prog).Some? && OpOf(th.prog).value.Add?
    && th.pc.b < |s.heap.heads| && p != NULL && p !in s.heap.node
    && s' == State(Link(s.heap, th.pc.b, p, OpOf(th.prog).value.key, OpOf(th.prog).value.value), s.locks,
                   s.threads[t := Thread(th.prog, Unlock(th.pc.b, Ok))])
  }

  /** The end of the chain: no such key, or on an add no memory for a node. */
  predicate MissStep(s: State, s': State, t: Tid) {
    t < |s.threads| &&
    var th := s.threads[t];
    && th.pc.Walk? && th.pc.cur == NULL && OpOf(th.prog).Some? && Keyed(OpOf(th.prog).value)
    && s' == s.(threads := s.threads[t := Thread(th.prog,
                  Unlock(th.pc.b, Err(if OpOf(th.prog).value.Add? then -ENOMEM else -ENOENT)))])
  }

  predicate ReleaseStep(s: State, s': State, t: Tid) {
    t < |s.threads| &&
    var th := s.threads[t];
    && th.pc.Unlock? && th.pc.b < |s.locks|
    && s' == State(s.heap, s.locks[th.pc.b := None], s.threads[t := Thread(th.prog, Return(th.pc.res))])
  }

  // ---- steps of kv_hash_count and kv_hash_snapshot ----

  predicate ScanAcquireStep(s: State, s': State, t: Tid) {
    t < |s.threads| &&
    var th := s.threads[t];
    && th.pc.ScanWait? && th.pc.b < |s.locks| && th.pc.b < |s.heap.heads| && s.locks[th.pc.b].None?
    && s' == State(s.heap, s.locks[th.pc.b := Some(t)],
         s.threads[t := Thread(th.prog, ScanWalk(th.pc.b, s.heap.heads[th.pc.b], th.pc.acc, th.pc.acc))])
  }

  predicate ScanNodeStep(s: State, s': State, t: Tid) {
    t < |s.threads| &&
    var th := s.threads[t];
    && th.pc.ScanWalk? && th.pc.cur in s.heap.node
    && var n := s.heap.node[th.pc.cur];
       s' == s.(threads := s.threads[t := Thread(th.prog,
         if Full(th.pc.acc) then Unlock(th.pc.b, ResultOf(th.pc.acc))
         else ScanWalk(th.pc.b, n.next, Absorb(th.pc.acc, [Entry(n.key, n.value)]), th.pc.base))])
  }

  predicate ScanEndStep(s: State, s': State, t: Tid) {
    t < |s.threads| &&
    var th := s.threads[t];
    && th.pc.ScanWalk? && th.pc.cur == NULL
    && s' == s.(threads := s.threads[t := Thread(th.prog, ScanUnlock(th.pc.b, th.pc.acc))])
  }

  predicate ScanReleaseStep(g: Geometry, s: State, s': State, t: Tid) {
    t < |s.threads| &&
    var th := s.threads[t];
    && th.pc.ScanUnlock? && th.pc.b < |s.locks|
    && s' == State(s.heap, s.locks[th.pc.b := None], s.threads[t := Thread(th.prog,
         if th.pc.b + 1 < g.n then ScanWait(th.pc.b + 1, th.pc.acc) else Return(ResultOf(th.pc.acc)))])
  }

  // ---- runs ----

  predicate LocalStep(s: State, s': State, t: Tid) {
    && t < |s.threads|
    && |s'.threads| == |s.threads|
    && s' == s.(threads := s.threads[t := s'.threads[t]])
  }

  ghost predicate Step(g: Geometry, s: State, s': State, t: Tid) {
    && t < |s.threads|
    && (|| (LocalStep(s, s', t) && (ClientStep(s.threads[t], s'.threads[t]) || CallStep(s.threads[t], s'.threads[t])))
        || AcquireStep(g, s, s', t)
        || AdvanceStep(s, s', t)
        || HitStep(s, s', t)
        || (exists p: Ptr :: LinkStep(s, s', t, p))
        || MissStep(s, s', t)
        || ReleaseStep(s, s', t)
        || ScanAcquireStep(s, s', t)
        || ScanNodeStep(s, s', t)
        || ScanEndStep(s, s', t)
        || ScanReleaseStep(g, s, s', t))
  }

  ghost predicate Next(g: Geometry, s: State, s': State) {
    exists t: Tid :: Step(g, s, s', t)
  }

  ghost predicate NextAt(g: Geometry, run: seq<State>, i: nat) {
    i + 1 < |run| && Next(g, run[i], run[i + 1])
  }

  ghost predicate Run(g: Geometry, run: seq<State>) {
    && |run| > 0 && Init(g, run[0])
    && forall i: nat | i + 1 < |run| :: NextAt(g, run, i)
  }
}
